// Identities of sequences used by the proofs of the other modules. Stated
// once and for all element types, they spare each proof the cost of
// rediscovering them in its own, larger context.

module Seqs {
  lemma PrefixSnoc<T>(s: seq<T>, j: nat)
    requires j < |s|
    ensures s[..j + 1] == s[..j] + [s[j]]
  {
  }

  lemma PrefixSplit<T>(s: seq<T>, j: nat)
    requires j <= |s|
    ensures s == s[..j] + s[j..]
  {
  }

  lemma PrefixAll<T>(s: seq<T>)
    ensures s[..|s|] == s
  {
  }

  lemma LastSplit<T>(s: seq<T>)
    requires s != []
    ensures s == s[..|s| - 1] + [s[|s| - 1]]
  {
  }

  lemma SnocDropLast<T>(s: seq<T>, x: T)
    ensures (s + [x])[..|s|] == s
    ensures (s + [x])[|s|] == x
  {
  }

  /** Splitting the last element off a concatenation whose second part is
      not empty. */
  lemma AppendSnoc<T>(a: seq<T>, b: seq<T>)
    requires b != []
    ensures a + b == (a + b[..|b| - 1]) + [b[|b| - 1]]
    ensures (a + b)[..|a + b| - 1] == a + b[..|b| - 1]
    ensures (a + b)[|a + b| - 1] == b[|b| - 1]
  {
  }

  lemma AppendAssoc<T>(a: seq<T>, b: seq<T>, c: seq<T>)
    ensures a + b + c == a + (b + c)
  {
  }

  lemma AppendEmpty<T>(a: seq<T>)
    ensures a + [] == a
    ensures [] + a == a
  {
  }

  lemma Take1<T>(s: seq<T>)
    requires 1 <= |s|
    ensures s[..1] == [s[0]]
  {
  }

  lemma Take2<T>(s: seq<T>)
    requires 2 <= |s|
    ensures s[..2] == [s[0], s[1]]
  {
  }

  lemma Take3<T>(s: seq<T>)
    requires 3 <= |s|
    ensures s[..3] == [s[0], s[1], s[2]]
  {
  }

  lemma Take4<T>(s: seq<T>)
    requires 4 <= |s|
    ensures s[..4] == [s[0], s[1], s[2], s[3]]
  {
  }

  lemma SnocIndex<T>(s: seq<T>, x: T)
    ensures |s + [x]| == |s| + 1
    ensures forall i :: 0 <= i < |s| ==> (s + [x])[i] == s[i]
    ensures (s + [x])[|s|] == x
  {
  }
}
