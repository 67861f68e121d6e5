// `key_slot`: the Redis Cluster hash slot of a key. When the key holds a
// non-empty hash tag (the text between its first `{` and the first `}`
// after it), only the tag is hashed, so keys sharing a tag share a slot.

module SlotHasher {
  import opened Utf8
  import opened Crc16

  /** Redis Cluster divides the key space into this many hash slots. */
  const SlotCount := 16384

  /** Python's `s.find(c, from)`: the first index at or after `from` that
      holds `c`, or -1 when there is none. */
  function Find(s: string, c: char, from: nat): (r: int)
    requires from <= |s|
    ensures r == -1 <==> c !in s[from..]
    ensures r != -1 ==> from <= r < |s| && s[r] == c && c !in s[from..r]
    decreases |s| - from
  {
    if from == |s| then -1
    else if s[from] == c then from
    else
      var r := Find(s, c, from + 1);
      assert s[from..] == [s[from]] + s[from + 1..];
      assert r != -1 ==> s[from..r] == [s[from]] + s[from + 1..r];
      r
  }

  /** The text `key_slot` hashes: the hash tag when there is a non-empty one,
      the whole key otherwise. Whenever it is not the whole key, it is the
      key's non-empty hash tag (`TagIsHashed` gives the converse). */
  function HashedPart(key: string): (r: string)
    ensures r == key || exists i :: IsTagAt(key, i, r)
  {
    if '{' in key && '}' in key then
      var start := Find(key, '{', 0) + 1;
      var end := Find(key, '}', start);
      if end > start then
        assert key[..start - 1] == key[0..start - 1];
        assert IsTagAt(key, start - 1, key[start..end]);
        key[start..end]
      else key
    else key
  }

  /** `key_slot(key)`: CRC-16/XMODEM of the UTF-8 bytes of the hashed part,
      modulo the number of slots. */
  function KeySlot(key: string): (slot: int)
    ensures 0 <= slot < SlotCount
  {
    Checksum(Encode(HashedPart(key))) as int % SlotCount
  }

  /** `key` has the non-empty hash tag `tag`, whose opening brace, the
      first `{` of the key, is at index `i`; the tag runs up to the first
      `}` after it. */
  ghost predicate IsTagAt(key: string, i: int, tag: string) {
    0 <= i && i + |tag| + 1 < |key| &&
    key[i] == '{' && '{' !in key[..i] &&
    tag != [] && '}' !in tag &&
    key[i + 1..i + 1 + |tag|] == tag && key[i + 1 + |tag|] == '}'
  }

  /** `Find` returns the first occurrence: an index that holds `c` with no
      `c` between `from` and it. */
  lemma FindFirst(s: string, c: char, from: nat, i: nat)
    requires from <= i < |s| && s[i] == c && c !in s[from..i]
    ensures Find(s, c, from) == i
  {
    assert s[from..][i - from] == c;
  }

  /** A key with a non-empty hash tag is hashed on that tag alone. */
  lemma TagIsHashed(key: string, i: int, tag: string)
    requires IsTagAt(key, i, tag)
    ensures HashedPart(key) == tag
  {
    var j := i + 1 + |tag|;
    FindFirst(key, '{', 0, i);
    assert key[..i] == key[0..i];
    assert key[i + 1..j] == tag;
    FindFirst(key, '}', i + 1, j);
  }

  /** Empty braces are no tag: `"{}"` and every key whose first `{` is
      followed at once by `}` are hashed whole. */
  lemma EmptyTagHashesWholeKey(pre: string, post: string)
    requires '{' !in pre
    ensures HashedPart(pre + "{}" + post) == pre + "{}" + post
  {
    var key := pre + "{}" + post;
    var i := |pre|;
    assert key[i] == '{' && key[i + 1] == '}';
    assert key[..i] == pre;
    FindFirst(key, '{', 0, i);
    assert key[i + 1..i + 1] == [];
    FindFirst(key, '}', i + 1, i + 1);
  }

  /** An unclosed brace is no tag: when no `}` follows the first `{` (as in
      `"{abc"`, or `"}a{"` where the only `}` comes first), the key is
      hashed whole. */
  lemma UnclosedBraceHashesWholeKey(pre: string, rest: string)
    requires '{' !in pre && '}' !in rest
    ensures HashedPart(pre + "{" + rest) == pre + "{" + rest
  {
    var key := pre + "{" + rest;
    var i := |pre|;
    assert key[i] == '{' && key[..i] == pre;
    FindFirst(key, '{', 0, i);
    assert key[i + 1..] == rest;
  }

  /** A key without `{` is hashed whole, on exactly its own UTF-8 bytes. */
  lemma KeyWithoutBraceHashesItsBytes(key: string)
    requires '{' !in key
    ensures HashedPart(key) == key
    ensures KeySlot(key) == Checksum(Encode(key)) as int % SlotCount
  {
  }

  /** Keys that share a non-empty hash tag share a slot, whatever surrounds the tag. */
  lemma SameTagSameSlot(k1: string, i1: int, k2: string, i2: int, tag: string)
    requires IsTagAt(k1, i1, tag) && IsTagAt(k2, i2, tag)
    ensures KeySlot(k1) == KeySlot(k2)
  {
    TagIsHashed(k1, i1, tag);
    TagIsHashed(k2, i2, tag);
  }

  /** `user:{42}:profile` and `user:{42}:sessions` are stored in the same slot. */
  lemma UserProfileAndSessionsShareSlot(profile: string, sessions: string)
    requires profile == "user:{42}:profile" && sessions == "user:{42}:sessions"
    ensures KeySlot(profile) == KeySlot(sessions)
  {
    assert profile[..5] == "user:" && sessions[..5] == "user:";
    assert IsTagAt(profile, 5, "42");
    assert IsTagAt(sessions, 5, "42");
    SameTagSameSlot(profile, 5, sessions, 5, "42");
  }

  /** The empty key lies in slot 0: the register starts at 0 and no byte is fed. */
  lemma EmptyKeyIsInSlotZero()
    ensures KeySlot("") == 0
  {
  }

  lemma DigitsChecksum(key: string)
    requires key == "123456789"
    ensures Checksum(Encode(key)) == 0x31C3
  {
    EncodeAscii(key);
    assert Encode(key) == [0x31, 0x32, 0x33, 0x34, 0x35, 0x36, 0x37, 0x38, 0x39];
    CheckValue(Encode(key));
  }

  lemma SlotOfDigitsChecksum(crc: bv16)
    requires crc == 0x31C3
    ensures crc as int % SlotCount == 12739
  {
  }

  /** The example of the Redis Cluster specification: "123456789" has
      CRC16 0x31C3 and so lies in slot 12739. */
  lemma DigitsKeySlot(key: string)
    requires key == "123456789"
    ensures KeySlot(key) == 12739
  {
    KeyWithoutBraceHashesItsBytes(key);
    DigitsChecksum(key);
    SlotOfDigitsChecksum(Checksum(Encode(key)));
  }
}
