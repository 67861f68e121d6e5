// Reading the cluster topology (check-shard-slots.py, lines 45-54): one
// slot range per entry of the `CLUSTER SLOTS` reply, in reply order, and a
// dict from master id ("ip:port") to the master's address.
//
// The functions that specify the loop (`Ranges`, `Masters`) and the facts
// about them take the function `idOf` that names an entry's master; the
// script's own is `EntryId`, which `ParseTopology` and `TopologyOfEntries`
// use. The facts hold for every such function, except that mapping every
// entry to its own address needs ids that determine addresses, which
// `EntryIdsDetermineEndpoints` proves of `EntryId`.

module Topology {
  import opened Seqs

  /** One entry of the `CLUSTER SLOTS` reply as the script reads it: the
      first and last slot of the range, and the master's IP (as decoded
      text) and port. */
  datatype TopologyEntry = TopologyEntry(slotStart: int, slotEnd: int, ip: string, port: int)

  /** An element of `slot_ranges`. */
  datatype SlotRange = SlotRange(slotStart: int, slotEnd: int, masterId: string)

  /** A value of `master_map`: the address a master is scanned at. */
  datatype Endpoint = Endpoint(ip: string, port: int)

  /** `master_map`, a Python dict: its entries, and its keys in the order
      in which they were first inserted (the order `items()` visits them). */
  datatype MasterMap = MasterMap(order: seq<string>, endpoints: map<string, Endpoint>)
  {
    ghost predicate Valid() {
      (forall i, j :: 0 <= i < j < |order| ==> order[i] != order[j]) &&
      (forall id :: id in endpoints <==> id in order)
    }

    /** `master_map[id] = ep`: a new key goes to the end of the order, an
        existing key keeps its place and gets the new value. */
    function Assign(id: string, ep: Endpoint): (r: MasterMap)
      ensures r.endpoints == endpoints[id := ep]
      ensures id in endpoints ==> r.order == order
      ensures id !in endpoints ==> r.order == order + [id]
    {
      MasterMap(if id in endpoints then order else order + [id], endpoints[id := ep])
    }

    /** Assignment keeps the order a list of the dict's keys without repeats. */
    lemma AssignValid(id: string, ep: Endpoint)
      requires Valid()
      ensures Assign(id, ep).Valid()
    {
      var r := Assign(id, ep);
      forall k
        ensures k in r.endpoints <==> k in r.order
      {
      }
    }
  }

  function DigitChar(d: int): char
    requires 0 <= d < 10
  {
    ('0' as int + d) as char
  }

  predicate IsDigits(s: string) {
    forall i :: 0 <= i < |s| ==> '0' <= s[i] <= '9'
  }

  /** The decimal numeral of a natural number, without leading zeros. */
  function NatToDecimal(n: nat): (r: string)
    ensures r != [] && IsDigits(r)
    decreases n
  {
    if n < 10 then [DigitChar(n)] else NatToDecimal(n / 10) + [DigitChar(n % 10)]
  }

  /** Python's `str(n)` (as in the f-string `f"{master_ip}:{master_port}"`). */
  function IntToDecimal(n: int): (r: string)
    ensures ':' !in r
  {
    if n < 0 then "-" + NatToDecimal(-n) else NatToDecimal(n)
  }

  /** The value of a decimal numeral, read from its last digit backwards. */
  function ParseNat(s: string): nat
    requires IsDigits(s)
  {
    if s == [] then 0 else ParseNat(s[..|s| - 1]) * 10 + (s[|s| - 1] as int - '0' as int)
  }

  /** Python's `int(s)` on what `str` produces. */
  function ParseInt(s: string): int {
    if s != [] && s[0] == '-' && IsDigits(s[1..]) then 0 - ParseNat(s[1..])
    else if IsDigits(s) then ParseNat(s)
    else 0
  }

  lemma {:induction false} ParseNatToDecimal(n: nat)
    ensures ParseNat(NatToDecimal(n)) == n
    decreases n
  {
    var r := NatToDecimal(n);
    if n >= 10 {
      ParseNatToDecimal(n / 10);
      assert r[..|r| - 1] == NatToDecimal(n / 10);
    }
  }

  /** Reading back a port's numeral gives the port: `int(str(n)) == n`. */
  lemma ParseIntToDecimal(n: int)
    ensures ParseInt(IntToDecimal(n)) == n
  {
    if n < 0 {
      ParseNatToDecimal(-n);
      assert IntToDecimal(n)[1..] == NatToDecimal(-n);
    } else {
      ParseNatToDecimal(n);
    }
  }

  /** The key of `master_map` for a master at `ip` and `port`. */
  function MasterId(ip: string, port: int): string {
    ip + ":" + IntToDecimal(port)
  }

  /** When two `a + ":" + b` strings are equal and the first `a` is
      shorter, the second separator falls inside the first `b`. */
  lemma SeparatorInsideLongerPart(a1: string, b1: string, a2: string, b2: string)
    requires a1 + ":" + b1 == a2 + ":" + b2 && |a1| < |a2|
    ensures ':' in b1
  {
    var s := a1 + ":" + b1;
    assert s[|a2|] == ':';
    assert b1[|a2| - |a1| - 1] == s[|a2|];
  }

  /** Distinct addresses get distinct master ids: the port's numeral holds
      no `:`, so the last `:` of an id separates the IP from the port. */
  lemma MasterIdInjective(ip1: string, port1: int, ip2: string, port2: int)
    requires MasterId(ip1, port1) == MasterId(ip2, port2)
    ensures ip1 == ip2 && port1 == port2
  {
    var id := MasterId(ip1, port1);
    var d1, d2 := IntToDecimal(port1), IntToDecimal(port2);
    if |ip1| < |ip2| {
      SeparatorInsideLongerPart(ip1, d1, ip2, d2);
      assert false;
    } else if |ip2| < |ip1| {
      SeparatorInsideLongerPart(ip2, d2, ip1, d1);
      assert false;
    }
    assert ip1 == id[..|ip1|] == ip2;
    assert d1 == id[|ip1| + 1..] == d2;
    ParseIntToDecimal(port1);
    ParseIntToDecimal(port2);
  }

  /** The address an entry names: the value `master_map` gets for it. */
  function EntryEndpoint(e: TopologyEntry): Endpoint {
    Endpoint(e.ip, e.port)
  }

  /** `master_id` of an entry: `f"{master_ip}:{master_port}"`. */
  function EntryId(e: TopologyEntry): string {
    MasterId(e.ip, e.port)
  }

  /** The first occurrence of every element, in order of first occurrence. */
  function FirstOccurrences(ids: seq<string>): (r: seq<string>)
    ensures forall i, j :: 0 <= i < j < |r| ==> r[i] != r[j]
    ensures forall x :: x in r <==> x in ids
  {
    if ids == [] then []
    else
      var d := FirstOccurrences(ids[..|ids| - 1]);
      var x := ids[|ids| - 1];
      assert forall y :: y in ids <==> y in ids[..|ids| - 1] || y == x;
      if x in d then d else d + [x]
  }

  lemma FirstOccurrencesAppend(ids: seq<string>, x: string)
    ensures FirstOccurrences(ids + [x]) ==
      if x in FirstOccurrences(ids) then FirstOccurrences(ids) else FirstOccurrences(ids) + [x]
  {
    SnocDropLast(ids, x);
  }

  /** The index of the first occurrence of `x` in `ids`. */
  function FirstIndex(ids: seq<string>, x: string): (r: nat)
    requires x in ids
    ensures r < |ids| && ids[r] == x && x !in ids[..r]
  {
    if ids[0] == x then 0
    else
      var r := 1 + FirstIndex(ids[1..], x);
      assert ids[..r] == [ids[0]] + ids[1..][..r - 1];
      r
  }

  /** An index holding `x` with no `x` before it is the first index of `x`. */
  lemma FirstIndexUnique(ids: seq<string>, x: string, r: nat)
    requires r < |ids| && ids[r] == x && x !in ids[..r]
    ensures FirstIndex(ids, x) == r
  {
  }

  /** The first occurrences come in the order in which they first occur. */
  lemma {:induction false} FirstOccurrencesOrdered(ids: seq<string>)
    ensures forall i, j :: 0 <= i < j < |FirstOccurrences(ids)| ==>
      FirstIndex(ids, FirstOccurrences(ids)[i]) < FirstIndex(ids, FirstOccurrences(ids)[j])
  {
    if ids != [] {
      var p, x := ids[..|ids| - 1], ids[|ids| - 1];
      LastSplit(ids);
      FirstOccurrencesOrdered(p);
      var d, r := FirstOccurrences(p), FirstOccurrences(ids);
      forall y | y in p
        ensures FirstIndex(ids, y) == FirstIndex(p, y)
      {
        var f := FirstIndex(p, y);
        assert ids[..f] == p[..f];
        FirstIndexUnique(ids, y, f);
      }
      if x !in p {
        assert ids[..|p|] == p;
        FirstIndexUnique(ids, x, |p|);
      }
      forall i, j | 0 <= i < j < |r|
        ensures FirstIndex(ids, r[i]) < FirstIndex(ids, r[j])
      {
        assert r[i] in d;
        if j < |d| {
          assert r[j] in d;
        }
      }
    }
  }

  /** The master ids of the first `n` entries, in reply order, repeats
      included, where `idOf` names an entry's master. */
  function EntryIds(entries: seq<TopologyEntry>, n: nat, idOf: TopologyEntry -> string): (ids: seq<string>)
    requires n <= |entries|
    ensures |ids| == n
  {
    if n == 0 then [] else EntryIds(entries, n - 1, idOf) + [idOf(entries[n - 1])]
  }

  /** Entries named by the same id are at the same address. */
  ghost predicate IdsDetermineEndpoints(idOf: TopologyEntry -> string) {
    forall a, b :: idOf(a) == idOf(b) ==> EntryEndpoint(a) == EntryEndpoint(b)
  }

  /** The script's ids name addresses: `EntryId` is injective on them. */
  lemma EntryIdsDetermineEndpoints()
    ensures IdsDetermineEndpoints(EntryId)
  {
    forall a, b | EntryId(a) == EntryId(b)
      ensures EntryEndpoint(a) == EntryEndpoint(b)
    {
      MasterIdInjective(a.ip, a.port, b.ip, b.port);
    }
  }

  /** The id of each of the first `n` entries is a key of `masters`,
      mapped to that entry's address. */
  ghost predicate MapsEveryEntry(masters: MasterMap, entries: seq<TopologyEntry>, n: nat, idOf: TopologyEntry -> string)
    requires n <= |entries|
  {
    forall i :: 0 <= i < n ==>
      idOf(entries[i]) in masters.endpoints &&
      masters.endpoints[idOf(entries[i])] == EntryEndpoint(entries[i])
  }

  /** The element of `slot_ranges` an entry contributes. */
  function EntryRange(e: TopologyEntry, idOf: TopologyEntry -> string): SlotRange {
    SlotRange(e.slotStart, e.slotEnd, idOf(e))
  }

  /** `slot_ranges` after the first `n` entries. */
  function Ranges(entries: seq<TopologyEntry>, n: nat, idOf: TopologyEntry -> string): seq<SlotRange>
    requires n <= |entries|
  {
    if n == 0 then [] else Ranges(entries, n - 1, idOf) + [EntryRange(entries[n - 1], idOf)]
  }

  /** `master_map` after the first `n` entries. */
  function Masters(entries: seq<TopologyEntry>, n: nat, idOf: TopologyEntry -> string): MasterMap
    requires n <= |entries|
  {
    if n == 0 then MasterMap([], map[])
    else Masters(entries, n - 1, idOf).Assign(idOf(entries[n - 1]), EntryEndpoint(entries[n - 1]))
  }

  lemma RangesStep(entries: seq<TopologyEntry>, n: nat, idOf: TopologyEntry -> string)
    requires n < |entries|
    ensures Ranges(entries, n + 1, idOf) == Ranges(entries, n, idOf) + [EntryRange(entries[n], idOf)]
  {
  }

  lemma MastersStep(entries: seq<TopologyEntry>, n: nat, idOf: TopologyEntry -> string)
    requires n < |entries|
    ensures Masters(entries, n + 1, idOf) == Masters(entries, n, idOf).Assign(idOf(entries[n]), EntryEndpoint(entries[n]))
  {
  }

  /** One range per entry, in reply order, named by the entry's id. */
  lemma {:induction false} RangesOfEntries(entries: seq<TopologyEntry>, n: nat, idOf: TopologyEntry -> string)
    requires n <= |entries|
    ensures |Ranges(entries, n, idOf)| == n
    ensures forall i :: 0 <= i < n ==> Ranges(entries, n, idOf)[i] == EntryRange(entries[i], idOf)
  {
    if n > 0 {
      RangesOfEntries(entries, n - 1, idOf);
      RangesStep(entries, n - 1, idOf);
      SnocIndex(Ranges(entries, n - 1, idOf), EntryRange(entries[n - 1], idOf));
    }
  }

  /** The dict stays well formed: its order lists each of its keys once. */
  lemma {:induction false} MastersValid(entries: seq<TopologyEntry>, n: nat, idOf: TopologyEntry -> string)
    requires n <= |entries|
    ensures Masters(entries, n, idOf).Valid()
  {
    if n > 0 {
      MastersValid(entries, n - 1, idOf);
      MastersStep(entries, n - 1, idOf);
      Masters(entries, n - 1, idOf).AssignValid(idOf(entries[n - 1]), EntryEndpoint(entries[n - 1]));
    }
  }

  /** On a dict whose order is the first occurrences of `ids`, assigning
      `id` makes the order the first occurrences of `ids + [id]`. */
  lemma AssignOrder(m: MasterMap, ids: seq<string>, id: string, ep: Endpoint)
    requires m.Valid() && m.order == FirstOccurrences(ids)
    ensures m.Assign(id, ep).order == FirstOccurrences(ids + [id])
  {
    FirstOccurrencesAppend(ids, id);
  }

  /** The dict's keys, in its iteration order, are the distinct master ids
      in order of first appearance. */
  lemma {:induction false} MastersOrder(entries: seq<TopologyEntry>, n: nat, idOf: TopologyEntry -> string)
    requires n <= |entries|
    ensures Masters(entries, n, idOf).order == FirstOccurrences(EntryIds(entries, n, idOf))
  {
    if n > 0 {
      MastersOrder(entries, n - 1, idOf);
      MastersValid(entries, n - 1, idOf);
      var e := entries[n - 1];
      MastersStep(entries, n - 1, idOf);
      AssignOrder(Masters(entries, n - 1, idOf), EntryIds(entries, n - 1, idOf), idOf(e), EntryEndpoint(e));
    }
  }

  /** Assigning the next entry's address under its id keeps every earlier
      entry mapped to its own address: an earlier entry with the same id
      has the same address. */
  lemma AssignNextEntry(entries: seq<TopologyEntry>, n: nat, idOf: TopologyEntry -> string)
    requires n < |entries| && IdsDetermineEndpoints(idOf)
    requires MapsEveryEntry(Masters(entries, n, idOf), entries, n, idOf)
    ensures MapsEveryEntry(Masters(entries, n + 1, idOf), entries, n + 1, idOf)
  {
    var next := Masters(entries, n + 1, idOf);
    forall i | 0 <= i < n
      ensures idOf(entries[i]) in next.endpoints
      ensures next.endpoints[idOf(entries[i])] == EntryEndpoint(entries[i])
    {
    }
  }

  /** Every entry's id maps to that entry's address. */
  lemma {:induction false} MastersMapEntries(entries: seq<TopologyEntry>, n: nat, idOf: TopologyEntry -> string)
    requires n <= |entries| && IdsDetermineEndpoints(idOf)
    ensures MapsEveryEntry(Masters(entries, n, idOf), entries, n, idOf)
  {
    if n > 0 {
      MastersMapEntries(entries, n - 1, idOf);
      AssignNextEntry(entries, n - 1, idOf);
    }
  }

  /** What the topology loop has built, with the script's ids, once it has
      seen every entry. */
  lemma TopologyOfEntries(entries: seq<TopologyEntry>)
    ensures |Ranges(entries, |entries|, EntryId)| == |entries|
    ensures forall i :: 0 <= i < |entries| ==> Ranges(entries, |entries|, EntryId)[i] == EntryRange(entries[i], EntryId)
    ensures Masters(entries, |entries|, EntryId).Valid()
    ensures Masters(entries, |entries|, EntryId).order == FirstOccurrences(EntryIds(entries, |entries|, EntryId))
    ensures MapsEveryEntry(Masters(entries, |entries|, EntryId), entries, |entries|, EntryId)
  {
    RangesOfEntries(entries, |entries|, EntryId);
    MastersValid(entries, |entries|, EntryId);
    MastersOrder(entries, |entries|, EntryId);
    EntryIdsDetermineEndpoints();
    MastersMapEntries(entries, |entries|, EntryId);
  }

  /** The topology loop of the script (lines 48-54): `ranges` and
      `masters` are what the loop builds from all the entries, and the dict
      is well formed; `TopologyOfEntries` states what they then hold. */
  method ParseTopology(entries: seq<TopologyEntry>) returns (ranges: seq<SlotRange>, masters: MasterMap)
    ensures ranges == Ranges(entries, |entries|, EntryId) && masters == Masters(entries, |entries|, EntryId)
    ensures masters.Valid()
  {
    ranges := [];
    masters := MasterMap([], map[]);
    var n := 0;
    while n < |entries|
      invariant 0 <= n <= |entries|
      invariant ranges == Ranges(entries, n, EntryId) && masters == Masters(entries, n, EntryId)
    {
      var e := entries[n];
      var id := MasterId(e.ip, e.port);
      ranges := ranges + [SlotRange(e.slotStart, e.slotEnd, id)];
      masters := masters.Assign(id, Endpoint(e.ip, e.port));
      RangesStep(entries, n, EntryId);
      MastersStep(entries, n, EntryId);
      n := n + 1;
    }
    MastersValid(entries, n, EntryId);
  }
}
