// The key census of check-shard-slots.py (lines 56-80): every master in
// `master_map` is scanned in turn, each key it returns is decoded, hashed
// to its slot and counted in `slot_key_counts` and listed in
// `key_slot_map`; a master whose scan raises keeps what it has already
// counted and the census moves on to the next master.
//
// The census is written against the key decoder `decode` (the script's
// `key.decode()`) and the slot function `slotOf` (the script's `key_slot`)
// it is given; the script's own are `Utf8.Decode` and `SlotHasher.KeySlot`,
// which `Audit.RunAudit` passes. Everything proved here holds for every
// decoder and every slot function, those two among them.

module Census {
  import opened Utf8
  import opened Topology
  import opened Seqs

  /** What one master's SCAN loop receives: the key batches of its replies,
      in order, and whether a call raised after the last of them (a master
      that cannot be reached at all is `ScanOutcome([], true)`). When
      `raises` is false the last reply carried cursor 0 and the loop ended. */
  datatype ScanOutcome = ScanOutcome(batches: seq<seq<seq<byte>>>, raises: bool)

  /** The raw keys of a sequence of batches, one batch after the other. */
  function Flatten(batches: seq<seq<seq<byte>>>): seq<seq<byte>> {
    if batches == [] then [] else Flatten(batches[..|batches| - 1]) + batches[|batches| - 1]
  }

  /** `decode` applied to each raw key in turn: the keys decoded before the
      first one that fails, and whether none failed. */
  function DecodeKeys(raw: seq<seq<byte>>, decode: seq<byte> -> Option<string>): (r: (seq<string>, bool))
    ensures |r.0| <= |raw|
    ensures r.1 ==> |r.0| == |raw|
  {
    if raw == [] then ([], true)
    else
      var (keys, ok) := DecodeKeys(raw[..|raw| - 1], decode);
      if !ok then (keys, false)
      else match decode(raw[|raw| - 1])
        case None => (keys, false)
        case Some(k) => (keys + [k], true)
  }

  /** The keys a master's scan counts: those of its batches up to the first
      key that does not decode. */
  function Contribution(o: ScanOutcome, decode: seq<byte> -> Option<string>): seq<string> {
    DecodeKeys(Flatten(o.batches), decode).0
  }

  /** The scan of a master ends in the `except` branch: a call raised, or a
      key failed to decode. */
  predicate ScanRaises(o: ScanOutcome, decode: seq<byte> -> Option<string>) {
    o.raises || !DecodeKeys(Flatten(o.batches), decode).1
  }

  /** `slot_key_counts.get(slot, 0)`. */
  function Get(counts: map<int, int>, slot: int): int {
    if slot in counts then counts[slot] else 0
  }

  /** `key_slot_map[slot]` read without inserting: the empty list when absent. */
  function GetList(lists: map<int, seq<string>>, slot: int): seq<string> {
    if slot in lists then lists[slot] else []
  }

  /** `slot_key_counts[slot] += 1` on a defaultdict: that slot goes up by
      one and no other slot changes. */
  function Inc(counts: map<int, int>, slot: int): (r: map<int, int>)
    ensures forall s :: Get(r, s) == Get(counts, s) + (if s == slot then 1 else 0)
  {
    counts[slot := Get(counts, slot) + 1]
  }

  /** `key_slot_map[slot].append(key)` on a defaultdict: the key goes to
      the end of that slot's list and no other list changes. */
  function Append(lists: map<int, seq<string>>, slot: int, key: string): (r: map<int, seq<string>>)
    ensures forall s :: GetList(r, s) == GetList(lists, s) + (if s == slot then [key] else [])
  {
    lists[slot := GetList(lists, slot) + [key]]
  }

  /** The counters after processing `keys` in order, each key counted in
      slot `slotOf(key)`. */
  function Tally(counts: map<int, int>, keys: seq<string>, slotOf: string -> int): map<int, int> {
    if keys == [] then counts
    else Inc(Tally(counts, keys[..|keys| - 1], slotOf), slotOf(keys[|keys| - 1]))
  }

  /** The per-slot lists after processing `keys` in order. */
  function Listed(lists: map<int, seq<string>>, keys: seq<string>, slotOf: string -> int): map<int, seq<string>> {
    if keys == [] then lists
    else
      var k := keys[|keys| - 1];
      Append(Listed(lists, keys[..|keys| - 1], slotOf), slotOf(k), k)
  }

  /** The keys among `keys` that hash to `slot`, in order, repeats included. */
  function SlotKeys(keys: seq<string>, slotOf: string -> int, slot: int): (r: seq<string>)
    ensures |r| <= |keys|
    ensures forall i :: 0 <= i < |r| ==> slotOf(r[i]) == slot
    ensures forall k {:trigger multiset(r)[k]} :: multiset(r)[k] == if slotOf(k) == slot then multiset(keys)[k] else 0
  {
    if keys == [] then []
    else
      var k := keys[|keys| - 1];
      LastSplit(keys);
      SlotKeys(keys[..|keys| - 1], slotOf, slot) + if slotOf(k) == slot then [k] else []
  }

  /** Every id of `order` is a key of `endpoints`. */
  predicate Addressed(order: seq<string>, endpoints: map<string, Endpoint>) {
    forall i :: 0 <= i < |order| ==> order[i] in endpoints
  }

  /** The keys the census counts when the masters of `order` are scanned
      in that order, one master's contribution after the other. */
  function Scanned(order: seq<string>, endpoints: map<string, Endpoint>, respond: Endpoint -> ScanOutcome,
                   decode: seq<byte> -> Option<string>): seq<string>
    requires Addressed(order, endpoints)
  {
    if order == [] then []
    else Scanned(order[..|order| - 1], endpoints, respond, decode) + Contribution(respond(endpoints[order[|order| - 1]]), decode)
  }

  /** The masters whose scan raised, in scan order: those the script reports
      with `Error scanning`. */
  function Failed(order: seq<string>, endpoints: map<string, Endpoint>, respond: Endpoint -> ScanOutcome,
                  decode: seq<byte> -> Option<string>): (r: seq<string>)
    requires Addressed(order, endpoints)
    ensures forall i :: 0 <= i < |r| ==> r[i] in order && ScanRaises(respond(endpoints[r[i]]), decode)
  {
    if order == [] then []
    else
      var id := order[|order| - 1];
      Failed(order[..|order| - 1], endpoints, respond, decode) + if ScanRaises(respond(endpoints[id]), decode) then [id] else []
  }

  /** The keys `DecodeKeys` returns are the decodings of the raw keys they
      come from, and when it stops early, it stops at the first raw key that
      does not decode. */
  lemma {:induction false} DecodeKeysDecodesPrefix(raw: seq<seq<byte>>, decode: seq<byte> -> Option<string>)
    ensures forall i :: 0 <= i < |DecodeKeys(raw, decode).0| ==> decode(raw[i]) == Some(DecodeKeys(raw, decode).0[i])
    ensures !DecodeKeys(raw, decode).1 ==> |DecodeKeys(raw, decode).0| < |raw| && decode(raw[|DecodeKeys(raw, decode).0|]).None?
  {
    if raw != [] {
      var raw' := raw[..|raw| - 1];
      DecodeKeysDecodesPrefix(raw', decode);
    }
  }

  lemma DecodeKeysStep(x: seq<seq<byte>>, r: seq<byte>, decode: seq<byte> -> Option<string>)
    ensures !DecodeKeys(x, decode).1 ==> DecodeKeys(x + [r], decode) == DecodeKeys(x, decode)
    ensures DecodeKeys(x, decode).1 && decode(r).None? ==> DecodeKeys(x + [r], decode) == (DecodeKeys(x, decode).0, false)
    ensures DecodeKeys(x, decode).1 && decode(r).Some? ==>
      DecodeKeys(x + [r], decode) == (DecodeKeys(x, decode).0 + [decode(r).value], true)
  {
    SnocDropLast(x, r);
  }

  /** Once a key has failed to decode, nothing after it is decoded. */
  lemma {:induction false} DecodeKeysStopped(x: seq<seq<byte>>, y: seq<seq<byte>>, decode: seq<byte> -> Option<string>)
    requires !DecodeKeys(x, decode).1
    ensures DecodeKeys(x + y, decode) == DecodeKeys(x, decode)
    decreases |y|
  {
    if y == [] {
      AppendEmpty(x);
    } else {
      var y', r := y[..|y| - 1], y[|y| - 1];
      DecodeKeysStopped(x, y', decode);
      AppendSnoc(x, y);
      DecodeKeysStep(x + y', r, decode);
    }
  }

  /** Decoding more raw keys only adds keys at the end. */
  lemma {:induction false} DecodeKeysPrefix(x: seq<seq<byte>>, y: seq<seq<byte>>, decode: seq<byte> -> Option<string>)
    ensures DecodeKeys(x, decode).0 <= DecodeKeys(x + y, decode).0
    decreases |y|
  {
    if y == [] {
      AppendEmpty(x);
    } else {
      var y', r := y[..|y| - 1], y[|y| - 1];
      DecodeKeysPrefix(x, y', decode);
      AppendSnoc(x, y);
      DecodeKeysStep(x + y', r, decode);
    }
  }

  lemma FlattenSnoc(a: seq<seq<seq<byte>>>, c: seq<seq<byte>>)
    ensures Flatten(a + [c]) == Flatten(a) + c
  {
    SnocDropLast(a, c);
  }

  lemma {:induction false} FlattenAppend(a: seq<seq<seq<byte>>>, b: seq<seq<seq<byte>>>)
    ensures Flatten(a + b) == Flatten(a) + Flatten(b)
    decreases |b|
  {
    if b == [] {
      AppendEmpty(a);
      AppendEmpty(Flatten(a));
    } else {
      var b', c := b[..|b| - 1], b[|b| - 1];
      FlattenAppend(a, b');
      AppendSnoc(a, b);
      LastSplit(b);
      FlattenSnoc(a + b', c);
      FlattenSnoc(b', c);
      AppendAssoc(Flatten(a), Flatten(b'), c);
    }
  }

  lemma FlattenStep(batches: seq<seq<seq<byte>>>, b: nat)
    requires b < |batches|
    ensures Flatten(batches[..b + 1]) == Flatten(batches[..b]) + batches[b]
  {
    PrefixSnoc(batches, b);
    FlattenSnoc(batches[..b], batches[b]);
  }

  /** Decoding two runs of raw keys: when the first decodes completely,
      the second carries on where it stopped. */
  lemma {:induction false} DecodeKeysAppend(x: seq<seq<byte>>, y: seq<seq<byte>>, decode: seq<byte> -> Option<string>)
    requires DecodeKeys(x, decode).1
    ensures DecodeKeys(x + y, decode) == (DecodeKeys(x, decode).0 + DecodeKeys(y, decode).0, DecodeKeys(y, decode).1)
    decreases |y|
  {
    if y == [] {
      AppendEmpty(x);
      AppendEmpty(DecodeKeys(x, decode).0);
    } else {
      var y', r := y[..|y| - 1], y[|y| - 1];
      DecodeKeysAppend(x, y', decode);
      AppendSnoc(x, y);
      LastSplit(y);
      DecodeKeysStep(x + y', r, decode);
      DecodeKeysStep(y', r, decode);
      if DecodeKeys(y', decode).1 && decode(r).Some? {
        AppendAssoc(DecodeKeys(x, decode).0, DecodeKeys(y', decode).0, [decode(r).value]);
      }
    }
  }

  /** Decoding the next raw key of `raw`, when all before it decoded: a
      failure ends the decoding there, a success adds the key. */
  lemma DecodeKeysNext(raw: seq<seq<byte>>, j: nat, keys: seq<string>, decode: seq<byte> -> Option<string>)
    requires j < |raw| && DecodeKeys(raw[..j], decode) == (keys, true)
    ensures decode(raw[j]).None? ==> DecodeKeys(raw, decode) == (keys, false)
    ensures decode(raw[j]).Some? ==> DecodeKeys(raw[..j + 1], decode) == (keys + [decode(raw[j]).value], true)
  {
    PrefixSnoc(raw, j);
    DecodeKeysStep(raw[..j], raw[j], decode);
    if decode(raw[j]).None? {
      PrefixSplit(raw, j + 1);
      DecodeKeysStopped(raw[..j + 1], raw[j + 1..], decode);
    }
  }

  /** Decoding one more batch, when all before it decoded. */
  lemma DecodeBatchesStep(batches: seq<seq<seq<byte>>>, b: nat, keys: seq<string>, decode: seq<byte> -> Option<string>)
    requires b < |batches| && DecodeKeys(Flatten(batches[..b]), decode) == (keys, true)
    ensures DecodeKeys(Flatten(batches[..b + 1]), decode) ==
      (keys + DecodeKeys(batches[b], decode).0, DecodeKeys(batches[b], decode).1)
  {
    FlattenStep(batches, b);
    DecodeKeysAppend(Flatten(batches[..b]), batches[b], decode);
  }

  /** Once a batch holds a key that fails to decode, the later batches
      add nothing. */
  lemma DecodeBatchesStopped(batches: seq<seq<seq<byte>>>, b: nat, decode: seq<byte> -> Option<string>)
    requires b < |batches| && !DecodeKeys(Flatten(batches[..b + 1]), decode).1
    ensures DecodeKeys(Flatten(batches), decode) == DecodeKeys(Flatten(batches[..b + 1]), decode)
  {
    PrefixSplit(batches, b + 1);
    FlattenAppend(batches[..b + 1], batches[b + 1..]);
    DecodeKeysStopped(Flatten(batches[..b + 1]), Flatten(batches[b + 1..]), decode);
  }

  lemma TallyStep(counts: map<int, int>, keys: seq<string>, key: string, slotOf: string -> int)
    ensures Tally(counts, keys + [key], slotOf) == Inc(Tally(counts, keys, slotOf), slotOf(key))
  {
    SnocDropLast(keys, key);
  }

  lemma ListedStep(lists: map<int, seq<string>>, keys: seq<string>, key: string, slotOf: string -> int)
    ensures Listed(lists, keys + [key], slotOf) == Append(Listed(lists, keys, slotOf), slotOf(key), key)
  {
    SnocDropLast(keys, key);
  }

  /** Processing two runs of keys one after the other is processing their
      concatenation. */
  lemma {:induction false} TallyAppend(counts: map<int, int>, a: seq<string>, b: seq<string>, slotOf: string -> int)
    ensures Tally(counts, a + b, slotOf) == Tally(Tally(counts, a, slotOf), b, slotOf)
    decreases |b|
  {
    if b == [] {
      AppendEmpty(a);
    } else {
      var b', k := b[..|b| - 1], b[|b| - 1];
      TallyAppend(counts, a, b', slotOf);
      AppendSnoc(a, b);
      LastSplit(b);
      TallyStep(counts, a + b', k, slotOf);
      TallyStep(Tally(counts, a, slotOf), b', k, slotOf);
    }
  }

  lemma {:induction false} ListedAppend(lists: map<int, seq<string>>, a: seq<string>, b: seq<string>, slotOf: string -> int)
    ensures Listed(lists, a + b, slotOf) == Listed(Listed(lists, a, slotOf), b, slotOf)
    decreases |b|
  {
    if b == [] {
      AppendEmpty(a);
    } else {
      var b', k := b[..|b| - 1], b[|b| - 1];
      ListedAppend(lists, a, b', slotOf);
      AppendSnoc(a, b);
      LastSplit(b);
      ListedStep(lists, a + b', k, slotOf);
      ListedStep(Listed(lists, a, slotOf), b', k, slotOf);
    }
  }

  /** The `for key in keys` loop over one batch (lines 71-76): each key is
      decoded, hashed, counted and listed, until one fails to decode, which
      raises out of the loop. */
  method ScanBatch(counts: map<int, int>, lists: map<int, seq<string>>, batch: seq<seq<byte>>,
                   decode: seq<byte> -> Option<string>, slotOf: string -> int)
    returns (counts': map<int, int>, lists': map<int, seq<string>>, raised: bool)
    ensures counts' == Tally(counts, DecodeKeys(batch, decode).0, slotOf)
    ensures lists' == Listed(lists, DecodeKeys(batch, decode).0, slotOf)
    ensures raised == !DecodeKeys(batch, decode).1
  {
    counts', lists' := counts, lists;
    ghost var keys: seq<string> := [];
    var j := 0;
    while j < |batch|
      invariant 0 <= j <= |batch|
      invariant DecodeKeys(batch[..j], decode) == (keys, true)
      invariant counts' == Tally(counts, keys, slotOf) && lists' == Listed(lists, keys, slotOf)
    {
      var decoded := decode(batch[j]);
      DecodeKeysNext(batch, j, keys, decode);
      if decoded.None? {
        raised := true;
        return;
      }
      var key := decoded.value;
      var slot := slotOf(key);
      counts' := Inc(counts', slot);
      lists' := Append(lists', slot, key);
      TallyStep(counts, keys, key, slotOf);
      ListedStep(lists, keys, key, slotOf);
      keys := keys + [key];
      j := j + 1;
    }
    PrefixAll(batch);
    raised := false;
  }

  /** The `try` body of the census for one master (lines 69-78): the SCAN
      loop, batch after batch, until the last batch or until a key of one
      of them fails to decode. */
  method ScanMaster(counts: map<int, int>, lists: map<int, seq<string>>, o: ScanOutcome,
                    decode: seq<byte> -> Option<string>, slotOf: string -> int)
    returns (counts': map<int, int>, lists': map<int, seq<string>>, raised: bool)
    ensures counts' == Tally(counts, Contribution(o, decode), slotOf)
    ensures lists' == Listed(lists, Contribution(o, decode), slotOf)
    ensures raised == ScanRaises(o, decode)
  {
    counts', lists' := counts, lists;
    ghost var keys: seq<string> := [];
    var b := 0;
    while b < |o.batches|
      invariant 0 <= b <= |o.batches|
      invariant DecodeKeys(Flatten(o.batches[..b]), decode) == (keys, true)
      invariant counts' == Tally(counts, keys, slotOf) && lists' == Listed(lists, keys, slotOf)
    {
      var batch := o.batches[b];
      counts', lists', raised := ScanBatch(counts', lists', batch, decode, slotOf);
      TallyAppend(counts, keys, DecodeKeys(batch, decode).0, slotOf);
      ListedAppend(lists, keys, DecodeKeys(batch, decode).0, slotOf);
      DecodeBatchesStep(o.batches, b, keys, decode);
      keys := keys + DecodeKeys(batch, decode).0;
      if raised {
        DecodeBatchesStopped(o.batches, b, decode);
        return;
      }
      b := b + 1;
    }
    PrefixAll(o.batches);
    raised := o.raises;
  }

  lemma ScannedStep(order: seq<string>, endpoints: map<string, Endpoint>, respond: Endpoint -> ScanOutcome,
                    decode: seq<byte> -> Option<string>, i: nat)
    requires Addressed(order, endpoints) && i < |order|
    ensures Addressed(order[..i], endpoints) && Addressed(order[..i + 1], endpoints)
    ensures Scanned(order[..i + 1], endpoints, respond, decode) ==
      Scanned(order[..i], endpoints, respond, decode) + Contribution(respond(endpoints[order[i]]), decode)
    ensures Failed(order[..i + 1], endpoints, respond, decode) ==
      Failed(order[..i], endpoints, respond, decode) +
      if ScanRaises(respond(endpoints[order[i]]), decode) then [order[i]] else []
  {
    PrefixSnoc(order, i);
    SnocDropLast(order[..i], order[i]);
  }

  /** Every master id in the dict's order has an address. */
  lemma ValidAddressed(masters: MasterMap)
    requires masters.Valid()
    ensures Addressed(masters.order, masters.endpoints)
  {
    forall i | 0 <= i < |masters.order|
      ensures masters.order[i] in masters.endpoints
    {
      assert masters.order[i] in masters.order;
    }
  }

  /** The census loop of the script (lines 56-80): the masters are scanned
      in `master_map`'s order, starting from empty counters; the counters
      and lists end up holding exactly the keys the scans contributed, and
      `failed` names the masters whose scan raised. */
  method RunCensus(masters: MasterMap, respond: Endpoint -> ScanOutcome,
                   decode: seq<byte> -> Option<string>, slotOf: string -> int)
    returns (counts: map<int, int>, lists: map<int, seq<string>>, failed: seq<string>)
    requires masters.Valid()
    ensures Addressed(masters.order, masters.endpoints)
    ensures counts == Tally(map[], Scanned(masters.order, masters.endpoints, respond, decode), slotOf)
    ensures lists == Listed(map[], Scanned(masters.order, masters.endpoints, respond, decode), slotOf)
    ensures failed == Failed(masters.order, masters.endpoints, respond, decode)
  {
    var order, endpoints := masters.order, masters.endpoints;
    ValidAddressed(masters);
    counts, lists, failed := map[], map[], [];
    var i := 0;
    while i < |order|
      invariant 0 <= i <= |order|
      invariant Addressed(order[..i], endpoints)
      invariant counts == Tally(map[], Scanned(order[..i], endpoints, respond, decode), slotOf)
      invariant lists == Listed(map[], Scanned(order[..i], endpoints, respond, decode), slotOf)
      invariant failed == Failed(order[..i], endpoints, respond, decode)
    {
      var id := order[i];
      var ep := endpoints[id];
      var raised;
      counts, lists, raised := ScanMaster(counts, lists, respond(ep), decode, slotOf);
      if raised {
        failed := failed + [id];
      }
      ScannedStep(order, endpoints, respond, decode, i);
      TallyAppend(map[], Scanned(order[..i], endpoints, respond, decode), Contribution(respond(ep), decode), slotOf);
      ListedAppend(map[], Scanned(order[..i], endpoints, respond, decode), Contribution(respond(ep), decode), slotOf);
      i := i + 1;
    }
    PrefixAll(order);
  }

  /** Each slot's counter ends up raised by the number of processed keys
      that hash to it, repeats included. */
  lemma {:induction false} TallyCountsSlotKeys(counts: map<int, int>, keys: seq<string>, slotOf: string -> int, slot: int)
    ensures Get(Tally(counts, keys, slotOf), slot) == Get(counts, slot) + |SlotKeys(keys, slotOf, slot)|
  {
    if keys != [] {
      TallyCountsSlotKeys(counts, keys[..|keys| - 1], slotOf, slot);
    }
  }

  /** Each slot's list ends up extended by the processed keys that hash to
      it, in the order they were processed. */
  lemma {:induction false} ListedListsSlotKeys(lists: map<int, seq<string>>, keys: seq<string>, slotOf: string -> int, slot: int)
    ensures GetList(Listed(lists, keys, slotOf), slot) == GetList(lists, slot) + SlotKeys(keys, slotOf, slot)
  {
    if keys != [] {
      var keys', k := keys[..|keys| - 1], keys[|keys| - 1];
      ListedListsSlotKeys(lists, keys', slotOf, slot);
      AppendAssoc(GetList(lists, slot), SlotKeys(keys', slotOf, slot), [k]);
    }
  }

  /** `key_slot_map` and `slot_key_counts` agree: starting from empty
      dicts, each slot's list is as long as its counter. */
  lemma ListsAgreeWithCounts(keys: seq<string>, slotOf: string -> int, slot: int)
    ensures |GetList(Listed(map[], keys, slotOf), slot)| == Get(Tally(map[], keys, slotOf), slot)
  {
    TallyCountsSlotKeys(map[], keys, slotOf, slot);
    ListedListsSlotKeys(map[], keys, slotOf, slot);
  }

  /** A key that is scanned twice is counted twice: there is no
      deduplication. */
  lemma RepeatedKeyCountedAgain(counts: map<int, int>, keys: seq<string>, key: string, slotOf: string -> int)
    ensures Get(Tally(counts, keys + [key, key], slotOf), slotOf(key)) == Get(Tally(counts, keys, slotOf), slotOf(key)) + 2
  {
    TallyAppend(counts, keys, [key, key], slotOf);
    TallyStep(Tally(counts, keys, slotOf), [key], key, slotOf);
    assert [key] + [key] == [key, key];
    TallyStep(Tally(counts, keys, slotOf), [], key, slotOf);
    assert [] + [key] == [key];
  }

  lemma AddressedAppend(a: seq<string>, b: seq<string>, endpoints: map<string, Endpoint>)
    requires Addressed(a, endpoints) && Addressed(b, endpoints)
    ensures Addressed(a + b, endpoints)
  {
    forall i | 0 <= i < |a + b|
      ensures (a + b)[i] in endpoints
    {
      if i >= |a| {
        assert (a + b)[i] == b[i - |a|];
      }
    }
  }

  lemma AddressedPrefix(order: seq<string>, n: nat, endpoints: map<string, Endpoint>)
    requires Addressed(order, endpoints) && n <= |order|
    ensures Addressed(order[..n], endpoints)
  {
    forall i | 0 <= i < n
      ensures order[..n][i] in endpoints
    {
      assert order[..n][i] == order[i];
    }
  }

  lemma ScannedSnoc(order: seq<string>, id: string, endpoints: map<string, Endpoint>,
                    respond: Endpoint -> ScanOutcome, decode: seq<byte> -> Option<string>)
    requires Addressed(order, endpoints) && id in endpoints
    ensures Addressed(order + [id], endpoints)
    ensures Scanned(order + [id], endpoints, respond, decode) ==
      Scanned(order, endpoints, respond, decode) + Contribution(respond(endpoints[id]), decode)
  {
    AddressedAppend(order, [id], endpoints);
    SnocDropLast(order, id);
  }

  /** Scanning two runs of masters one after the other is scanning their
      concatenation. */
  lemma {:induction false} ScannedAppend(a: seq<string>, b: seq<string>, endpoints: map<string, Endpoint>,
                                         respond: Endpoint -> ScanOutcome, decode: seq<byte> -> Option<string>)
    requires Addressed(a, endpoints) && Addressed(b, endpoints)
    ensures Addressed(a + b, endpoints)
    ensures Scanned(a + b, endpoints, respond, decode) ==
      Scanned(a, endpoints, respond, decode) + Scanned(b, endpoints, respond, decode)
    decreases |b|
  {
    AddressedAppend(a, b, endpoints);
    if b == [] {
      AppendEmpty(a);
      AppendEmpty(Scanned(a, endpoints, respond, decode));
    } else {
      var b', id := b[..|b| - 1], b[|b| - 1];
      LastSplit(b);
      AddressedPrefix(b, |b| - 1, endpoints);
      ScannedAppend(a, b', endpoints, respond, decode);
      AppendSnoc(a, b);
      ScannedSnoc(a + b', id, endpoints, respond, decode);
      ScannedSnoc(b', id, endpoints, respond, decode);
      AppendAssoc(Scanned(a, endpoints, respond, decode), Scanned(b', endpoints, respond, decode),
                  Contribution(respond(endpoints[id]), decode));
    }
  }

  /** The census of a list of masters depends only on what those masters
      return. */
  lemma {:induction false} ScannedAgree(order: seq<string>, endpoints: map<string, Endpoint>,
                                        respond: Endpoint -> ScanOutcome, respond': Endpoint -> ScanOutcome,
                                        decode: seq<byte> -> Option<string>)
    requires Addressed(order, endpoints)
    requires forall i :: 0 <= i < |order| ==> respond(endpoints[order[i]]) == respond'(endpoints[order[i]])
    ensures Scanned(order, endpoints, respond, decode) == Scanned(order, endpoints, respond', decode)
  {
    if order != [] {
      ScannedAgree(order[..|order| - 1], endpoints, respond, respond', decode);
    }
  }

  /** The census of `before`, then `id`, then `after`: the three
      contributions one after the other. */
  lemma ScannedAround(before: seq<string>, id: string, after: seq<string>, endpoints: map<string, Endpoint>,
                      respond: Endpoint -> ScanOutcome, decode: seq<byte> -> Option<string>)
    requires Addressed(before, endpoints) && id in endpoints && Addressed(after, endpoints)
    ensures Addressed(before + [id] + after, endpoints)
    ensures Scanned(before + [id] + after, endpoints, respond, decode) ==
      Scanned(before, endpoints, respond, decode) + Contribution(respond(endpoints[id]), decode) +
      Scanned(after, endpoints, respond, decode)
  {
    ScannedSnoc(before, id, endpoints, respond, decode);
    ScannedAppend(before + [id], after, endpoints, respond, decode);
  }

  /** A slot's counter after three runs of keys is its counter after the
      first run plus the keys of the other two that hash to it. */
  lemma CountAround(pre: seq<string>, mine: seq<string>, post: seq<string>, slotOf: string -> int, slot: int)
    ensures Get(Tally(map[], pre + mine + post, slotOf), slot) ==
      Get(Tally(map[], pre, slotOf), slot) + |SlotKeys(mine, slotOf, slot)| + |SlotKeys(post, slotOf, slot)|
  {
    TallyAppend(map[], pre + mine, post, slotOf);
    TallyAppend(map[], pre, mine, slotOf);
    TallyCountsSlotKeys(Tally(Tally(map[], pre, slotOf), mine, slotOf), post, slotOf, slot);
    TallyCountsSlotKeys(Tally(map[], pre, slotOf), mine, slotOf, slot);
  }

  /** Failure isolation: whatever one master's scan does (complete, raise
      part way, or never connect), the counts the other masters contribute
      are the same, so every slot's counter differs only by the keys that
      master itself contributed. */
  lemma FailureIsolation(before: seq<string>, id: string, after: seq<string>, endpoints: map<string, Endpoint>,
                         respond: Endpoint -> ScanOutcome, respond': Endpoint -> ScanOutcome,
                         decode: seq<byte> -> Option<string>, slotOf: string -> int, slot: int)
    requires Addressed(before, endpoints) && id in endpoints && Addressed(after, endpoints)
    requires forall i :: 0 <= i < |before| ==> respond(endpoints[before[i]]) == respond'(endpoints[before[i]])
    requires forall i :: 0 <= i < |after| ==> respond(endpoints[after[i]]) == respond'(endpoints[after[i]])
    ensures Addressed(before + [id] + after, endpoints)
    ensures Get(Tally(map[], Scanned(before + [id] + after, endpoints, respond, decode), slotOf), slot)
              - |SlotKeys(Contribution(respond(endpoints[id]), decode), slotOf, slot)|
         == Get(Tally(map[], Scanned(before + [id] + after, endpoints, respond', decode), slotOf), slot)
              - |SlotKeys(Contribution(respond'(endpoints[id]), decode), slotOf, slot)|
  {
    ScannedAround(before, id, after, endpoints, respond, decode);
    ScannedAround(before, id, after, endpoints, respond', decode);
    ScannedAgree(before, endpoints, respond, respond', decode);
    ScannedAgree(after, endpoints, respond, respond', decode);
    var pre, post := Scanned(before, endpoints, respond, decode), Scanned(after, endpoints, respond, decode);
    CountAround(pre, Contribution(respond(endpoints[id]), decode), post, slotOf, slot);
    CountAround(pre, Contribution(respond'(endpoints[id]), decode), post, slotOf, slot);
  }

  /** A scan that raises after some batches has counted a prefix of what a
      scan that went on to further batches would count: it undercounts and
      never overcounts. */
  lemma PartialScanCountsPrefix(batches: seq<seq<seq<byte>>>, more: seq<seq<seq<byte>>>, raises: bool,
                                decode: seq<byte> -> Option<string>)
    ensures Contribution(ScanOutcome(batches, true), decode) <= Contribution(ScanOutcome(batches + more, raises), decode)
  {
    FlattenAppend(batches, more);
    DecodeKeysPrefix(Flatten(batches), Flatten(more), decode);
  }

  /** A master is reported as failed exactly when its scan raised. */
  lemma {:induction false} FailedIffRaises(order: seq<string>, endpoints: map<string, Endpoint>,
                                           respond: Endpoint -> ScanOutcome, decode: seq<byte> -> Option<string>,
                                           id: string)
    requires Addressed(order, endpoints)
    ensures id in Failed(order, endpoints, respond, decode) <==> id in order && ScanRaises(respond(endpoints[id]), decode)
  {
    if order != [] {
      var order' := order[..|order| - 1];
      FailedIffRaises(order', endpoints, respond, decode, id);
      LastSplit(order);
    }
  }
}
