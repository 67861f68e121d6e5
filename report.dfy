// The report of check-shard-slots.py (lines 82-87): for every slot range
// of the topology, in topology order, the number of slots it spans and the
// number of counted keys that hash into it.

module Report {
  import opened SlotHasher
  import opened Topology
  import opened Census
  import opened Seqs

  /** One printed row: the range, `slot_end - slot_start + 1`,
      `keys_in_range` and the master id. */
  datatype RangeRow = RangeRow(slotStart: int, slotEnd: int, numSlots: int, keysInRange: int, masterId: string)

  /** `sum(counts.get(slot, 0) for slot in range(lo, hi + 1))`: zero when
      the range is empty. */
  function SumCounts(counts: map<int, int>, lo: int, hi: int): int
    decreases hi - lo
  {
    if hi < lo then 0 else SumCounts(counts, lo, hi - 1) + Get(counts, hi)
  }

  /** The reconciliation loop (lines 83-87): one row per range, in the
      order of the ranges, each summing the counters of its slots from
      first to last. */
  method Reconcile(ranges: seq<SlotRange>, counts: map<int, int>) returns (rows: seq<RangeRow>)
    ensures |rows| == |ranges|
    ensures forall i :: 0 <= i < |ranges| ==>
      rows[i] == RangeRow(ranges[i].slotStart, ranges[i].slotEnd, ranges[i].slotEnd - ranges[i].slotStart + 1,
                          SumCounts(counts, ranges[i].slotStart, ranges[i].slotEnd), ranges[i].masterId)
  {
    rows := [];
    for i := 0 to |ranges|
      invariant |rows| == i
      invariant forall k :: 0 <= k < i ==>
        rows[k] == RangeRow(ranges[k].slotStart, ranges[k].slotEnd, ranges[k].slotEnd - ranges[k].slotStart + 1,
                            SumCounts(counts, ranges[k].slotStart, ranges[k].slotEnd), ranges[k].masterId)
    {
      var r := ranges[i];
      var keysInRange := 0;
      var slot := r.slotStart;
      while slot <= r.slotEnd
        invariant slot == r.slotStart || r.slotStart < slot <= r.slotEnd + 1
        invariant keysInRange == SumCounts(counts, r.slotStart, slot - 1)
        decreases r.slotEnd - slot
      {
        keysInRange := keysInRange + Get(counts, slot);
        slot := slot + 1;
      }
      rows := rows + [RangeRow(r.slotStart, r.slotEnd, r.slotEnd - r.slotStart + 1, keysInRange, r.masterId)];
    }
  }

  /** The keys among `keys` whose slot lies in `lo..hi`, in order. */
  function KeysInRange(keys: seq<string>, slotOf: string -> int, lo: int, hi: int): (r: seq<string>)
    ensures |r| <= |keys|
    ensures forall i :: 0 <= i < |r| ==> lo <= slotOf(r[i]) <= hi
    ensures forall k {:trigger multiset(r)[k]} :: multiset(r)[k] == if lo <= slotOf(k) <= hi then multiset(keys)[k] else 0
  {
    if keys == [] then []
    else
      var k := keys[|keys| - 1];
      LastSplit(keys);
      KeysInRange(keys[..|keys| - 1], slotOf, lo, hi) + if lo <= slotOf(k) <= hi then [k] else []
  }

  /** Counting one more key raises the sum over a range by one exactly
      when the key's slot is in the range. */
  lemma {:induction false} SumCountsInc(counts: map<int, int>, slot: int, lo: int, hi: int)
    ensures SumCounts(Inc(counts, slot), lo, hi) == SumCounts(counts, lo, hi) + if lo <= slot <= hi then 1 else 0
    decreases hi - lo
  {
    if lo <= hi {
      SumCountsInc(counts, slot, lo, hi - 1);
    }
  }

  /** Before any key is counted, every range sums to zero. */
  lemma {:induction false} SumCountsNone(lo: int, hi: int)
    ensures SumCounts(map[], lo, hi) == 0
    decreases hi - lo
  {
    if lo <= hi {
      SumCountsNone(lo, hi - 1);
    }
  }

  lemma KeysInRangeSnoc(keys: seq<string>, k: string, slotOf: string -> int, lo: int, hi: int)
    ensures KeysInRange(keys + [k], slotOf, lo, hi) == KeysInRange(keys, slotOf, lo, hi) + if lo <= slotOf(k) <= hi then [k] else []
  {
    assert (keys + [k])[..|keys|] == keys;
  }

  /** `keys_in_range` is the number of processed keys whose slot lies in
      the range, repeats included. */
  lemma {:induction false} SumCountsCountsKeys(keys: seq<string>, slotOf: string -> int, lo: int, hi: int)
    ensures SumCounts(Tally(map[], keys, slotOf), lo, hi) == |KeysInRange(keys, slotOf, lo, hi)|
  {
    if keys == [] {
      SumCountsNone(lo, hi);
    } else {
      var keys', k := keys[..|keys| - 1], keys[|keys| - 1];
      SumCountsCountsKeys(keys', slotOf, lo, hi);
      assert keys == keys' + [k];
      TallyStep(map[], keys', k, slotOf);
      SumCountsInc(Tally(map[], keys', slotOf), slotOf(k), lo, hi);
      KeysInRangeSnoc(keys', k, slotOf, lo, hi);
    }
  }

  /** When every key has a slot in `0..16383`, as `KeySlot` guarantees, no
      key falls outside the full range. */
  lemma {:induction false} AllKeysInFullRange(keys: seq<string>, slotOf: string -> int)
    requires forall k :: 0 <= slotOf(k) < SlotCount
    ensures KeysInRange(keys, slotOf, 0, SlotCount - 1) == keys
  {
    if keys != [] {
      var keys', k := keys[..|keys| - 1], keys[|keys| - 1];
      AllKeysInFullRange(keys', slotOf);
      assert keys == keys' + [k];
      KeysInRangeSnoc(keys', k, slotOf, 0, SlotCount - 1);
    }
  }

  /** The counters over all slots add up to the number of keys processed:
      every key is counted once, in exactly one slot. */
  lemma TotalCountIsKeyCount(keys: seq<string>, slotOf: string -> int)
    requires forall k :: 0 <= slotOf(k) < SlotCount
    ensures SumCounts(Tally(map[], keys, slotOf), 0, SlotCount - 1) == |keys|
  {
    SumCountsCountsKeys(keys, slotOf, 0, SlotCount - 1);
    AllKeysInFullRange(keys, slotOf);
  }

  /** A range's sum splits at any slot inside it. */
  lemma {:induction false} SumCountsSplit(counts: map<int, int>, lo: int, mid: int, hi: int)
    requires lo - 1 <= mid <= hi
    ensures SumCounts(counts, lo, hi) == SumCounts(counts, lo, mid) + SumCounts(counts, mid + 1, hi)
    decreases hi - mid
  {
    if mid < hi {
      SumCountsSplit(counts, lo, mid, hi - 1);
    }
  }

  /** How many of the ranges contain `slot`. */
  function Cover(ranges: seq<SlotRange>, slot: int): nat {
    if ranges == [] then 0
    else
      var r := ranges[|ranges| - 1];
      Cover(ranges[..|ranges| - 1], slot) + if r.slotStart <= slot <= r.slotEnd then 1 else 0
  }

  /** The ranges of the reply lie within the slot space and cover each slot
      exactly once, as in a cluster whose slots are all assigned. */
  ghost predicate Partitions(ranges: seq<SlotRange>) {
    (forall i :: 0 <= i < |ranges| ==> 0 <= ranges[i].slotStart && ranges[i].slotEnd < SlotCount) &&
    (forall slot :: 0 <= slot < SlotCount ==> Cover(ranges, slot) == 1)
  }

  /** The sum of `keys_in_range` over the ranges. */
  function RangesTotal(ranges: seq<SlotRange>, counts: map<int, int>): int {
    if ranges == [] then 0
    else
      var r := ranges[|ranges| - 1];
      RangesTotal(ranges[..|ranges| - 1], counts) + SumCounts(counts, r.slotStart, r.slotEnd)
  }

  /** The sum over slots `lo..hi` of each slot's counter times the number
      of ranges that contain it. */
  function Weighted(counts: map<int, int>, ranges: seq<SlotRange>, lo: int, hi: int): int
    decreases hi - lo
  {
    if hi < lo then 0 else Weighted(counts, ranges, lo, hi - 1) + Get(counts, hi) * Cover(ranges, hi)
  }

  function Max(a: int, b: int): int { if a < b then b else a }
  function Min(a: int, b: int): int { if a < b then a else b }

  /** One more range adds its own part of `lo..hi` to the weighted sum. */
  lemma {:induction false} WeightedSnoc(counts: map<int, int>, ranges: seq<SlotRange>, r: SlotRange, lo: int, hi: int)
    ensures Weighted(counts, ranges + [r], lo, hi) ==
      Weighted(counts, ranges, lo, hi) + SumCounts(counts, Max(lo, r.slotStart), Min(hi, r.slotEnd))
    decreases hi - lo
  {
    assert (ranges + [r])[..|ranges|] == ranges;
    if lo <= hi {
      WeightedSnoc(counts, ranges, r, lo, hi - 1);
      var g, c := Get(counts, hi), Cover(ranges, hi);
      var a := Max(lo, r.slotStart);
      if r.slotStart <= hi <= r.slotEnd {
        assert g * (c + 1) == g * c + g;
        assert Min(hi, r.slotEnd) == hi;
        if a <= hi - 1 {
          assert Min(hi - 1, r.slotEnd) == hi - 1;
        } else {
          assert a == hi;
        }
      } else if hi < r.slotStart {
        assert a > hi;
      } else {
        assert Min(hi, r.slotEnd) == Min(hi - 1, r.slotEnd);
      }
    }
  }

  /** Summing the ranges' counts is summing each slot's counter as many
      times as ranges contain it. */
  lemma {:induction false} RangesTotalWeighted(ranges: seq<SlotRange>, counts: map<int, int>)
    requires forall i :: 0 <= i < |ranges| ==> 0 <= ranges[i].slotStart && ranges[i].slotEnd < SlotCount
    ensures RangesTotal(ranges, counts) == Weighted(counts, ranges, 0, SlotCount - 1)
  {
    if ranges == [] {
      WeightedEmpty(counts, 0, SlotCount - 1);
    } else {
      var ranges', r := ranges[..|ranges| - 1], ranges[|ranges| - 1];
      RangesTotalWeighted(ranges', counts);
      assert ranges == ranges' + [r];
      WeightedSnoc(counts, ranges', r, 0, SlotCount - 1);
    }
  }

  lemma {:induction false} WeightedEmpty(counts: map<int, int>, lo: int, hi: int)
    ensures Weighted(counts, [], lo, hi) == 0
    decreases hi - lo
  {
    if lo <= hi {
      WeightedEmpty(counts, lo, hi - 1);
    }
  }

  /** Where every slot is covered once, the weighted sum is the plain sum. */
  lemma {:induction false} WeightedOnce(counts: map<int, int>, ranges: seq<SlotRange>, lo: int, hi: int)
    requires forall slot :: lo <= slot <= hi ==> Cover(ranges, slot) == 1
    ensures Weighted(counts, ranges, lo, hi) == SumCounts(counts, lo, hi)
    decreases hi - lo
  {
    if lo <= hi {
      WeightedOnce(counts, ranges, lo, hi - 1);
    }
  }

  /** When the ranges partition the slot space, the rows' key counts add
      up to the counters' total: each counted key is reported in exactly
      one row. */
  lemma PartitionTotal(ranges: seq<SlotRange>, counts: map<int, int>)
    requires Partitions(ranges)
    ensures RangesTotal(ranges, counts) == SumCounts(counts, 0, SlotCount - 1)
  {
    RangesTotalWeighted(ranges, counts);
    WeightedOnce(counts, ranges, 0, SlotCount - 1);
  }
}
