// The whole audit of check-shard-slots.py after connecting (lines 45-87):
// read the topology, scan every master, and report each slot range with
// the number of keys that hash into it.

module Audit {
  import opened Utf8
  import opened SlotHasher
  import opened Topology
  import opened Census
  import opened Report

  /** The keys the census counts for a topology: every master's
      contribution, the masters taken in `master_map`'s order. */
  ghost function CountedKeys(entries: seq<TopologyEntry>, respond: Endpoint -> ScanOutcome): seq<string> {
    var masters := Masters(entries, |entries|, EntryId);
    MastersValid(entries, |entries|, EntryId);
    ValidAddressed(masters);
    Scanned(masters.order, masters.endpoints, respond, Decode)
  }

  /** The masters whose scan raised, in `master_map`'s order: the masters
      the script prints an error line for, in the order it prints them. */
  ghost function FailedMasters(entries: seq<TopologyEntry>, respond: Endpoint -> ScanOutcome): seq<string> {
    var masters := Masters(entries, |entries|, EntryId);
    MastersValid(entries, |entries|, EntryId);
    ValidAddressed(masters);
    Failed(masters.order, masters.endpoints, respond, Decode)
  }

  /** The sum of the `keys_in_range` column. */
  function ReportedKeys(rows: seq<RangeRow>): int {
    if rows == [] then 0 else ReportedKeys(rows[..|rows| - 1]) + rows[|rows| - 1].keysInRange
  }

  lemma {:induction false} ReportedKeysOfRanges(rows: seq<RangeRow>, ranges: seq<SlotRange>, counts: map<int, int>)
    requires |rows| == |ranges|
    requires forall i :: 0 <= i < |ranges| ==>
      rows[i].keysInRange == SumCounts(counts, ranges[i].slotStart, ranges[i].slotEnd)
    ensures ReportedKeys(rows) == RangesTotal(ranges, counts)
  {
    if rows != [] {
      ReportedKeysOfRanges(rows[..|rows| - 1], ranges[..|ranges| - 1], counts);
    }
  }

  /** Each row's `keys_in_range` is the number of counted keys whose slot
      lies in the row's range. */
  lemma RowsCountKeys(rows: seq<RangeRow>, ranges: seq<SlotRange>, keys: seq<string>, slotOf: string -> int)
    requires |rows| == |ranges|
    requires forall i :: 0 <= i < |ranges| ==>
      rows[i].keysInRange == SumCounts(Tally(map[], keys, slotOf), ranges[i].slotStart, ranges[i].slotEnd)
    ensures forall i :: 0 <= i < |ranges| ==>
      rows[i].keysInRange == |KeysInRange(keys, slotOf, ranges[i].slotStart, ranges[i].slotEnd)|
  {
    forall i | 0 <= i < |ranges|
      ensures rows[i].keysInRange == |KeysInRange(keys, slotOf, ranges[i].slotStart, ranges[i].slotEnd)|
    {
      SumCountsCountsKeys(keys, slotOf, ranges[i].slotStart, ranges[i].slotEnd);
    }
  }

  /** When the ranges partition the slot space, the rows together report
      every counted key exactly once. */
  lemma RowsReportEveryKey(rows: seq<RangeRow>, ranges: seq<SlotRange>, keys: seq<string>, slotOf: string -> int)
    requires forall k :: 0 <= slotOf(k) < SlotCount
    requires Partitions(ranges) && |rows| == |ranges|
    requires forall i :: 0 <= i < |ranges| ==>
      rows[i].keysInRange == SumCounts(Tally(map[], keys, slotOf), ranges[i].slotStart, ranges[i].slotEnd)
    ensures ReportedKeys(rows) == |keys|
  {
    var counts := Tally(map[], keys, slotOf);
    ReportedKeysOfRanges(rows, ranges, counts);
    PartitionTotal(ranges, counts);
    TotalCountIsKeyCount(keys, slotOf);
  }

  /** The script from the topology call to the last printed row: one row
      per topology entry, in reply order, each reporting its range, its
      number of slots and the number of counted keys whose slot lies in
      it; `failed` lists the masters whose scan raised. When the ranges
      partition the slot space, the rows together report every counted key
      exactly once. `failed` is exactly the list of masters whose error line
      is printed, in the order they are printed. */
  method RunAudit(entries: seq<TopologyEntry>, respond: Endpoint -> ScanOutcome)
    returns (rows: seq<RangeRow>, failed: seq<string>)
    ensures |rows| == |entries|
    ensures forall i :: 0 <= i < |entries| ==>
      rows[i].slotStart == entries[i].slotStart && rows[i].slotEnd == entries[i].slotEnd &&
      rows[i].numSlots == entries[i].slotEnd - entries[i].slotStart + 1 &&
      rows[i].masterId == EntryId(entries[i]) &&
      rows[i].keysInRange == |KeysInRange(CountedKeys(entries, respond), KeySlot, entries[i].slotStart, entries[i].slotEnd)|
    ensures failed == FailedMasters(entries, respond)
    ensures forall id :: id in failed <==>
      id in Masters(entries, |entries|, EntryId).endpoints &&
      ScanRaises(respond(Masters(entries, |entries|, EntryId).endpoints[id]), Decode)
    ensures Partitions(Ranges(entries, |entries|, EntryId)) ==> ReportedKeys(rows) == |CountedKeys(entries, respond)|
  {
    var ranges, masters := ParseTopology(entries);
    RangesOfEntries(entries, |entries|, EntryId);
    var counts, lists;
    counts, lists, failed := RunCensus(masters, respond, Decode, KeySlot);
    rows := Reconcile(ranges, counts);
    ghost var keys := CountedKeys(entries, respond);
    RowsCountKeys(rows, ranges, keys, KeySlot);
    forall id
      ensures id in failed <==> id in masters.endpoints && ScanRaises(respond(masters.endpoints[id]), Decode)
    {
      FailedIffRaises(masters.order, masters.endpoints, respond, Decode, id);
    }
    if Partitions(ranges) {
      assert forall k :: 0 <= KeySlot(k) < SlotCount;
      RowsReportEveryKey(rows, ranges, keys, KeySlot);
    }
  }
}
