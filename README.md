# check-shard-slots in Dafny

`check-shard-slots.py` audits how the keys of a Redis Cluster spread over
the cluster's hash slots. It reads the cluster topology with `CLUSTER
SLOTS`, scans every master with `SCAN`, hashes each key to its slot
(CRC-16/XMODEM of the key or of its `{hash tag}`, modulo 16384), counts the
keys per slot, and prints one row per slot range. Each row gives the
range's number of slots, the number of keys whose slot lies in it, and the
master serving it. If scanning a master raises, the script reports it and
moves on to the next master; the keys counted before the failure stay
counted.

The model follows that pipeline module by module:

- `Utf8`: `str.encode('utf-8')` and the strict `bytes.decode()` the script
  applies to every scanned key, with their round trips.
- `Crc16`: `binascii.crc_hqx(data, 0)`, written bit by bit as the CRC
  definition states it. The standard check value and the zero-residue
  property are proved about it.
- `SlotHasher`: `key_slot`, including the hash-tag rule and its edge cases
  (empty tag, unclosed brace, key without brace).
- `Topology`: the loop over the `CLUSTER SLOTS` reply. It builds
  `slot_ranges`, a list, and `master_map`, a dict whose insertion order is
  modelled explicitly.
- `Census`: the scan loop over `master_map`. It updates the two defaultdicts
  `slot_key_counts` and `key_slot_map` and isolates failures per master.
- `Report`: the final loop, which sums the counts of each range.
- `Audit`: the whole script after connecting, tied together end to end.

The imperative loops of the script are methods with loops
(`Topology.ParseTopology`, `Census.ScanBatch`, `Census.ScanMaster`,
`Census.RunCensus`, `Report.Reconcile`, `Audit.RunAudit`). Each is proved
against a specification function defined by recursion over the input
(`Ranges`, `Masters`, `Tally`, `Listed`, `Scanned`, `Failed`, `SumCounts`).
The lemmas beside those functions state what the script promises about
them. Census and the topology specification are written against the
functions they are given:

- the key decoder `decode`, which is `key.decode()` in the script;
- the slot function `slotOf`, which is `key_slot` in the script;
- the id function `idOf`, which is `f"{ip}:{port}"` in the script.

Their facts therefore hold for every such function. `Audit.RunAudit` passes
the script's own: `Utf8.Decode`, `SlotHasher.KeySlot` and
`Topology.EntryId`.

The responses of the cluster are inputs. The topology is a sequence of
`TopologyEntry` values, and each master's `SCAN` loop is the `ScanOutcome`
that `respond` gives for its address. A `ScanOutcome` holds the key batches
the loop receives and whether a call raised after the last of them.

Behaviour of the code that the model keeps: `key.decode()` sits inside the
`try`. A key that is not valid UTF-8 therefore raises and ends the scan of
its master at that key. Keys decoded before it stay counted, and that
master's later keys are not counted. The model does exactly this
(`Census.DecodeKeys`, `Census.ScanRaises`); it does not skip the bad key
and go on.

## Model

| member | source | states |
|---|---|---|
| SlotHasher.Find | check-shard-slots.py:14-15 | `str.find`: -1 exactly when the character does not occur from `from` on; otherwise the index of its first occurrence there |
| SlotHasher.KeySlot | check-shard-slots.py:10-20 | every key's slot lies in [0, 16383] |
| SlotHasher.TagIsHashed | check-shard-slots.py:13-17 | a key whose first `{` is followed by a non-empty tag closed by `}` is hashed on the tag alone |
| SlotHasher.HashedPart | check-shard-slots.py:13-17 | the text `key_slot` hashes is either the whole key or a well-formed non-empty hash tag of it (`TagIsHashed` is the converse) |
| SlotHasher.EmptyTagHashesWholeKey | check-shard-slots.py:15-16 | `{}` (an empty tag right after the first `{`) makes the whole key hashed |
| SlotHasher.UnclosedBraceHashesWholeKey | check-shard-slots.py:13-16 | a `{` with no `}` after it makes the whole key hashed |
| SlotHasher.KeyWithoutBraceHashesItsBytes | check-shard-slots.py:13-20 | a key without `{` is hashed whole: its slot is the CRC of its UTF-8 bytes modulo 16384 |
| SlotHasher.SameTagSameSlot | check-shard-slots.py:13-20 | two keys with the same hash tag get the same slot |
| SlotHasher.UserProfileAndSessionsShareSlot | check-shard-slots.py:13-20 | `user:{42}:profile` and `user:{42}:sessions` share a slot |
| SlotHasher.EmptyKeyIsInSlotZero | check-shard-slots.py:18-20 | `key_slot("") == 0` |
| SlotHasher.DigitsKeySlot | check-shard-slots.py:18-20 | `key_slot("123456789") == 12739` (CRC 0x31C3 modulo 16384) |
| SlotHasher.DigitsChecksum | check-shard-slots.py:18-19 | the UTF-8 bytes of `"123456789"` have CRC 0x31C3 |
| Crc16.ShiftBit | check-shard-slots.py:19 | defines one step of the bitwise CRC register: shift left, XOR the polynomial 0x1021 when the top bit falls out (its meaning is stated by the lemmas below) |
| Crc16.UpdateByte | check-shard-slots.py:19 | defines feeding one byte: XOR it into the high byte, then eight register steps |
| Crc16.Update | check-shard-slots.py:19 | defines feeding bytes in order from a starting register; `UpdateAppend` states its composition law |
| Crc16.Checksum | check-shard-slots.py:19 | defines `binascii.crc_hqx(data, 0)`; `CheckValue` pins it to the published CRC-16/XMODEM check value and `FrameWithChecksumHasZeroChecksum` gives its zero residue |
| Crc16.UpdateAppend | check-shard-slots.py:19 | the CRC of `a + b` continues the CRC of `a` over `b` |
| Crc16.ShiftByteNoFeedback | check-shard-slots.py:19 | shifting a register whose high byte is clear eight times never feeds back the polynomial |
| Crc16.ResidueOfOwnChecksum | check-shard-slots.py:19 | feeding a register its own value big-endian leaves 0 |
| Crc16.FrameWithChecksumHasZeroChecksum | check-shard-slots.py:19 | data followed by its CRC (big-endian) has CRC 0 |
| Crc16.CheckValue | check-shard-slots.py:19 | the CRC of `"123456789"` is 0x31C3, the CRC-16/XMODEM check value |
| Utf8.EncodeChar | check-shard-slots.py:18 | a character encodes to 1-4 bytes, to one byte exactly when it is ASCII, and that byte is the character's code |
| Utf8.Encode | check-shard-slots.py:18 | `str.encode('utf-8')`: between one and four bytes per character; its exact meaning is given by the round trips with `Decode` below |
| Utf8.DecodeFirst | check-shard-slots.py:73 | the strict decoder of one character: when it accepts, it consumes 1-4 bytes, no more than there are |
| Utf8.Decode | check-shard-slots.py:73 | strict `bytes.decode()`: when it succeeds, the text has no more characters than the input has bytes; `None` is the `UnicodeDecodeError` |
| Utf8.DecodeFirstEncodeChar | check-shard-slots.py:73 | decoding the encoding of a character, whatever follows it, gives back the character and its length |
| Utf8.EncodeCharDecodeFirst | check-shard-slots.py:73 | a decoded character re-encodes to exactly the bytes it was decoded from |
| Utf8.DecodeEncode | check-shard-slots.py:73 | `s.encode().decode() == s` for every string |
| Utf8.EncodeDecode | check-shard-slots.py:73 | bytes that decode re-encode to themselves: `b.decode().encode() == b` |
| Utf8.EncodeAppend | check-shard-slots.py:18 | encoding distributes over concatenation |
| Utf8.EncodeAscii | check-shard-slots.py:18 | an ASCII string encodes to its own codes, one byte per character |
| Topology.MasterMap.Assign | check-shard-slots.py:54 | dict assignment: the value is replaced; a new key goes to the end of the iteration order, an existing key keeps its place |
| Topology.MasterMap.AssignValid | check-shard-slots.py:54 | assignment keeps the iteration order a repeat-free list of exactly the dict's keys |
| Topology.ParseIntToDecimal | check-shard-slots.py:52 | `int(str(port)) == port` for every integer |
| Topology.IntToDecimal | check-shard-slots.py:52 | `str(port)` as the f-string writes it: it never holds a `:`, and `ParseIntToDecimal` reads it back |
| Topology.MasterId | check-shard-slots.py:52 | defines `f"{master_ip}:{master_port}"`; `MasterIdInjective` states that it names addresses one-to-one |
| Topology.EntryId | check-shard-slots.py:52 | defines `master_id` of a reply entry as `MasterId` of its IP and port |
| Topology.MasterIdInjective | check-shard-slots.py:52 | distinct `(ip, port)` pairs give distinct `"ip:port"` ids |
| Topology.EntryIdsDetermineEndpoints | check-shard-slots.py:51-54 | entries with the same master id have the same address, so no later entry overwrites another master's address |
| Topology.FirstOccurrences | check-shard-slots.py:54 | the first occurrences of a list, without repeats, holding exactly its elements |
| Topology.FirstIndex | check-shard-slots.py:54 | the index of an element's first occurrence: it holds the element and no earlier index does |
| Topology.FirstOccurrencesOrdered | check-shard-slots.py:54 | the first occurrences come in the order in which they first occur in the list |
| Topology.RangesOfEntries | check-shard-slots.py:48-53 | `slot_ranges` has one element per reply entry, in reply order, holding that entry's start, end and master id |
| Topology.MastersValid | check-shard-slots.py:54 | `master_map`'s iteration order lists each of its keys exactly once |
| Topology.MastersOrder | check-shard-slots.py:54-59 | `master_map` is iterated in order of each master id's first appearance in the reply |
| Topology.MastersMapEntries | check-shard-slots.py:51-54 | every entry's master id maps to that entry's address |
| Topology.TopologyOfEntries | check-shard-slots.py:48-54 | with the script's ids: all of the above for the whole reply |
| Topology.ParseTopology | check-shard-slots.py:46-54 | the loop builds exactly `Ranges` and `Masters` of the reply, and the dict is well formed |
| Census.DecodeKeys | check-shard-slots.py:71-73 | never more keys than raw keys; when no key fails, one key per raw key |
| Census.DecodeKeysDecodesPrefix | check-shard-slots.py:71-73 | each kept key is the decoding of the raw key at its position; when decoding stops, it is at the first raw key that fails |
| Census.DecodeKeysAppend | check-shard-slots.py:69-73 | after a batch that decodes fully, the keys of the next batch follow on |
| Census.DecodeKeysStopped | check-shard-slots.py:69-73 | once a key fails, no later batch contributes |
| Census.Get | check-shard-slots.py:75 | defines reading a `defaultdict(int)`: an absent slot reads 0 |
| Census.GetList | check-shard-slots.py:76 | defines reading a `defaultdict(list)`: an absent slot reads `[]` |
| Census.Contribution | check-shard-slots.py:68-78 | defines the keys one master's SCAN loop counts: the decoded keys of its batches, in order, up to the first key that fails to decode |
| Census.ScanRaises | check-shard-slots.py:61-79 | defines when a master's scan ends in the `except`: a call raised, or one of its keys failed to decode |
| Census.Tally | check-shard-slots.py:74-75 | defines `slot_key_counts` after processing keys in order; `TallyCountsSlotKeys` states what each slot's count then is |
| Census.Listed | check-shard-slots.py:74-76 | defines `key_slot_map` after processing keys in order; `ListedListsSlotKeys` states what each slot's list then is |
| Census.Scanned | check-shard-slots.py:59-78 | defines the keys of all masters, each master's contribution in `master_map` order; `ScannedAppend` and `FailureIsolation` state its properties |
| Census.Inc | check-shard-slots.py:75 | `slot_key_counts[slot] += 1` raises that slot's count by one and leaves every other slot's count alone |
| Census.Append | check-shard-slots.py:76 | `key_slot_map[slot].append(key)` puts the key at the end of that slot's list and leaves every other slot's list alone |
| Census.SlotKeys | check-shard-slots.py:74-76 | the keys picked for a slot all hash to that slot, and each key of the input that hashes there is picked as many times as it occurs (nothing else is picked) |
| Census.Failed | check-shard-slots.py:79-80 | every reported master is a master of the dict whose scan raised |
| Census.ScanBatch | check-shard-slots.py:71-76 | the per-key loop counts and lists exactly the keys decoded before the first failure, and raises exactly when one fails |
| Census.ScanMaster | check-shard-slots.py:61-80 | one master's SCAN loop adds that master's contribution to both dicts and raises exactly when the scan or a key decode raises |
| Census.RunCensus | check-shard-slots.py:57-80 | after all masters, the counts and lists are those of every master's contribution in dict order, and the failures are those of `Failed` |
| Census.TallyCountsSlotKeys | check-shard-slots.py:74-75 | a slot's count grows by the number of keys that hash to it |
| Census.ListedListsSlotKeys | check-shard-slots.py:74-76 | a slot's list grows by exactly the keys that hash to it, in scan order |
| Census.ListsAgreeWithCounts | check-shard-slots.py:75-76 | the length of each slot's key list is its count |
| Census.RepeatedKeyCountedAgain | check-shard-slots.py:71-75 | a key returned twice is counted twice: there is no deduplication |
| Census.ScannedAppend | check-shard-slots.py:59 | the keys of two runs of masters are the keys of the first followed by those of the second |
| Census.FailureIsolation | check-shard-slots.py:59-80 | changing what one master's scan returns, including making it raise, changes any slot's count only by the change in that master's own keys in the slot |
| Census.PartialScanCountsPrefix | check-shard-slots.py:69-79 | a scan that raises after some batches counts a prefix of what the uninterrupted scan counts |
| Census.FailedIffRaises | check-shard-slots.py:79-80 | a master is reported as failed exactly when it is in the dict and its scan raises |
| Report.Reconcile | check-shard-slots.py:83-87 | one row per range, in order, with its start, its end, `end - start + 1` slots, the sum of its slots' counts and its master id |
| Report.SumCounts | check-shard-slots.py:84-86 | defines the inner loop's sum of `slot_key_counts.get(slot, 0)` over `range(slot_start, slot_end + 1)`, 0 for an empty range; `SumCountsCountsKeys` states what it counts |
| Report.KeysInRange | check-shard-slots.py:84-86 | the selected keys all hash into the range, and each key of the input whose slot is in the range is selected as many times as it occurs (nothing else is selected) |
| Report.SumCountsInc | check-shard-slots.py:86 | counting one more key raises a range's sum by one exactly when its slot is in the range |
| Report.SumCountsCountsKeys | check-shard-slots.py:84-86 | `keys_in_range` is the number of counted keys whose slot lies in the range |
| Report.AllKeysInFullRange | check-shard-slots.py:20 | with slots in [0, 16383], the full range holds every key |
| Report.TotalCountIsKeyCount | check-shard-slots.py:20 | the counts over all 16384 slots add up to the number of keys counted |
| Report.SumCountsSplit | check-shard-slots.py:85-86 | a range's sum splits at any point into the sums of its two parts |
| Report.RangesTotalWeighted | check-shard-slots.py:83-86 | the sum over all rows counts each slot's keys once per range covering the slot |
| Report.PartitionTotal | check-shard-slots.py:83-86 | when the ranges cover every slot exactly once, the rows' sums add up to the total over all slots |
| Audit.RowsCountKeys | check-shard-slots.py:83-87 | each row's `keys_in_range` is the number of counted keys whose slot is in the row's range |
| Audit.RowsReportEveryKey | check-shard-slots.py:83-87 | when the ranges partition the slot space, the rows together report every counted key exactly once |
| Audit.RunAudit | check-shard-slots.py:45-87 | one row per topology entry, in reply order, with its range, `end - start + 1` slots, its master id and the number of counted keys in its range; the failed masters are exactly those whose scan raises, listed in `master_map` order as their error lines are printed; with a partitioning topology the rows add up to every counted key |

## Left out

- Environment configuration (check-shard-slots.py:22-31) and the connection
  to the cluster (34-39): they only choose where the script connects.
- Opening a client per master (60-67), including the choice between
  `REDIS_HOST` and the master's IP under TLS. Connecting is part of each
  master's `ScanOutcome`: a master that cannot be reached is one whose scan
  raises before any batch.
- The `CLUSTER SLOTS` wire call and the reply's replica entries. The
  topology is given as a sequence of entries. The master's IP is already
  text; the script's `master[0].decode()` sits outside the `try`, and a
  failure there would end the script, which is not modelled.
- The `SCAN` cursor protocol (70, 77-78). A scan is the finite sequence of
  key batches it returns, ending either with cursor 0 or with a raise. A
  scan that never returns cursor 0 does not terminate in the script, and it
  is not modelled.
- `isinstance(key, bytes)` (72): the client returns keys as bytes, so every
  key is decoded.
- Printing (42, 80, 87): the header, the error messages and the column
  widths. Rows are values carrying the printed fields, and failures are the
  list of master ids whose errors would be printed.
- The exception object and its message (79-80): the model records only that
  a scan raised.
- `Census.DecodeKeys`, `Census.Tally` and the other census facts are stated
  for any decoder and any slot function. That the script's slot function
  keeps slots in [0, 16383] is used only where the slot range matters
  (`Report.TotalCountIsKeyCount`, `Audit.RowsReportEveryKey`).
