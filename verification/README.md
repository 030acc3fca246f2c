# Robin Hood hash map and temperature aggregator, modelled in Dafny

This project models the two computational parts of a Go program that reads
`<city>;<temperature>` lines and prints each city's min/avg/max.

1. The Robin Hood open-addressing hash map of `custom_map/custom_map.go`.
   - `RobinHoodMap` is a Dafny class (`CustomMap.RobinHoodMap`). Its fields are `entries`
     (an `array<Entry<V>>`), `size`, `count` and `mask`, and its methods update them in place:
     the constructor, `Put`, `Get`, `Delete`, `resize`, `Size`, `Keys`, `Values`, `Entries`
     and `Iterator`. `RobinHoodIterator` is a second class with `Next`, `Key` and `Value`.
   - Every method is proved against a function on the slot table in `RobinHoodSpec`. These are
     step-indexed probe functions that follow the Go loops branch by branch, including the
     `Distance` comparisons and the int8 `distance++`.
   - `RobinHoodProps` proves the properties of these functions: the count invariant, the
     enumerators, never full, resize keeping the keys, and what Get and Delete find.
2. The record logic of `main.go`.
   - `parseLine` and the part of `strings.Split` it uses (`LineParser`).
   - The per-city update loop of `processLine` (`Batches`, on the records of `CityStats`).
   - The merge loop of `evaluate` (`Evaluate`).
   - The result array, collected from the merged map and sorted by city (`Results`).

The key fact about the map is that every `Distance` field stays 0:
- entries are created with 0 (lines 63 and 69);
- a swap moves whole entries;
- Delete decrements only non-zero fields.

So Get and Delete look only at a key's home slot. Put, however, may place a key further along
the probe. The model keeps this behaviour as written. The two defects it causes are under
"## Findings", each with a corrected definition.

Readings are modelled as integers in tenths of a degree, so `sum` is exact.

## Model

| member | source | states |
|---|---|---|
| Bits.AndMask | custom_map/custom_map.go:62 | for a power-of-two size, `x & (size-1)` is `x % size` |
| Bits.MaskOf | custom_map/custom_map.go:62 | `int(hash) & rhm.mask` computes `hash % size`, so every probe position is below `size` |
| Bits.DoubleIsPowerOfTwo | custom_map/custom_map.go:28-30 | doubling a power of two (`size <<= 1`, `rhm.size *= 2`) gives a power of two |
| RobinHoodSpec.Inc8 | custom_map/custom_map.go:97 | `distance++` on an int8 wraps from 127 to -128 (two's complement) |
| RobinHoodSpec.Dec8 | custom_map/custom_map.go:165 | `Distance--` on an int8 wraps from -128 to 127 |
| RobinHoodSpec.EmptyTable | custom_map/custom_map.go:35-38 | a fresh table has `n` slots, every one `Empty` |
| RobinHoodSpec.Slot | custom_map/custom_map.go:96 | the slot at each probe step is within `[0, size)` |
| RobinHoodSpec.SlotStep | custom_map/custom_map.go:96 | `(pos + 1) & mask` moves the probe from step `k` to step `k+1`, wrapping at the end |
| RobinHoodSpec.Home | custom_map/custom_map.go:62 | the start of every probe is within `[0, size)` |
| RobinHoodSpec.VacancyExists | custom_map/custom_map.go:57-59 | a table with fewer occupied slots than slots has an `Empty` slot, so every probe loop reaches one and ends |
| RobinHoodSpec.StopStep | custom_map/custom_map.go:73-105 | some probe step from any home slot reaches an `Empty` slot, which bounds every probe loop |
| RobinHoodSpec.InsertAt | custom_map/custom_map.go:73-105 | Put's probe loop branch by branch: fill an `Empty` slot, update the slot with equal `Hash` and `Key`, swap when `distance > Distance`, else pass on; it keeps the table size, and InsertAtCount, InsertAtFrame, InsertAtStores and InsertAtConsistent state what it writes |
| RobinHoodSpec.NeedsResize | custom_map/custom_map.go:57 | the load check `float64(count)/float64(size) > 0.75` as the exact comparison `4 * count > 3 * size`; PutWellFormed shows it keeps the table from filling up |
| RobinHoodSpec.InsertAtCount | custom_map/custom_map.go:76-87 | Put's probe adds one occupied slot exactly when it writes an `Empty` slot, and none when it overwrites a matching slot's value |
| RobinHoodSpec.Insert | custom_map/custom_map.go:61-105 | the probe keeps the table size and changes the occupied count by the one slot it may fill |
| RobinHoodSpec.Resize | custom_map/custom_map.go:189-207 | `resize` doubles the table and occupies no more slots than before |
| RobinHoodSpec.Rehash | custom_map/custom_map.go:202-206 | re-Putting the old slots keeps the new size and adds at most one entry per occupied old slot |
| RobinHoodSpec.Put | custom_map/custom_map.go:56-106 | the table doubles exactly when the load check fires |
| RobinHoodSpec.Get | custom_map/custom_map.go:109-135 | a reported `(v, true)` comes from an occupied slot with that key and value; a miss reads `nil` |
| RobinHoodSpec.GetAt | custom_map/custom_map.go:114-132 | Get's probe loop: a miss at an `Empty` slot or when `distance > Distance`, a hit on equal `Hash` and `Key`, else the next slot; GetAtSound and GetAtHome state what it finds |
| RobinHoodSpec.GetAtSound | custom_map/custom_map.go:114-132 | what Get's probe finds is stored in the table under the key; what it misses is `nil` |
| RobinHoodSpec.ShiftBackCounts | custom_map/custom_map.go:155-172 | the backward shift leaves exactly one fewer occupied slot and one fewer copy of the deleted key |
| RobinHoodSpec.ShiftBack | custom_map/custom_map.go:155-172 | the backward shift moves each following entry with non-zero `Distance` back one slot and clears the last gap; it keeps the table size, and ShiftBackCounts states what it removes |
| RobinHoodSpec.DeleteAt | custom_map/custom_map.go:143-183 | Delete's search loop: keeps the table size and leaves the table unchanged when nothing is deleted; DeleteAtCounts and DeleteAtHome state what it removes |
| RobinHoodSpec.DeleteAtCounts | custom_map/custom_map.go:143-183 | a search that deletes empties exactly one slot and removes one copy of the key |
| RobinHoodSpec.Delete | custom_map/custom_map.go:138-186 | `false` leaves the table unchanged; `true` removes one occupied slot and one copy of the key |
| RobinHoodSpec.UpdateCounts | custom_map/custom_map.go:92 | overwriting one slot changes the occupied count and the keys by that slot alone |
| RobinHoodProps.EnumeratorsAligned | custom_map/custom_map.go:245-283 | `Keys`, `Values` and `Entries` each have one item per occupied slot and agree index by index |
| RobinHoodSpec.KeysOf | custom_map/custom_map.go:245-253 | the keys `Keys()` returns: one per occupied slot, in slot order (EnumeratorsInSlotOrder places each slot's key) |
| RobinHoodProps.EnumeratorsInSlotOrder | custom_map/custom_map.go:245-283 | the occupied slot `i` gives the item at position "occupied slots before `i`" of each enumerator |
| RobinHoodProps.InsertAtConsistent | custom_map/custom_map.go:65-71 | Put's probe keeps every `Distance` 0 and every `Hash` equal to its key's hash |
| RobinHoodProps.InsertConsistent | custom_map/custom_map.go:61-105 | a Put without a resize keeps the table consistent |
| RobinHoodProps.RehashConsistent | custom_map/custom_map.go:202-206 | the rehash loop keeps the table consistent |
| RobinHoodProps.PutWellFormed | custom_map/custom_map.go:56-106 | after Put the table is never full, has at least 16 slots and is consistent; it never shrinks |
| RobinHoodProps.DeleteWellFormed | custom_map/custom_map.go:138-186 | Delete keeps the table well formed |
| RobinHoodProps.GetAtHome | custom_map/custom_map.go:114-124 | Get finds a key exactly when it sits in its home slot, with that slot's value |
| RobinHoodProps.DeleteAtHome | custom_map/custom_map.go:143-175 | Delete removes a key exactly when it sits in its home slot; then only that slot is cleared |
| RobinHoodProps.InsertAtFrame | custom_map/custom_map.go:73-105 | Put's probe leaves the slots of earlier steps unchanged |
| RobinHoodProps.InsertAtFresh | custom_map/custom_map.go:73-105 | when no slot ahead holds the key, the probe ends in an `Empty` slot and adds the carried key |
| RobinHoodProps.InsertFresh | custom_map/custom_map.go:61-105 | putting a key not in the table adds exactly that key and reports a new slot |
| RobinHoodProps.SwapCounts | custom_map/custom_map.go:91-94 | a swap trades the slot's key for the carried key |
| RobinHoodProps.RehashKeys | custom_map/custom_map.go:202-206 | the rehash loop moves a duplicate-free set of keys over unchanged |
| RobinHoodProps.ResizeKeys | custom_map/custom_map.go:189-207 | with no duplicate keys, `resize` doubles the table and keeps exactly the old keys and count |
| RobinHoodProps.PutCount | custom_map/custom_map.go:56-87 | when no resize is due, or the table holds no duplicate keys, Put changes the count by at most one: by one exactly when it writes an `Empty` slot |
| RobinHoodProps.InsertAtReachesKey | custom_map/custom_map.go:73-105 | a re-Put of a key that already sits further along its probe, behind occupied slots only, overwrites it and fills no slot, which is how `resize` of a table with a duplicate key loses a slot |
| RobinHoodProps.PutUpdatesHome | custom_map/custom_map.go:83-87 | a key in its home slot is updated in place, and nothing else changes |
| RobinHoodProps.GetAfterPutAtHome | custom_map/custom_map.go:108-124 | Get after Put returns the value put, for a key that Put left in its home slot |
| RobinHoodProps.InsertAtStores | custom_map/custom_map.go:73-87 | Put stores its key with its value in some slot |
| RobinHoodFindings.DisplacedKeyMissed | custom_map/custom_map.go:117 | when the home slot holds another key, Put stores the key, yet Get reports it absent |
| RobinHoodFindings.GetProbing | custom_map/custom_map.go:109-135 | the corrected lookup's `(v, true)` comes from a slot with that key and value |
| RobinHoodFindings.GetProbingAfterPut | custom_map/custom_map.go:108-135 | the corrected lookup after Put returns the value put, for every table |
| RobinHoodFindings.PutDropsCarriedEntry | custom_map/custom_map.go:83-94 | with the key two slots past its home behind two other keys, Put overwrites the next slot and the key in it is lost, while the key appears twice |
| RobinHoodFindings.PutKeeping | custom_map/custom_map.go:56-106 | the corrected Put doubles the table exactly when the load check fires |
| RobinHoodFindings.PutKeepingKeys | custom_map/custom_map.go:56-106 | the corrected Put adds its key exactly when it was absent and keeps every other key |
| RobinHoodFindings.PutKeepingStores | custom_map/custom_map.go:55-106 | the corrected Put stores the value under its key |
| CustomMap.NewVacantArray | custom_map/custom_map.go:35-38 | `make` and the marking loop give a fresh array of `Empty` slots |
| CustomMap.RobinHoodMap.constructor | custom_map/custom_map.go:25-46 | size is the least power of two at least `initialSize`, raised to 16; `mask == size-1`, `count == 0`, every slot `Empty` |
| CustomMap.RobinHoodMap.Put | custom_map/custom_map.go:56-106 | keeps `Valid` (count = occupied slots, never full); the new table is `RobinHoodSpec.Put`; the array is replaced and the size doubled exactly on resize |
| CustomMap.RobinHoodMap.Probe | custom_map/custom_map.go:61-105 | the probe loop leaves the table `RobinHoodSpec.Insert` gives and keeps `count` the occupied count |
| CustomMap.RobinHoodMap.ProbeSlot | custom_map/custom_map.go:74-97 | one pass of the probe either ends with the probe's table or moves on one slot, keeping the probe invariant |
| CustomMap.RobinHoodMap.NextSlot | custom_map/custom_map.go:96 | `(pos + 1) & mask` is the next probe step's slot |
| CustomMap.RobinHoodMap.Resize | custom_map/custom_map.go:189-199 | doubles `size`, keeps `mask == size-1` and `Valid`, and gives the table `RobinHoodSpec.Resize` |
| CustomMap.RobinHoodMap.Reinsert | custom_map/custom_map.go:200-206 | re-Puts every occupied old slot in slot order into the new array |
| CustomMap.RobinHoodMap.Get | custom_map/custom_map.go:109-135 | returns `RobinHoodSpec.Get` of the table and changes nothing |
| CustomMap.RobinHoodMap.Delete | custom_map/custom_map.go:138-186 | keeps `Valid`; the table is `RobinHoodSpec.Delete`; `count` drops by one exactly when it returns `true` |
| CustomMap.RobinHoodMap.DeleteSlot | custom_map/custom_map.go:144-182 | one slot of Delete's search ends the search with its result or moves on with the table unchanged |
| CustomMap.RobinHoodMap.ShiftBackLoop | custom_map/custom_map.go:155-172 | the shift loop leaves the table `RobinHoodSpec.ShiftBack` gives |
| CustomMap.RobinHoodMap.Size | custom_map/custom_map.go:210-212 | the count is the number of occupied slots and of keys |
| CustomMap.RobinHoodMap.Keys | custom_map/custom_map.go:245-253 | the keys of the occupied slots in slot order, `count` of them |
| CustomMap.RobinHoodMap.Values | custom_map/custom_map.go:256-264 | the values of the occupied slots in slot order, `count` of them |
| CustomMap.RobinHoodMap.Entries | custom_map/custom_map.go:272-283 | the pairs of the occupied slots, `count` of them, each made of the keys' and values' items at its index |
| CustomMap.RobinHoodMap.Iterator | custom_map/custom_map.go:311-313 | a fresh iterator over this map at index -1 |
| CustomMap.RobinHoodIterator.constructor | custom_map/custom_map.go:312 | the iterator starts before the first slot |
| CustomMap.RobinHoodIterator.Next | custom_map/custom_map.go:315-324 | advances to the next occupied slot and reports whether one exists; every slot passed over is `Empty` |
| CustomMap.RobinHoodIterator.Key | custom_map/custom_map.go:326-328 | the key at the index; at an occupied slot, the item `Keys` lists for that slot |
| CustomMap.RobinHoodIterator.Value | custom_map/custom_map.go:330-332 | the value at the index; at an occupied slot, the item `Values` lists for that slot |
| LineParser.Split | main.go:160 | `strings.Split` gives one piece more than the separators, and no piece holds a separator |
| LineParser.JoinSplit | main.go:160 | joining the pieces with the separator gives the line back |
| LineParser.SplitJoin | main.go:160 | splitting the join of separator-free pieces gives the pieces back |
| LineParser.ParseLine | main.go:159-169 | succeeds exactly when the line holds one `;`; the two fields hold no `;`; otherwise the error names the line |
| LineParser.ParseLineJoin | main.go:159-169 | on success, `city + ";" + temperature == line` |
| LineParser.ParseLineOfFields | main.go:159-169 | a city and a temperature without `;`, joined by `;`, parse back to themselves |
| CityStats.Min | main.go:199-200 | the least reading is at most every reading and is one of them |
| CityStats.Max | main.go:202-203 | the greatest reading is at least every reading and is one of them |
| CityStats.First | main.go:185-191 | the record of a city's first reading, which FirstStats shows is the record of that one reading |
| CityStats.Add | main.go:194-213 | the record after one more reading, which AddStats shows is the record of the longer run |
| CityStats.Combine | main.go:93-103 | the merged record of two batches, which CombineStats shows is the record of both runs; CombineCommutes and CombineAssociates give its order freedom |
| CityStats.FirstStats | main.go:185-191 | the first reading sets `count = 1` and `min = max = sum = v`, the record of that one reading |
| CityStats.AddStats | main.go:192-213 | a later reading adds 1 to `count` and `v` to `sum`, and takes `min`/`max` with `v`: the record of the longer run |
| CityStats.CombineStats | main.go:93-103 | the merged record of two runs is the record of both runs together |
| CityStats.CombineCommutes | main.go:93-103 | merging two records gives the same result in either order |
| CityStats.CombineAssociates | main.go:93-103 | merging records does not depend on grouping |
| Batches.Observe | main.go:185-214 | a reading adds its city to the map and changes no other city's record |
| Batches.ParseRecord | main.go:175-183 | a line read as a city and a reading: the `parseLine` error, or an invalid-temperature error when the field does not parse; SummarizeFails shows the batch stops with it |
| Batches.Summarize | main.go:171-218 | the batch's map, or the error of its first bad line; SummarizeSucceeds, SummarizeFails and SummarizeStats state what it is |
| Batches.SummarizeSucceeds | main.go:174-183 | a batch yields a map exactly when every line parses |
| Batches.SummarizeFails | main.go:174-183 | a batch stops at the first line that fails to parse, with that line's error |
| Batches.SummarizeStats | main.go:171-215 | the map holds exactly the cities with readings, each with their count, least, greatest and sum |
| Batches.Record | main.go:185-214 | the in-place update of one city's record is `Observe` |
| Batches.ProcessLine | main.go:171-218 | the loop gives the batch's map, or the error of the first line that does not parse |
| Evaluate.MergeRecord | main.go:93-103 | counts and sums add; `min`/`max` are the pairwise extremes, each taken from one of the two |
| Evaluate.Merge | main.go:92-107 | the merged map holds the union of the cities; a city in one map only keeps its record, and a city in both gets `Combine` of its records |
| Evaluate.MergeCity | main.go:93-106 | one city more of the batch is merged into the accumulator |
| Evaluate.MergeInto | main.go:92-107 | merging a batch map in any city order gives `Merge`: the union of the keys, merged records where a city is in both, copies otherwise |
| Evaluate.MergeUpdate | main.go:104-105 | a city absent from the accumulator is copied unchanged, and other cities are untouched |
| Evaluate.MergeBatches | main.go:91-108 | the outer loop merges every batch map in arrival order |
| Evaluate.MergeCommutes | main.go:91-108 | merging two maps does not depend on which is the accumulator |
| Evaluate.MergeAssociates | main.go:91-108 | merging maps does not depend on grouping |
| Evaluate.MergeAllOrderFree | main.go:91-108 | the merged map does not depend on the order in which the batch maps arrive |
| Evaluate.SummarizeConcat | main.go:171-215 | the merge of two batches' maps is the map of their lines as one batch |
| Evaluate.EvaluateSummary | main.go:65-108 | however the lines are cut into batches, when every line parses, the merged map is the map of all lines in one batch |
| Results.LessIrreflexive | main.go:121 | no city sorts before itself |
| Results.LessAsymmetric | main.go:121 | of two cities, at most one sorts before the other |
| Results.LessTransitive | main.go:121 | the city order is transitive |
| Results.LessTotal | main.go:121 | of two different cities, one sorts before the other |
| Results.Less | main.go:121 | Go's `<` on city names; LessIrreflexive, LessAsymmetric, LessTransitive and LessTotal make it a strict total order |
| Results.Collect | main.go:110-118 | the loop gives one row per city of the merged map, with its record, no city twice |
| Results.SortByCity | main.go:120-122 | `sort.Slice` by city leaves the rows in order, as a permutation of the rows before |
| Results.InsertDown | main.go:120-122 | one insertion step orders one more row and permutes the array |
| Results.SortedAscending | main.go:120-122 | sorted rows with distinct cities are in strictly ascending order of city |
| Results.AscendingUnique | main.go:110-122 | two strictly ascending lists of a map's rows are equal, so the result does not depend on map order or sort stability |
| Results.ResultArray | main.go:110-122 | the result array holds the merged map's rows, one per city with its record, in strictly ascending order of city |

## Left out

- The `distance > 127` branches (custom_map.go lines 100-104, 129-131, 180-182) are not modelled. `distance` is an int8, which never exceeds 127, so these branches are dead. The int8 wrap-around of `distance++` is modelled exactly by `Inc8`.
- `fastHash` (FNV-1a from Go's `hash/fnv`) is a foreign function. It is a parameter `string -> bv32` given to the constructor.
- `LoadFactor` and `Stats` are left out: they use float division and `fmt.Printf`. The load check of `Put` is modelled exactly as `4 * count > 3 * size`.
- `ForEach` and `ForEachBreakable` are left out: they call arbitrary callbacks.
- `Value interface{}` is modelled as `Option<V>`, with `None` for `nil`.
- Integers are unbounded in the model: the map's `int` fields `size` and `count` (custom_map.go lines 11-12) never overflow when doubled or incremented, and neither do the `int64` `count` and the `sum` of `cityTemperatureInfo` (main.go lines 24-27).
- `RobinHoodProps.PutCount` requires, when Put resizes, that the table holds no duplicate keys. The code as written can create duplicates (the second finding below). When a later Put resizes such a table, `resize` re-Puts both copies. The second copy reaches the first, overwrites it and fills no slot (`RobinHoodProps.InsertAtReachesKey`). The new table then has fewer occupied slots than the old one, so `Size()` can shrink on a Put. The model does not prove this whole sequence for an arbitrary table.
- `CustomMap.RobinHoodMap.Put`: the recursive `Put` calls from `resize` run under `Valid`. The model proves they never resize again, because the old count is below the old size.
- `main` (flag parsing, pprof profiles), the goroutines, channels and `WaitGroup` of `evaluate`, and `readFileLines` (file I/O) are left out.
  - Batches arrive as a sequence in any order; `Evaluate.MergeAllOrderFree` covers every order.
  - `Evaluate.EvaluateSummary` covers every cut of the lines into batches.
- A panic in `processLine` ends the program. The model returns the error of the first bad line instead.
- `strconv.ParseFloat(strings.TrimSpace(.), 64)` is a parameter `string -> Option<int>` that reads a temperature field as tenths of a degree.
- Readings are modelled as exact integers (tenths). Float rounding of `sum`, `round` and the `%.1f` output formatting are left out.
  - For this reason the `avg` field of `cityTemperatureResult` is left out too: a row keeps the city's record.
- `Results.SortByCity` models `sort.Slice` (pdqsort, not stable) as an insertion sort with the same promise: ordered, and a permutation. `Results.AscendingUnique` shows that the result is the same for any such sort, because cities are distinct.
- `Results.Less` compares strings as sequences of Unicode scalar values; Go's `<` compares the bytes of the strings. For valid UTF-8 the two orders are the same. A Go string may hold invalid UTF-8, which a Dafny string cannot represent, so such city names are not modelled.
- Go's map iteration order is unspecified. It is modelled by choosing any remaining key in `Evaluate.MergeInto` and `Results.Collect`.
- `CustomMap.RobinHoodIterator.Key` and `CustomMap.RobinHoodIterator.Value` require an index inside the array. In Go, `Key()` or `Value()` before the first `Next()`, or after `Next()` returned `false`, panics with an index out of range; the model does not describe that panic.
- bench_test.go is a benchmark harness with no behaviour to model.

## Findings

| source | as written | input that shows it | evidently intended | confidence | as-written member | corrected member |
|---|---|---|---|---|---|---|
| custom_map/custom_map.go:117 | Every stored `Distance` stays 0, so Get stops at the first occupied slot after the home slot (`distance 1 > 0`) | Put a key whose home slot already holds another key: Put stores it one or more slots further on, and Get then returns `nil, false` | Get finds every key Put stored (the doc comment "Get retrieves a value by key") | not executed | RobinHoodFindings.DisplacedKeyMissed | RobinHoodFindings.GetProbingAfterPut |
| custom_map/custom_map.go:83 | After a swap the loop still compares slots with Put's own key, so a later slot holding that key is updated and the carried entry is thrown away | Insert A, C, K, B with one home slot (slots: A, B, K, C), then Put(K): K goes into B's slot, the old K is updated, and B is lost while K appears twice | Put "inserts or updates a key-value pair" and keeps every other key | not executed | RobinHoodFindings.PutDropsCarriedEntry | RobinHoodFindings.PutKeepingKeys |
