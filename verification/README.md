# Partitioned queries, from parameters to DuckDB slots

The program runs one SQL query as many shards over a bounded connection pool and feeds the combined rows
into a DuckDB table function. This project models that path and proves that it does not change the answer.

* **Planning.** `FloorDiv` holds the boundary arithmetic and the program's overflow-avoiding `mul_div`;
  `Slices` gives the `WHERE` clauses a meaning on rows and counts in how many partitions a key turns up;
  `KeyedTiles` tiles any key type through a sort key. `IntRange`, `OffsetPaging`, `UuidKeys`/`UuidRange`
  and `TimeRange` are the planners, their loops written as loops at the program's machine widths.
* **Execution.** `Pool` is a step machine over permits and one result slot per partition. `Executor` releases
  the slots in order as a stream; `BufferedCall` joins them and flattens. Theorems quantify over every
  schedule and every outcome of every partition. The classes `RowStream` and `PartitionedCall` are the
  stream and the call; each of their operations is proved to be a run of those machines.
* **Scan-out.** `Strategy` chooses a plan from the named parameters; `ScanOut` infers column types, writes
  batches of 2048 rows and reads them back; `EndToEnd` composes everything into one equivalence with the
  plain query. `ConnString` is the ADO.NET connection-string parser, and `ConnStringForms` says in terms of the
  characters written which strings mean the same to it.
* **Tokens.** `TokenCache` is the Azure token cache, both as the class and as interleaved steps of any
  number of callers under a clock that may do anything. `TokenRace` says for which orders of misses, fetches
  and write-backs a racing write-back can replace a token with one that expires earlier.

Where the code and its comments disagree, the code is modelled:

* `mul_div` is documented as exact whenever the result fits 128 bits. It is exact precisely when
  `(a % den) * num` fits as well; every call in the program satisfies that (`MulDivExactIff`,
  `MulDivOverclaims`, `MulDivIsCut`).
* Date-time and timestamp ranges are documented to tile `[min, max]`. They do precisely for aligned bounds
  (`InstantRangeExactIff`, `MicrosecondColumnExactIff`); `InstantRangeCovers` says what is covered otherwise.
* `by_offset` is documented for all totals. Its last `offset += page` leaves 64 bits for exactly the totals
  in `ByOffset`'s contract, none of which the extension can pass (`SignedTotalsNeverOverflow`).

Lexical UUID slicing of a SQL Server column drops or duplicates rows, as documented: `LexicalSliceDrops` and
`SixLexicalSlicesDuplicate` are inputs that do, and `MismatchDropsIff` says which keys are dropped. What is
never lost is a key between the bounds in the backend's own order (`MismatchHits`); `MismatchExactIff` says
when exactly those keys are selected, once each.

`dafny verify dfyconfig.toml` checks the project.

## Model

| member | source | states |
|---|---|---|
| `EndToEnd.PartitionedScanIsPlainScan` | src/vtab/mod.rs:43-140 | for every parameter combination, every pool and every schedule, whatever the buffered call has returned is a success whose rows are multiset-equal to the unpartitioned query's rows if and only if the parameters, as given, tell the truth about the data |
| `EndToEnd.EveryScheduleYieldsResult` | src/vtab/mod.rs:128-140 | over the pool `bind` asks for no schedule goes on for ever, and one that cannot be extended has returned the partition-ordered concatenation |
| `EndToEnd.BindAndScan` | src/vtab/mod.rs:128-191 | the slots handed over all `func` calls are those of the plain query's rows as a bag, under one column for each of its column names; if each column calls for one type, the declared columns are the plain query's too, every slot fits, and the rows read back are the plain query's |
| `Bags.MappedBags` | src/vtab/mod.rs:178-186 | writing rows out one by one keeps equal bags of rows equal bags of slots |
| `Strategy.BuildPartitions` | src/vtab/mod.rs:43-100 | the nested fall-through (missing parameter, empty interval, count truncated to 0 by `as u32`) is the flat choice `Choose`, never yields an empty list, and its paging never overflows |
| `Strategy.PlannedAnswers` | src/vtab/mod.rs:43-100 | on the parameters alone: which of the four strategies applies, and that its statements together return from any database the rows with a UUID key neither below nor above the bounds, or with an integer key within them, or the first `total_rows` of the order, or all |
| `Strategy.PlanShape` | src/vtab/mod.rs:43-100 | on the parameters alone: every statement is of that strategy, on its key or order, and there are max(1, min(n, span)), min(n, width) or as many as there are pages |
| `Strategy.PlanLosslessIff` | src/vtab/mod.rs:43-100 | for every parameter combination the planned statements together return exactly the plain query's rows iff the parameters are truthful: all keys present and within the interval given, or the row count not understated |
| `Strategy.UuidPlanLosslessIff` | src/vtab/mod.rs:49-66 | the UUID strategy is lossless iff every key is non-null and between the bounds |
| `Strategy.IntPlanLosslessIff` | src/vtab/mod.rs:68-83 | the integer strategy is lossless iff every key is non-null and between the bounds |
| `Strategy.PagePlanLosslessIff` | src/vtab/mod.rs:85-97 | the paging strategy is lossless iff `total_rows` is at least the row count |
| `Strategy.WholePlanLossless` | src/vtab/mod.rs:99 | the fallback statement returns the rows themselves, in order |
| `Strategy.NoEmptyUuidPlan` | src/vtab/mod.rs:61-64 | the emptiness test falls through exactly when the count is 0 or the bounds are reversed |
| `Strategy.NoEmptyIntPlan` | src/vtab/mod.rs:78-81 | the emptiness test falls through exactly when the count is 0 or the bounds are reversed |
| `Strategy.MaxConnections` | src/vtab/mod.rs:133-135 | one permit per partition from 1 to 32 of them, 32 beyond, never 0 |
| `MachineInts.TruncateToU32` | src/vtab/mod.rs:61 | the `as u32` cast changes the count by a multiple of 2^32 |
| `FloorDiv.MulDivExactIff` | src/partition.rs:137-141 | with every intermediate wrapping at 128 bits, the result is the true floor iff `(a % den) * num` fits 128 bits, and that is also exactly when a checked build does not panic |
| `FloorDiv.MulDivOverclaims` | src/partition.rs:137-141 | a concrete input on which "exact whenever the result fits" fails |
| `FloorDiv.MulDivIsCut` | src/partition.rs:139-141 | for `num <= den <= u32::MAX` no intermediate overflows and the result is floor(a*num/den), at most `a` |
| `FloorDiv.ComputeCut` | src/partition.rs:139-141 | the boundary the planners obtain is the exact floor and stays within the span |
| `FloorDiv.CutIsFloor` | src/partition.rs:77-78 | the repeated-subtraction boundary is `span * k / n` |
| `FloorDiv.CutEnds` | src/partition.rs:291-294 | boundary(0) is the start and boundary(n) the end |
| `FloorDiv.CutStep` | src/partition.rs:291-294 | adjacent boundaries differ by floor(span/n) or ceil(span/n), by at most 1 when slices outnumber values and at least 1 otherwise |
| `FloorDiv.CutMonotone` | src/partition.rs:291-294 | boundaries ascend |
| `FloorDiv.CutLastStep` | src/partition.rs:301-305 | the last step is always the ceiling, so the closing partition is never the short one |
| `Slices.Telescope` | src/partition.rs:296-320 | for any comparison order the number of partitions selecting a key is 1 between the outer boundaries plus one for each boundary step down across it |
| `Slices.AscendingTile` | src/partition.rs:337-366 | ascending boundaries select every rank of the closed interval exactly once and nothing else, skipped slices and the closing one included |
| `Slices.TilesRun` | src/partition.rs:346-366 | the predicates run in order from the first boundary to the last, each starting at the literal the one before ends at, all half-open but the closing one |
| `Slices.EvenCountAndBalance` | src/partition.rs:346-366 | exactly max(1, min(n, span)) partitions, the closing one always last, adjacent boundaries balanced, and only empty slices skipped |
| `Slices.SelectedCount` | src/partition.rs:335-345 | a row comes back as often as it occurs times the partitions selecting its key; a null key never does |
| `Slices.ExactSlicesFilter` | src/partition.rs:37-41 | partitions that select an interval exactly return together the table filtered to that interval |
| `Slices.LosslessIff` | src/partition.rs:37-41 | a filtered table equals the table, as bags, iff every row passes |
| `IntRange.ByIntRange` | src/partition.rs:57-88 | for any i64 bounds no i128 step overflows, and every emitted bound is back in [min, max] |
| `IntRange.Boundary` | src/partition.rs:77-78 | `(width * i) / n` fits i128 for the full 64-bit range and is the exact boundary |
| `IntRange.IntRangeTiles` | src/partition.rs:37-41 | every integer in [min, max] falls in exactly one partition, no other in any |
| `IntRange.IntRangeFilters` | src/partition.rs:37-46 | for any table the partitions together return the rows with min <= key <= max, also when min > max |
| `IntRange.IntRangeCountAndBalance` | src/partition.rs:74-87 | exactly min(n, width) partitions, none empty, each floor(width/n) or ceil(width/n) keys wide |
| `IntRange.IntSlicesRun` | src/partition.rs:37-41 | the partitions run in order from `min` to `max`, each starting one past the end of the one before |
| `IntRange.IntSliceAt` | src/partition.rs:75-85 | slice k, if not empty, is from `min + width * k / n` to `min + width * (k + 1) / n - 1` |
| `OffsetPaging.ByOffset` | src/partition.rs:110-135 | the loop terminates with the consecutive pages, and the checked `offset += page` overflows for exactly the totals that rounded up to whole pages reach 2^64 |
| `OffsetPaging.DivCeil` | src/partition.rs:123 | the quotient rounded up, with no 64-bit overflow |
| `OffsetPaging.SignedTotalsNeverOverflow` | src/vtab/mod.rs:91-92 | no total an i64 can express overflows |
| `OffsetPaging.LargestTotalOverflows` | src/partition.rs:132 | 2^64 - 1 rows in two pages of 2^63 do overflow |
| `OffsetPaging.UncheckedOverrunsIff` | src/partition.rs:127-133 | with a wrapping `offset += page` the loop emits the same pages, and goes on after the last one, from an offset inside the first page, for exactly the totals on which a checked build overflows |
| `OffsetPaging.PageCountAndSizes` | src/partition.rs:92-99 | the page size is the total over n rounded up, there are exactly as many pages of it as hold the total, at most n, page i starts at row i times the size, all are full but perhaps the last, none is empty |
| `OffsetPaging.OffsetPagesArePrefix` | src/partition.rs:92-99 | the pages of any ordered result concatenate, as a sequence, to its first `total_rows` rows |
| `UuidKeys.KeyOfUuidInverse` | src/partition.rs:224-253 | every UUID comes back from its key, in both orders |
| `UuidKeys.UuidOfKeyInverse` | src/partition.rs:224-253 | every 128-bit key comes back from its UUID, in both orders |
| `UuidKeys.ValueOrderIsLexOrder` | src/partition.rs:229-234 | big-endian values compare exactly as their bytes do lexicographically |
| `UuidKeys.KeysOrderBySignificance` | src/partition.rs:205-237 | keys compare exactly as the bytes read in the order's significance |
| `UuidKeys.KeysOrderAsBackend` | src/partition.rs:197-216 | keys order UUIDs exactly as the backend does: byte by byte, or, for `uniqueidentifier`, by the node, the fourth group, and the third, second and first groups read backwards |
| `MachineInts.OrIntoVacated` | src/partition.rs:232 | or-ing, bit by bit, into bits that a shift has vacated adds |
| `UuidKeys.ComputeKey` | src/partition.rs:225-237 | the shift-and-or loop over 128-bit words computes the big-endian value of the permuted bytes without losing a bit |
| `UuidKeys.RebuildUuid` | src/partition.rs:241-253 | filling the byte array through the permutation yields the key's UUID |
| `UuidKeys.OrderIsPermutation` | src/partition.rs:222 | the significance table is a permutation of the 16 byte positions |
| `UuidRange.ByUuidRangeOrdered` | src/partition.rs:275-323 | the loop over keys, with no 128-bit overflow, emits exactly the half-open tiles between the boundary literals, closing on `max` itself; `by_uuid_range` is the Lexical case |
| `UuidRange.Boundary` | src/partition.rs:291-294 | `lo_key + mul_div(..)` never leaves 128 bits and is the exact boundary key |
| `UuidRange.UuidRangeTiles` | src/partition.rs:258-264 | on a backend comparing in the chosen order, every UUID in [min, max] satisfies exactly one predicate, no other any |
| `UuidRange.UuidSlicesTile` | src/partition.rs:258-264 | in the backend's own comparison: every UUID neither below `min` nor above `max` satisfies exactly one predicate, no other any, and there are no predicates iff `min` is above `max` |
| `UuidRange.UuidSlicesRun` | src/partition.rs:291-320 | boundary k has the key floor(span * k / n) above that of `min`, and the predicates run in order from `min` to `max` through the boundaries |
| `UuidRange.UuidRangeCountAndBalance` | src/partition.rs:296-322 | exactly max(1, min(n, span)) partitions, last one closing, boundary keys floor or ceil apart |
| `UuidRange.MismatchHits` | src/partition.rs:197-204 | for any two orders and any key, the number of partitions selecting it is that of a tiling of the bounds in the backend's order plus one per boundary step down across it; a key between the bounds in the backend's order is never lost |
| `UuidRange.MismatchDropsIff` | src/partition.rs:161-164 | a key is dropped iff it lies outside the bounds in the backend's order and no boundary step goes down across it, wherever it lies in the order sliced in |
| `UuidRange.LexicalSliceDrops` | src/partition.rs:161-164 | a `uniqueidentifier` lexically between the bounds that no lexical slice selects |
| `UuidRange.MismatchExactIff` | src/partition.rs:197-204 | such slicing is correct iff the boundary sequence does not step down in the backend's order |
| `UuidRange.WholeSpaceOnAnyBackend` | src/partition.rs:161-164 | over nil to max every key is selected at least once, and all exactly once iff the boundaries mapped through the backend's key are non-decreasing |
| `UuidRange.SixLexicalSlicesDuplicate` | src/partition.rs:161-164 | six lexical slices of the whole space select some `uniqueidentifier` twice |
| `UuidRange.ExtremeKeys` | src/partition.rs:222-237 | nil and max are the least and greatest key in both orders |
| `TimeRange.SplitDuration` | src/partition.rs:325-335 | both casts back to i64 are in range, and the offset is the span's whole microseconds times i/n rounded down, or its whole seconds if it is 2^63 microseconds or more |
| `TimeRange.TimePartitions` | src/partition.rs:346-366 | the loop emits exactly the half-open tiles of its boundary literals, for any number of them, 0 and 1 included |
| `TimeRange.ByDateRange` | src/partition.rs:385-405 | the boundaries are the exact day cuts, computed without overflow |
| `TimeRange.ByInstantRange` | src/partition.rs:424-483 | the boundaries are the interpolated instants at six fractional digits, for both literal formats |
| `TimeRange.DateRangeTiles` | src/partition.rs:368-374 | every day in [min, max] falls in exactly one partition, no other in any |
| `TimeRange.InstantRangeCovers` | src/partition.rs:410-414 | the instants covered, each exactly once: from `min` cut to a microsecond, as far as the span in whole microseconds, or in whole seconds if it is 2^63 microseconds or more |
| `TimeRange.InstantRangeExactIff` | src/partition.rs:410-414 | [min, max] is covered exactly once to the nanosecond iff `min` is a whole microsecond and the span whole microseconds, or whole seconds if it is 2^63 microseconds or more |
| `TimeRange.NanosecondMissed` | src/partition.rs:325-335 | `max` a nanosecond past a microsecond is selected by no partition |
| `TimeRange.HalfSecondMissed` | src/partition.rs:331-334 | in the fallback, `max` half a second past a second is selected by no partition |
| `TimeRange.MicrosecondColumnExactIff` | src/partition.rs:325-335 | on microsecond columns `max` need not be aligned: exact iff `min` is, and a span of 2^63 microseconds or more is, cut to microseconds, whole seconds |
| `TimeRange.InstantSlicesRun` | src/partition.rs:424-483 | boundary k is k/n of the way along in those units, printed to the microsecond with or without an offset, and the predicates run in order through the boundaries |
| `TimeRange.InstantEnds` | src/partition.rs:337-338 | the first literal is `min`, the last the end of what is covered |
| `TimeRange.InstantLiterals` | src/partition.rs:440-481 | every predicate compares with literals of the column's own kind |
| `TimeRange.DateSlicesRun` | src/partition.rs:396-404 | day boundary k is `min + days * k / n`, and the predicates run in order through the boundaries |
| `TimeRange.DateLiterals` | src/partition.rs:337-338 | the first day literal is `min`, the last `max`, and the last predicate closes on it |
| `TimeRange.InstantRangeCountAndBalance` | src/partition.rs:346-366 | exactly max(1, min(n, units)) partitions, the closing one last, boundaries floor or ceil units apart, and adjacent literals equal iff the slice between them is empty |
| `TimeRange.DateRangeCount` | src/partition.rs:346-366 | exactly max(1, min(n, days)) partitions, the closing one last |
| `TimeRange.DateBoundsBalanced` | src/partition.rs:398-404 | day boundaries floor or ceil days apart, and adjacent literals equal iff the slice between them is empty |
| `Executor.RunInvariant` | src/driver.rs:97-110 | what every step keeps holds after every schedule: released partitions are finished, permits are respected, emitted and pending items are the released prefix |
| `Executor.EverySchedule` | src/driver.rs:78-83 | under every interleaving the emitted items are a prefix of the partition-ordered concatenation (rows, or one error in place), at most `limit` partitions run, and a drained stream has emitted all of it |
| `Executor.StreamItemByItem` | src/driver.rs:78-83 | at every moment of every schedule, partition i's row j stands where that partition starts, j items on, or its one error does; a drained stream has one item per row and one per failing partition |
| `Executor.SchedulesAreBounded` | src/driver.rs:97-110 | every event uses up work: no schedule is longer than the initial amount |
| `Pool.WorkersNeverStall` | src/driver.rs:51-55 | while a partition is unfinished some partition can take a permit or finish, whatever has been consumed |
| `Executor.MaximalSchedulesDrain` | src/driver.rs:97-110 | even if partitions move only while the stream has nothing to emit, a schedule that cannot be extended has emitted the whole stream |
| `Pool.EnoughPermits` | src/vtab/mod.rs:133-135 | with a permit per partition none has to queue |
| `Pool.MoveKeepsPool` | src/driver.rs:51-55 | taking, giving up and returning permits never exceeds the limit, leaves each result in its own partition's slot, and uses up work |
| `Executor.NoPermitsNoRows` | src/driver.rs:51-55 | with 0 permits a partition that would succeed never runs and the stream never passes it |
| `Executor.FailFastStopsAtLowest` | src/driver.rs:80-83 | stopping at the first error stops at the lowest-numbered failing partition, after all rows of the ones before it |
| `Executor.FailFastUnderEverySchedule` | src/driver.rs:80-83 | at every moment of every schedule the first error emitted, if any, is that of the lowest-numbered failing partition, after exactly the rows of the partitions before it |
| `BufferedCall.EveryCall` | src/driver.rs:57-67 | under every schedule the value the call returns from its result slots is Ok iff every partition is, and then the rows in partition order, which is what the stream collects to; otherwise it is the error of a partition that failed, and of the lowest one if the join reports failures in order |
| `BufferedCall.CallRowByRow` | src/driver.rs:57-67 | a successful call returns partition i's row j where that partition starts, j rows on, and nothing besides |
| `BufferedCall.CallRunInvariant` | src/driver.rs:60-67 | every step keeps permits, slots and the returned value consistent |
| `BufferedCall.CollectedIsAll` | src/driver.rs:64-66 | a complete pass over the slots has collected one success per partition, in partition order |
| `BufferedCall.FailedIsSomeones` | src/driver.rs:64-65 | a failed pass has met a filled slot with that error, with only successes before it if the join reports in order |
| `BufferedCall.MaximalCallsReturn` | src/driver.rs:51-67 | with a permit to take, a schedule that cannot be extended has returned |
| `BufferedCall.CallsAreBounded` | src/driver.rs:60-67 | every event uses up work: no schedule is longer than the initial amount plus the return |
| `BufferedCall.AgreesWithStreamIff` | src/driver.rs:57-67 | the call agrees with fail-fast consumption of the stream under every schedule, errors included, iff the join reports failures in order or all failing partitions fail alike |
| `BufferedCall.AnyFailureCanWin` | src/driver.rs:57-65 | for each failing partition there is a run of an eager join that returns its error, lowest or not |
| `BufferedCall.PartitionedCall.constructor` | src/driver.rs:60-64 | all partitions are queued, none started, nothing returned |
| `BufferedCall.PartitionedCall.Progress` | src/driver.rs:64 | a pool event changes nothing but the partition's slot and keeps the invariant |
| `BufferedCall.PartitionedCall.Poll` | src/driver.rs:60-67 | one pass over the slots resolves exactly when the step machine can return, to what it returns, and is pending only on an unfinished partition |
| `Executor.RowStream.constructor` | src/driver.rs:97-101 | all partitions are queued up front, none started |
| `Executor.RowStream.SkipDrained` | src/driver.rs:102-108 | moving to the next partition with items is a run of releases |
| `Executor.RowStream.PollNext` | src/driver.rs:102-109 | each poll is a run of the step machine: it yields the next item in order, is pending only on an unfinished next partition, and ends only when everything was emitted |
| `Executor.RowStream.Progress` | src/driver.rs:99-101 | pool events change nothing but the partition's status and keep the invariant |
| `ScanOut.InferColType` | src/vtab/mod.rs:243-269 | the type of the first non-null value, short rows counting as null; Varchar if there is none |
| `ScanOut.TypeTable` | src/vtab/mod.rs:249-265 | each fixed-width variant and byte strings have a column type of their own |
| `ScanOut.BindColumns` | src/vtab/mod.rs:140-150 | one column for each column of the first row, named after it and typed by inference, and none for an empty result |
| `ScanOut.DataChunk.WriteValue` | src/vtab/mod.rs:273-313 | one slot takes the value's stored form, every other slot and validity bit is unchanged |
| `ScanOut.Scan.FillColumn` | src/vtab/mod.rs:178-186 | one column of the batch, other columns untouched |
| `ScanOut.Scan.Func` | src/vtab/mod.rs:161-191 | the chunk holds exactly the next min(2048, rest) rows and the position advances by as many |
| `ScanOut.RunScan` | src/vtab/mod.rs:161-191 | the batches concatenate to one row for each bound row, with one slot for each column of the first, holding that row's value there or null if it has none; all batches but the last hold 2048 rows, and there are ceil(len/2048) |
| `ScanOut.SlotsFitIffHomogeneous` | src/vtab/mod.rs:243-313 | every slot of a column matches the inferred type iff all its non-null values call for one type |
| `ScanOut.ReadBackDelivers` | src/vtab/mod.rs:273-313 | a fitting slot reads back as the null, number, text or byte string itself, and dates, times, UUIDs and documents in printed form |
| `ScanOut.BindAndRead` | src/vtab/mod.rs:128-191 | over a whole bind and scan: the first row's columns by name; every slot fits its column iff each column's non-null values call for one type; and then cell (i, c) reads back as value c of row i, itself or in printed form |
| `ScanOut.InferredTypeOfBag` | src/vtab/mod.rs:243-269 | the type of a column whose non-null values call for one type does not depend on the order of the rows |
| `ScanOut.SameRowsReadAlike` | src/vtab/mod.rs:128-191 | reordered rows give the same bag of slots and, for such columns, the same declared columns and the same bag of rows read |
| `TokenCache.EveryInterleaving` | src/auth/azure.rs:158-194 | in every interleaving the cache holds an issued token with its own expiry; a token answered from the cache had more than 60 s left at its check; any other success is the caller's own fetch |
| `TokenCache.StepKeepsSound` | src/auth/azure.rs:158-194 | the same for a single step from any sound state |
| `TokenCache.CacheIsLastWriters` | src/auth/azure.rs:170-194 | in every interleaving the cache is empty until the first write-back and then holds exactly the token issued to the call that wrote last, whatever fetches failed |
| `TokenCache.SlowWriterWins` | src/auth/azure.rs:158-194 | two calls that miss together can leave the older token cached |
| `TokenRace.NeverLowersIff` | src/auth/azure.rs:158-194 | given the order of misses, fetches and write-backs so far, a call's write-back lowers the cached expiry under no monotone clock and no tokens living over 60 s, iff some call has missed between the last write-back and the writer's fetch |
| `TokenRace.FreshWritesRaise` | src/auth/azure.rs:158-194 | in that case the write-back strictly raises it, in every such run |
| `TokenRace.StaleWritesCanLower` | src/auth/azure.rs:158-194 | otherwise a run with exactly those moves exists in which it falls |
| `TokenRace.LowersOnlyIfOvertaken` | src/auth/azure.rs:158-194 | a write-back lowers the cached expiry only if another call has written back since the writer's own check |
| `TokenRace.SerialNeverLowers` | src/auth/azure.rs:158-194 | if no call misses while another is between its miss and its write-back, the cached expiry never falls |
| `TokenCache.AloneIsSequential` | src/auth/azure.rs:158-194 | a call nothing interleaves with does in the step machine what the sequential provider does |
| `TokenCache.IssueBound` | src/auth/azure.rs:18-24 | a sequential caller on a monotone clock with tokens living at least L > 60 s is issued at most floor(T/(L-60 s)) + 1 of them in any window T |
| `TokenCache.MissesAreFetches` | src/auth/azure.rs:158-168 | each call counts as a fetch just when the cache left by the calls before it holds nothing with more than 60 s to live |
| `TokenCache.FetchBound` | src/auth/azure.rs:18-24 | and fetches at most that often plus the number of its fetches in the window that fail |
| `TokenCache.FetchesAreSpaced` | src/auth/azure.rs:18-24 | consecutive issues are at least L - 60 s apart |
| `TokenCache.AzureTokenProvider.GetToken` | src/auth/azure.rs:158-168 | a hit answers the cached token and leaves the cache; a miss answers and caches the fetch, or its error with the cache unchanged |
| `TokenCache.AzureTokenProvider.RefreshToken` | src/auth/azure.rs:170-194 | a success replaces the cache with that token and its own expiry in seconds, or 3600 s from now if that is not positive; a failure changes nothing |
| `TokenCache.AzureTokenProvider.CheckCache` | src/auth/azure.rs:18-24 | a hit iff a token is cached with more than 60 s left, and none when the clock cannot hold a minute more |
| `TokenCache.ChainedGetToken` | src/auth/azure.rs:45-63 | the first source that succeeds, else the last one's error, else the fixed one |
| `ConnString.ParseMssqlConnStr` | src/vtab/mod.rs:428-484 | the loop over segments computes the specification parse, errors included |
| `ConnString.Apply` | src/vtab/mod.rs:451-467 | each keyword sets its own field and no other; a server without a port keeps the port read so far |
| `ConnString.ParseIsAssignAll` | src/vtab/mod.rs:443-468 | a string is accepted iff every segment is blank or has an `=`, and the result is the settings assigned in order |
| `ConnString.SplitJoin` | src/vtab/mod.rs:443 | joining semicolon-free segments and splitting gives the segments back |
| `ConnString.SegmentOrderIrrelevant` | src/vtab/mod.rs:443-468 | segments may be permuted, with blank and unrecognised ones interleaved, as long as no field is set twice |
| `ConnString.ParseRendered` | src/vtab/mod.rs:428-484 | parsing the canonical rendering returns every field up to outer white space and a leading `tcp:`, including `=` inside a password |
| `ConnString.AnyOrderParses` | src/vtab/mod.rs:428-484 | so does parsing any other arrangement of the same settings, through any accepted keyword |
| `ConnString.RoundTripIff` | src/vtab/mod.rs:428-484 | parsing returns exactly the rendered configuration iff no field contains `;` or outer white space and the host does not start with `tcp:` |
| `ConnStringForms.ParseAnySpelling` | src/vtab/mod.rs:451-467 | under any accepted keyword of each field, in any case, with blanks in it and white space around it, the six fields parse to the same configuration |
| `ConnStringForms.ServerSpellings` | src/vtab/mod.rs:451-452 | the keywords that set the server are `server` and `datasource`, in any case and spacing, and no others |
| `ConnStringForms.DatabaseSpellings` | src/vtab/mod.rs:451-461 | likewise `database` and `initialcatalog` for the database |
| `ConnStringForms.UserSpellings` | src/vtab/mod.rs:451-462 | likewise `userid`, `uid` and `user` for the user |
| `ConnStringForms.PasswordSpellings` | src/vtab/mod.rs:451-463 | likewise `password` and `pwd` for the password |
| `ConnStringForms.TrustSpellings` | src/vtab/mod.rs:451-464 | likewise `trustservercertificate` |
| `ConnStringForms.EncryptSpellings` | src/vtab/mod.rs:451-465 | likewise `encrypt` |
| `ConnStringForms.ReadAnyAssignment` | src/vtab/mod.rs:444-451 | a segment sets what its keyword says to its trimmed value, whatever white space is around either and `=` in the value |
| `ConnStringForms.FlagMeaning` | src/vtab/mod.rs:464-465 | trust is set by `true` in any case and nothing else, encryption turned off by `false` in any case and nothing else |
| `ConnStringForms.ServerForms` | src/vtab/mod.rs:452-459 | without a comma the server has no port of its own; else the port is what follows the last comma, 1433 if that is no port number |
| `ConnStringForms.StripTcpMeaning` | src/vtab/mod.rs:453 | every leading `tcp:` is taken off, and nothing else |
| `ConnStringForms.ParseU16Iff` | src/vtab/mod.rs:456 | a port number is a decimal below 2^16, perhaps behind zeros and a plus sign, and nothing else |
| `ConnStringForms.TrimMeaning` | src/vtab/mod.rs:444 | trimming takes off all white space at both ends and nothing else |
| `ConnStringForms.AcceptedIff` | src/vtab/mod.rs:443-450 | a string is accepted iff each of its segments is blank or has an `=` |
| `ConnStringForms.RejectedFor` | src/vtab/mod.rs:448-450 | otherwise the error is the first segment that does not, trimmed |
| `ConnStringForms.SettingsAre` | src/vtab/mod.rs:443-468 | the settings of a string are what its segments read as, blank and unrecognised ones left out |
| `ConnStringForms.ParsedSettingsHold` | src/vtab/mod.rs:443-468 | of several settings of a field the last holds in the result |
| `ConnStringForms.OmittedFieldsDefault` | src/vtab/mod.rs:435-441 | a field not set has its default: localhost, 1433, empty, trust off, encryption on; the port also if the server is set without one |

## Left out

- Backend drivers: sockets, TLS, row decoding. Each partition's outcome is an arbitrary list of rows or an error.
- Pool and future libraries beyond permits, completion in any order, in-order release and the join's pass over
  its slots. Schedules are any interleaving of permits, timeouts, completions and polls; the program's are
  among them. In particular its futures advance only while polled: `MaximalSchedulesDrain` allows for that,
  `WorkersNeverStall` says only that the consumer holds no permit. Whether the join reports a failure as soon
  as it sees one or only in partition order is the library's choice; `eager` stands for either.
- Snapshot isolation: `Database` fixes one result for all shards and one order for each `ORDER BY` clause.
- SQL text: quoting, `clean` (not idempotent: `a ; ;` becomes `a ;`, src/partition.rs:31-33), subselect
  wrapping, and the empty parameter lists of partitions.
- SQL Server in the end-to-end theorem: `LIMIT`/`OFFSET` is not T-SQL, and a `uniqueidentifier` key does not
  compare lexically (`UuidRange` treats that case on its own).
- UUID parsing and printing: a bound that does not parse is a missing parameter, a literal is the UUID itself.
- chrono's calendar, leap seconds and printed formats: dates are day numbers, instants nanoseconds, and a
  literal is what its format keeps of them.
- ByOffset: stops at the overflow; `UncheckedOverrunsIff` says what an unchecked build does next, but not
  whether it ever ends.
- StaleWritesCanLower: needs two seconds of clock per move, so it is stated for runs of fewer than 2^62 moves,
  because a longer one may not fit into `SystemTime`.
- Boundary steps, page offsets and bounds are machine integers inside the methods; the specification
  functions they are proved against are over unbounded integers.
- DuckDB's C interface: raw vector pointers and their types (a slot records the type it was written as),
  chunks that arrive with stale validity bits, and scanning from several threads (README.md:372 rules it out).
- Widths of the cell payloads in `ScanOut`, and how dates, times, UUIDs and documents print: `show` is any
  function that prints text as itself.
- The credential's network calls: a fetch is an arbitrary token or error. Expiry dates beyond the end of
  `SystemTime`, which panic.
- FetchBound: is about one sequential caller, because callers that miss together may each fetch; fetches that
  fail can repeat without bound and are counted apart.
- The few characters outside ASCII whose lower case is ASCII: none occurs in a keyword of the connection string.
- The configuration built from a parsed connection string beyond its seven fields (pool sizes), the other
  backends' connection strings, builders, error conversions, `Display`, examples, packaging.
