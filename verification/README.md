# A Dafny model of the read cache, counters and key encodings of Scylla

This project models parts of a Scylla release, the code under `Scylla-moon/`, and proves what they are for.
`dafny verify dfyconfig.toml` checks the whole project.

The parts have one thing in common: a simple specification, and a stateful implementation that has to agree with it.

* **Row cache.** `positions.dfy`, `cached_rows.dfy`, `cache_filling.dfy` and `cache_reader.dfy` model the reader that
  serves a partition from the cache and fills the cache from the underlying source on the way.  The cache is an ordered
  map from positions to entries.  An entry's continuity flag claims that the source has no uncached row between the
  entry and its predecessor.  Any number of readers share one snapshot; they may be interrupted after any row, and
  references may be invalidated, the version superseded, or the partition evicted, between any two stretches of
  work.  A reader's invariant speaks about the source, not about flags, which is why others cannot break it.
  Undisturbed, it also leaves in the cache what a second read needs.
* **Counters.** `counter_cells.dfy` has counter cells as values, with merging, difference and convergence.
  `counter_merge.dfy` has the in-place merge with its rollback, and the reversible apply with its revert, on arrays.
  `counter_updates.dfy` turns the deltas of a mutation into shards.  `counter_protocol.dfy` follows whole runs of
  updates under the cell lock, with failed writes and deletions, and clusters of replicas that exchange them.
* **Cell locks.** `cell_locking.dfy` and `cell_locking_runs.dfy` model the cell locker as steps of many operations:
  mutual exclusion, reference counting, lock order, progress and termination.
* **Ordered streams.** `ranges_walker.dfy` models the walker over clustering ranges, `clustering_bounds.dfy` the order
  of bounds and positions, `range_tombstones.dfy` the list of range tombstones, and `reversing_reader.dfy` the
  reader that reverses partitions.
* **Encodings.** `bytes_stream.dfy` models the chunked output stream, `legacy_keys.dfy` packed and legacy key forms,
  `durations.dfy` and `duration_texts.dfy` the building, parsing and printing of durations, `duration_meaning.dfy` what
  their texts stand for, letter by letter.
* **Snapshots.** `snapshot_manifest.dfy` models the barrier across shards that writes a snapshot's manifest.

`wrappers.dfy` and `sequences.dfy` hold what several parts share.

## Reading the model

* Positions inside a partition are ranks in their total order; a full clustering key owns three of them, before, at
  and after the row.  `ClusteringBounds.TotalOrder`, `KeyOwnsItsPositions` and `NoRowBetweenExact` are why ranks do.
  Components of keys are ranks in their column's order too.
* Bounds of range tombstones are cuts between rows: at each cut an end bound and a start bound touch, adjacent and
  inverse to each other, as `ClusteringBounds.NothingBetweenAdjacent` says of `bound_view`.
* The locker and the manifest barrier are written as state machines whose steps interleave freely.  Between two
  steps of the model nothing else happens, and the model cuts the program's steps finer than the reactor does.
* What a step takes from outside is a parameter: when the buffer is full, how much the source delivers, what
  memory held before, whether a write or the manifest failed.
* Ranges asked of the walker and ranges of a query are not empty and end no later than after all clustered rows.
* Counter values and clocks, chunk sizes and the semaphores' units are unbounded.  Durations have their 32 and 64
  bit limits, key lengths their 16 bits.

## Where code and comments differ

* `reset()` of the ranges walker is documented to keep all trims.  It keeps only the last trim that fell inside a range
  still ahead; `RangesWalker.TrimThenReset` says exactly when the trims survive, `ForgottenTrim` gives one that does not.
* Comparing two chunked streams does not end when one is a proper beginning of the other: the code then compares no
  bytes for ever.  `BytesStream.Equal` and `NeverEnds` have the two halves of the condition.
* `to_legacy()` sizes its buffer with `size()` and fills it from the iterator.  `LegacyKeys.SizeAgrees` shows that the
  two differ exactly on the empty key of a one-column type.
* Reverting an apply of one update to another does not give the update back; `CounterMerge.RevertApply` says so, and
  that it is the only such case.
* Durations that are zero or mix signs do not survive printing and parsing; `DurationTexts.PrintThenParse` has the exact
  condition.
* Deleting a counter cell forgets its local shard, so clocks may be used again and replicas may then disagree.
  `CounterProtocol.RisesExactly` and `DeadUpdatesShare` have the exact conditions, `ClockUsedTwice` a run,
  `ReusedClockDiverges` the consequence.
* A read is meant to leave in the cache what it read.  It does, but for a key that neither cache nor source have, when
  the entry that follows is not marked continuous and stands right after the key with nothing right before it, or not
  right after it with something right before it: then nothing, or an entry that is not marked, is left, and the next
  read asks the source again.  `CacheReaders.ReadTwice` has both halves, `ForgottenKeys` two such caches.
* In the cache reader, dummies do not advance the lower bound, so the source may be asked again about a stretch known
  to be free of rows.  Eviction clears a whole version and detaches it for good, so a reader that lost the entries it
  relied on can no longer mark anything continuous, not even in a range without a start bound.

## Model

| member | source | states |
|---|---|---|
| `CachedRows.LowerBound` | Scylla-moon/partition_snapshot_row_cursor.hh:157-254 | the entry found is in the cache, at or after the position, and no entry lies between |
| `CachedRows.PutKeepsInv` | Scylla-moon/cache_flat_mutation_reader.hh:44-63 | writing an entry keeps "a continuous entry hides no source row behind it" exactly when the flag it carries is earned |
| `CachedRows.ContinuousCovers` | Scylla-moon/cache_flat_mutation_reader.hh:507-523 | when the first entry at or after a position is continuous, the source has no row between the two |
| `CachedRows.SplitGap` | Scylla-moon/cache_flat_mutation_reader.hh:303-317 | an entry put right before a continuous one may carry its flag |
| `CacheReaders.ReaderInvStable` | Scylla-moon/cache_flat_mutation_reader.hh:85-92 | a reader's invariant survives every population, invalidation, superseding and eviction done by others |
| `CacheReaders.RangeDone` | Scylla-moon/cache_flat_mutation_reader.hh:461-469 | when the source has no more rows in the current range, the output is exact up to the start of the next one |
| `CacheReaders.EmitKeepsExact` | Scylla-moon/cache_flat_mutation_reader.hh:561-585 | emitting the next row of the source keeps the output exact, increasing and free of repetition |
| `CacheReaders.EnterKeepsInv` | Scylla-moon/cache_flat_mutation_reader.hh:471-504 | entering a range, served or not, anchored or not, establishes the reader's invariant |
| `CacheReaders.ServedFromCache` | Scylla-moon/cache_flat_mutation_reader.hh:471-504 | an adjacent or continuous first entry means the cache holds everything up to it |
| `CacheReaders.AdjacentCovers` | Scylla-moon/position_in_partition.hh:457-465 | no source row lies between adjacent positions |
| `CacheReaders.EarnsContinuity` | Scylla-moon/cache_flat_mutation_reader.hh:350-373 | reading the source up to an entry from a known predecessor, or from a missing start bound, earns it its continuity flag |
| `CacheReaders.PopulatedEntryIsTrue` | Scylla-moon/cache_flat_mutation_reader.hh:387-421 | the entry inserted for a row read from the source holds that row, and its flag is earned; that it is set whenever it can be is in ConsumeFragment and ConsumeTracks |
| `CacheReaders.ConsumeTracks` | Scylla-moon/cache_flat_mutation_reader.hh:387-421 | undisturbed, the row is put between the last entry and the next one, and leaves everything before it filled |
| `CacheReaders.ConsumeKeepsInv` | Scylla-moon/cache_flat_mutation_reader.hh:387-421 | taking a row from the source keeps the reader's invariant, whether or not the cache could be populated |
| `CacheReaders.CopyOutKeepsBase` | Scylla-moon/cache_flat_mutation_reader.hh:561-585 | copying a cached entry out keeps the output exact up to that entry |
| `CacheReaders.RefreshedServes` | Scylla-moon/cache_flat_mutation_reader.hh:274-302 | after the cursor lost its entry, the entry found again vouches for the rest of the range if it is continuous |
| `CacheReaders.PartitionSnapshot.Put` | Scylla-moon/cache_flat_mutation_reader.hh:387-421 | one entry is written and the cache stays truthful, provided the flag is earned |
| `CacheReaders.PartitionSnapshot.Invalidate` | Scylla-moon/partition_snapshot_row_cursor.hh:59-77 | the change mark moves on, contents stay |
| `CacheReaders.PartitionSnapshot.Supersede` | Scylla-moon/partition_version.hh:283-297 | the snapshot is no longer the latest version, for good |
| `CacheReaders.PartitionSnapshot.Evict` | Scylla-moon/partition_version.cc:757-769 | all entries but the last dummy go, the mark moves on and the version is never populated again |
| `CacheReaders.UnderlyingReader.FastForwardTo` | Scylla-moon/cache_flat_mutation_reader.hh:225-263 | forwarding moves to the first source row at or after the lower bound without going back |
| `CacheReaders.UnderlyingReader.NoneLeft` | Scylla-moon/cache_flat_mutation_reader.hh:266-347 | when the source yields nothing in the window, it has no row there |
| `CacheReaders.UnderlyingReader.NextIsFirst` | Scylla-moon/cache_flat_mutation_reader.hh:266-347 | the row the source yields is the first one from the lower bound on |
| `CacheReaders.CacheReader.constructor` | Scylla-moon/cache_flat_mutation_reader.hh:129-160 | a new reader satisfies the invariant and has emitted nothing |
| `CacheReaders.CacheReader.LookUp` | Scylla-moon/cache_flat_mutation_reader.hh:471-504 | finds the first entry at or after a position and whether the cache is complete up to it |
| `CacheReaders.CacheReader.LookUpRange` | Scylla-moon/cache_flat_mutation_reader.hh:471-504 | whether the cache can serve the start of the range, and the dummy left at the lower bound exactly when it cannot, the range has a start, is not a single key and the version can be populated |
| `CacheReaders.CacheReader.MoveToRange` | Scylla-moon/cache_flat_mutation_reader.hh:471-504 | the reader serves the range from the cache exactly when the first entry is adjacent or continuous; otherwise a dummy is left at the lower bound exactly when the range has a start, is not a single key and the version can be populated; nothing else changes |
| `CacheReaders.CacheReader.MoveToNextRange` | Scylla-moon/cache_flat_mutation_reader.hh:461-469 | advances one range, or ends, keeping the output exact |
| `CacheReaders.CacheReader.AdvanceCursor` | Scylla-moon/cache_flat_mutation_reader.hh:507-523 | the next entry is served exactly if it is marked |
| `CacheReaders.CacheReader.MoveToEnd` | Scylla-moon/cache_flat_mutation_reader.hh:454-458 | ends the stream, which keeps the invariant only when the rows emitted are exactly those of the source inside all the ranges |
| `CacheReaders.CacheReader.AddNextRowToBuffer` | Scylla-moon/cache_flat_mutation_reader.hh:561-585 | emits the entry under the cursor unless it is a dummy, and remembers it as the last row |
| `CacheReaders.CacheReader.MoveToNextEntry` | Scylla-moon/cache_flat_mutation_reader.hh:507-523 | goes on in the cache, to the source, or to the next range, losing no row |
| `CacheReaders.CacheReader.CopyFromCacheToBuffer` | Scylla-moon/cache_flat_mutation_reader.hh:435-451 | copies one entry out and moves on; the invariant holds and the reader has advanced |
| `CacheReaders.CacheReader.Populate` | Scylla-moon/cache_flat_mutation_reader.hh:387-421 | exactly the entry of the row read is written, if the version is latest, and the cache stays truthful |
| `CacheReaders.CacheReader.ConsumeFragment` | Scylla-moon/cache_flat_mutation_reader.hh:387-421 | exactly one entry is written, for the row read, if the version is latest, and it is marked continuous exactly when the range has no start, the entry before it is known, or it was marked already; the row is emitted in either case |
| `CacheReaders.CacheReader.MaybeUpdateContinuity` | Scylla-moon/cache_flat_mutation_reader.hh:350-373 | exactly the next entry is marked continuous, exactly when the predecessor is known and the version is latest; the cache stays truthful |
| `CacheReaders.CacheReader.InsertAbsentRow` | Scylla-moon/cache_flat_mutation_reader.hh:303-317 | the absent row is cached as an empty one under the following entry's continuity, nothing else changes, and the cache stays truthful |
| `CacheReaders.CacheReader.InsertUpperBoundDummy` | Scylla-moon/cache_flat_mutation_reader.hh:318-333 | the end of the range gets a continuous entry, nothing else changes, and the cache stays truthful |
| `CacheReaders.CacheReader.PopulateEnd` | Scylla-moon/cache_flat_mutation_reader.hh:298-335 | which entry is left at the end of a range: the one right after it marked, the absence of the one key recorded under the continuity of what follows, or a marked dummy, exactly under the guards of the source |
| `CacheReaders.EndTracks` | Scylla-moon/cache_flat_mutation_reader.hh:298-335 | undisturbed, that makes the range filled, but for the reads that Missed describes |
| `CacheReaders.CacheReader.FinishRange` | Scylla-moon/cache_flat_mutation_reader.hh:286-345 | populates the end of the range and goes to the next one, with all ranges behind it filled or missed |
| `CacheReaders.CacheReader.LeaveWindow` | Scylla-moon/cache_flat_mutation_reader.hh:286-345 | passes the entry under the cursor, or finishes the range |
| `CacheReaders.CacheReader.RefreshCursor` | Scylla-moon/cache_flat_mutation_reader.hh:277-285 | finds the cursor's place again and tells whether its entry is still there |
| `CacheReaders.CacheReader.PassNextEntry` | Scylla-moon/cache_flat_mutation_reader.hh:286-302 | the source was read up to the entry under the cursor: marks it if earned and goes on from it |
| `CacheReaders.CacheReader.Rejoin` | Scylla-moon/cache_flat_mutation_reader.hh:286-302 | when the cursor found another entry, further on, the cache goes on exactly if that entry is continuous |
| `CacheReaders.CacheReader.OnUnderlyingEnd` | Scylla-moon/cache_flat_mutation_reader.hh:274-345 | whatever happened to the cursor meanwhile, the end of the source's window leads to a valid state further on |
| `CacheReaders.CacheReader.TakeFromUnderlying` | Scylla-moon/cache_flat_mutation_reader.hh:266-273 | takes exactly the next row of the source |
| `CacheReaders.CacheReader.TakeRows` | Scylla-moon/cache_flat_mutation_reader.hh:266-273 | takes rows until the buffer is full or the source has none left in the window |
| `CacheReaders.CacheReader.ReadFromUnderlying` | Scylla-moon/cache_flat_mutation_reader.hh:266-347 | reads any number of rows, to any point of interruption, keeping the invariant and making progress |
| `CacheReaders.CacheReader.ReacquireCursor` | Scylla-moon/cache_flat_mutation_reader.hh:225-263 | after an invalidation the reader continues from its lower bound, in the cache exactly when the entry found is adjacent or continuous |
| `CacheReaders.CacheReader.CopyRows` | Scylla-moon/cache_flat_mutation_reader.hh:247-258 | copies entries until the buffer is full, the fiber is preempted or the cache cannot serve; leaves the cache only when it does not hold all ranges |
| `CacheReaders.CacheReader.ReadFromCache` | Scylla-moon/cache_flat_mutation_reader.hh:225-263 | copies any number of entries, to any point of interruption, keeping the invariant and making progress |
| `CacheReaders.CacheReader.Start` | Scylla-moon/cache_flat_mutation_reader.hh:198-222 | enters the first range, or ends if there is none |
| `CacheReaders.CacheReader.ForwardUnderlying` | Scylla-moon/cache_flat_mutation_reader.hh:225-263 | the source stands where the reader is and yields up to the entry under the cursor or the end of the range |
| `CacheReaders.CacheReader.FillBuffer` | Scylla-moon/cache_flat_mutation_reader.hh:198-222 | one stretch of work keeps the invariant, only appends to the output and advances unless it has ended |
| `CacheReaders.CacheReader.ReadToEnd` | Scylla-moon/cache_flat_mutation_reader.hh:198-222 | from every valid state and for every choice of interruption points the reader comes to the end, and its output, empty rows aside, is the source's rows inside the ranges, in order, each once; a reader that starts afresh asks the source exactly when the cache does not hold all its ranges, and leaves each range filled exactly when it is not missed |
| `CacheReaders.ReadTwice` | Scylla-moon/cache_flat_mutation_reader.hh:198-523 | a second reader of the same ranges, with nobody else around, asks the source again if and only if the first one had to read a key that neither cache nor source had, and that Missed says cannot be remembered |
| `CacheReaders.ForgottenKeys` | Scylla-moon/cache_flat_mutation_reader.hh:298-317 | two caches in which such a key is forgotten: a dummy right after it and none right before it, and the other way round |
| `CacheFilling.WriteKeepsOthers` | Scylla-moon/cache_flat_mutation_reader.hh:266-347 | a write for one range keeps what is known of all the others |
| `CacheFilling.MissedUnfilled` | Scylla-moon/cache_flat_mutation_reader.hh:303-317 | a range that will be missed is not filled |
| `CacheFilling.TakenIsBehind` | Scylla-moon/cache_flat_mutation_reader.hh:387-421 | a row put between two entries, marked unless nothing before it is known, keeps everything up to it filled |
| `CacheFilling.PassedIsFilled` | Scylla-moon/cache_flat_mutation_reader.hh:286-297 | so does marking the entry at which the source was read to its end |
| `CacheFilling.EndsMarked` | Scylla-moon/cache_flat_mutation_reader.hh:298-299 | marking the entry right after the end fills the range |
| `CacheFilling.EndsUnmarked` | Scylla-moon/cache_flat_mutation_reader.hh:298-299 | not marking it, for want of an entry before it, is a miss exactly if it was not marked before |
| `CacheFilling.EndsAbsent` | Scylla-moon/cache_flat_mutation_reader.hh:303-317 | recording the absence of a key fills its range exactly if that was not to be missed |
| `CacheFilling.EndsWithDummy` | Scylla-moon/cache_flat_mutation_reader.hh:318-333 | a marked dummy at the end fills the range |
| `CacheReaders.ExactIsSelection` | Scylla-moon/cache_flat_mutation_reader.hh:198-222 | an exact output is the source's rows inside the ranges |
| `CacheReaders.IncreasingUnique` | Scylla-moon/cache_flat_mutation_reader.hh:198-222 | two increasing outputs with the same rows are the same output |
| `CacheReaders.StepReader` | Scylla-moon/cache_flat_mutation_reader.hh:225-263 | a step of one reader keeps every other reader valid, and brings that reader further unless it has ended or lost its cursor |
| `CacheReaders.StepCache` | Scylla-moon/partition_version.cc:757-769 | an invalidation, a newer version or an eviction does to the mark, the version and the entries what it should and keeps every reader valid |
| `CacheReaders.Step` | Scylla-moon/cache_flat_mutation_reader.hh:198-523 | any one event |
| `CacheReaders.Delivered` | Scylla-moon/cache_flat_mutation_reader.hh:198-523 | what valid readers have delivered |
| `CacheReaders.Run` | Scylla-moon/cache_flat_mutation_reader.hh:198-523 | for every interleaving of any number of readers with invalidation, newer versions and eviction: at every point each output is a sound, increasing part of the source's rows that only grows, each finished reader has delivered all of them, each reader that was scheduled has started, and the change mark and the version have moved as scheduled |
| `CounterCells.CombineSorted` | Scylla-moon/combine.hh:33-56 | merging sorted shard lists gives a sorted list |
| `CounterCells.CombineIn` | Scylla-moon/combine.hh:33-56 | of shards of either |
| `CounterCells.CombineById` | Scylla-moon/combine.hh:33-56 | for each id the merge holds the shard with the larger clock |
| `CounterCells.Canonical` | Scylla-moon/counters.hh:364-372 | a sorted shard list is determined by what it holds for each id |
| `CounterCells.ComputeCombine` | Scylla-moon/combine.hh:33-56 | the loop computes the merge |
| `CounterCells.CombineCommutes` | Scylla-moon/counters.cc:152-196 | two shard lists merge the same both ways exactly when shards of equal id and clock are equal |
| `CounterCells.CombineAssociates` | Scylla-moon/counters.cc:152-196 | merging shard lists is associative |
| `CounterCells.CombineIdempotent` | Scylla-moon/counters.cc:152-196 | merging a shard list with itself changes nothing |
| `CounterCells.MergeCommutes` | Scylla-moon/counters.cc:152-196 | merging cells, live or dead, commutes when equal id and clock imply equal value |
| `CounterCells.MergeAssociates` | Scylla-moon/database.cc:2804-2836 | merging cells, live or dead, is associative |
| `CounterCells.MergeIdempotent` | Scylla-moon/counters.cc:152-196 | merging a cell with itself changes nothing |
| `CounterCells.MergeAllIncludes` | Scylla-moon/counters.cc:152-196 | after any sequence of applies the cell includes all that were applied |
| `CounterCells.MergeAllLeast` | Scylla-moon/counters.cc:152-196 | and is the least cell that does |
| `CounterCells.Convergence` | Scylla-moon/counters.cc:152-196 | replicas that apply the same cells in any order and with any repetition end with the same cell |
| `CounterCells.LatestTombstoneWins` | Scylla-moon/database.cc:2804-2836 | of any sequence of cells with a dead one among them, the dead one with the largest timestamp, and then the largest deletion time as an unsigned number, is left |
| `CounterCells.LargestClocksWin` | Scylla-moon/counters.cc:152-196 | of any sequence of live cells, the largest timestamp and for each id a shard with the largest clock are left |
| `CounterCells.DeltasAddUp` | Scylla-moon/counters.cc:167-172 | of any sequence of updates, the sum of the deltas and the largest timestamp are left |
| `CounterCells.ComputeFresh` | Scylla-moon/counters.cc:212-250 | the loop of difference() collects exactly the shards that are newer than, or missing from, the other cell |
| `CounterCells.FreshById` | Scylla-moon/counters.cc:212-250 | for each id the difference holds a's shard exactly if b's is missing or older |
| `CounterCells.DifferenceSuffices` | Scylla-moon/counters.cc:212-250 | applying the difference to b gives what applying a to b gives, in all cases of live and dead cells and of timestamps alone; no difference means a adds nothing |
| `CounterCells.DifferenceMinimal` | Scylla-moon/counters.cc:212-250 | any cell that does the same job holds every shard of the difference, and doing nothing would not do |
| `CounterMerge.AppliedIsCombine` | Scylla-moon/counters.cc:81-123 | applying shard by shard over dst is the sorted merge |
| `CounterMerge.UndoneMergesSame` | Scylla-moon/counters.cc:176-195 | what an undone attempt leaves in src merges into dst like the original src |
| `CounterMerge.TradeNext` | Scylla-moon/counters.cc:81-123 | one trade between the buffers |
| `CounterMerge.TradeBack` | Scylla-moon/counters.cc:81-123 | one trade undone |
| `CounterMerge.UndoTrades` | Scylla-moon/counters.cc:81-123 | the backward walk restores dst exactly and leaves each traded shard of src as itself or the winner |
| `CounterMerge.ApplyInPlace` | Scylla-moon/counters.cc:81-123 | succeeds exactly when dst has a shard for each of src's; then dst is the merge and src holds what dst had; otherwise dst is as before and src still merges to the same result |
| `CounterMerge.RevertInPlace` | Scylla-moon/counters.cc:125-150 | undoing a successful in-place merge restores dst exactly |
| `CounterMerge.TradeAllBack` | Scylla-moon/counters.cc:125-150 | the loop that trades the shards back |
| `CounterMerge.Swap` | Scylla-moon/counters.cc:198-210 | two cells trade everything |
| `CounterMerge.TryInPlace` | Scylla-moon/counters.cc:176-195 | the in-place path gives the merged cell and something to revert from, or changes nothing that matters |
| `CounterMerge.ApplyReversibly` | Scylla-moon/counters.cc:152-196 | dst becomes the merge on the swap, in-place and rebuilt paths; tells exactly when there is something to revert; src is left so that it can be |
| `CounterMerge.RevertApply` | Scylla-moon/counters.cc:198-210 | restores dst exactly if and only if the two cells were not both updates; for two updates it leaves a plain live cell; otherwise src merges again to the same result |
| `CounterMerge.MergeAgain` | Scylla-moon/counters.cc:152-196 | applying a merged cell again changes nothing |
| `CounterMerge.ApplyRevertApply` | Scylla-moon/counters.cc:152-210 | apply, revert, apply ends where the first apply did, with dst as before in between |
| `CounterUpdates.LocalShardsAnswer` | Scylla-moon/counters.cc:278-314 | the queue built from the stored row holds for each column the local shard of its cell |
| `CounterUpdates.TransformedCounts` | Scylla-moon/counters.cc:293-313 | the computed shard, applied to the stored cell, adds the delta to the local shard under a clock larger by one and the failures counted, and changes no other |
| `CounterUpdates.TransformedKeepsTime` | Scylla-moon/counters.cc:293-313 | it keeps the timestamp of the delta; cells that are not updates pass |
| `CounterUpdates.PopBelow` | Scylla-moon/counters.cc:278-314 | drops the queued shards of columns that are not touched and no others |
| `CounterUpdates.TransformNext` | Scylla-moon/counters.cc:278-314 | one delta becomes the shard that continues the stored local shard of its column |
| `CounterUpdates.TransformRow` | Scylla-moon/counters.cc:278-314 | walking mutation and stored row side by side transforms each cell as looking up its column would |
| `CounterUpdates.TransformNewRow` | Scylla-moon/counters.cc:256-267 | without a stored row every delta starts a shard |
| `CounterUpdates.TransformRows` | Scylla-moon/counters.cc:316-330 | walking the rows of mutation and stored state side by side finds for each row its stored one, or none |
| `CounterUpdates.TransformMutation` | Scylla-moon/counters.cc:253-331 | every cell of the static row and of all rows is transformed as looking up its row and column in the stored state would, with or without a stored state |
| `CounterUpdates.RemoveDuplicates` | Scylla-moon/counters.cc:54-69 | for shards in any order, sorted by id: the result is sorted and has for each id one of the shards with its largest clock |
| `CounterUpdates.OrderDoesNotShow` | Scylla-moon/counters.cc:54-69 | the result does not depend on the order in which shards were added, nor on how the sort breaks ties, if equal id and clock imply equal value |
| `CounterProtocol.MergeLocal` | Scylla-moon/counters.cc:152-196 | the local shard after an apply is the newer of the stored and the applied one |
| `CounterProtocol.StepKeepsInv` | Scylla-moon/database.cc:3079-3134 | each step of an update, and each deletion, keeps the node's invariant |
| `CounterProtocol.RunsAreSafe` | Scylla-moon/database.cc:3079-3134 | in every run, with writes failing or succeeding in the memtable and deletions at any time: as long as the cell is live the clocks of emitted local shards strictly rise and the stored value is the sum of the applied deltas |
| `CounterProtocol.StaysDead` | Scylla-moon/counters.cc:152-165 | a deleted cell stays deleted, whatever is applied to it |
| `CounterProtocol.FailuresCounted` | Scylla-moon/database.cc:3050-3062 | the failure count grows by exactly the failures between two points of a run |
| `CounterProtocol.DeadUpdatesShare` | Scylla-moon/counters.cc:278-314 | the clocks of two updates of a deleted cell differ by the failures counted between them, so they share one exactly when there was none |
| `CounterProtocol.RisesExactly` | Scylla-moon/database.cc:3050-3062 | in every run, with deletions, the clocks of emitted shards strictly rise if and only if, at each update of a deleted cell, more failures were counted since the update before it than the clock that one had read |
| `CounterProtocol.ClockUsedTwice` | Scylla-moon/counters.cc:278-314 | a run in which they do not: an update, a deletion and an update that takes the first one's clock for another value |
| `CounterProtocol.EmittedNeverConflict` | Scylla-moon/database.cc:3050-3062 | no two emitted shards share a clock and differ, under that condition |
| `CounterProtocol.DeliveryEnabled` | Scylla-moon/counters.cc:152-196 | what a replica receives about itself is never newer than what it has applied, while it has the cell |
| `CounterProtocol.SentStays` | Scylla-moon/database.cc:3079-3134 | what was sent stays deliverable, and sending a cell adds it |
| `CounterProtocol.EventKeepsInv` | Scylla-moon/database.cc:3079-3134 | a step of a replica, sending an applied update or a whole cell, and a delivery keep the cluster's invariant |
| `CounterProtocol.ClustersAreSafe` | Scylla-moon/database.cc:3079-3134 | in every history of a cluster every shard of every cell, stored or under way, was computed by the replica it names |
| `CounterProtocol.PoolIsFunctional` | Scylla-moon/database.cc:3050-3062 | and no two such shards of one id and clock differ, under the condition of RisesExactly |
| `CounterProtocol.ReplicasConverge` | Scylla-moon/counters.cc:152-196 | so replicas that have seen the same cells of a history, in any order and with any repetition, hold the same cell |
| `CounterProtocol.Arrives` | Scylla-moon/counters.cc:152-196 | a cell that is sent can be delivered to any replica, which then holds the merge of the two, and nobody else changes |
| `CounterProtocol.ExchangeAgrees` | Scylla-moon/counters.cc:152-196 | two replicas that send each other their cells end with the same one, under the condition of RisesExactly |
| `CounterProtocol.OrderFreeExactly` | Scylla-moon/counters.cc:152-196 | a replica without the cell ends the same for every order and choice of deliveries if and only if no two shards sent share id and clock but not the value |
| `CounterProtocol.ReusedClockDiverges` | Scylla-moon/counters.cc:278-314 | in every run where a clock was used for two values in applied updates, there are orders of delivery with different results |
| `CellLocking.Linked` | Scylla-moon/cell_locking.hh:157-205 | a cell an operation refers to is linked, and its partition entry counts it |
| `CellLocking.Alive` | Scylla-moon/cell_locking.hh:410-458 | a partition entry lives as long as an operation is part-way through it |
| `CellLocking.TakeUpKeepsInv` | Scylla-moon/cell_locking.hh:504-532 | taking up the next cell, new, free or queued for, keeps the invariant |
| `CellLocking.Passes` | Scylla-moon/seastar/core/semaphore.hh:154-168 | passing a free semaphore keeps units plus owners at one |
| `CellLocking.Queues` | Scylla-moon/seastar/core/semaphore.hh:154-168 | so does joining the queue |
| `CellLocking.LockFreshKeepsInv` | Scylla-moon/cell_locking.hh:460-494 | locking all cells of a partition that has no entry links and counts them all |
| `CellLocking.RunGrantedKeepsInv` | Scylla-moon/cell_locking.hh:518-523 | the continuation of a granted wait turns the grant into a lock |
| `CellLocking.ExpireKeepsInv` | Scylla-moon/seastar/core/semaphore.hh:154-168 | a wait that times out leaves the queue and nothing else |
| `CellLocking.UnlockedOps` | Scylla-moon/seastar/core/semaphore.hh:193-204 | unlocking hands the unit to the oldest waiter and to no one else |
| `CellLocking.SoleOwner` | Scylla-moon/cell_locking.hh:394-408 | an operation that holds a cell is its only owner |
| `CellLocking.UnlockKeepsInv` | Scylla-moon/cell_locking.hh:394-408 | releasing a lock, with the destruction of the entry when it was the last reference, keeps the invariant |
| `CellLocking.CollectKeepsInv` | Scylla-moon/cell_locking.hh:197-205 | destroying an unreferenced entry unlinks it, counts it off and drops an empty partition entry |
| `CellLocking.DropAwaitedKeepsInv` | Scylla-moon/cell_locking.hh:518-523 | so does letting go of the cell waited for |
| `CellLockingRuns.StepKeepsInv` | Scylla-moon/cell_locking.hh:460-532 | every step of every operation keeps the invariant |
| `CellLockingRuns.RunsAreSafe` | Scylla-moon/cell_locking.hh:157-205 | in every reachable state: semaphore units plus operations that passed it equal one for each linked cell, a queue means no units, no two operations own the same cell, held cells are linked, counters equal the linked cells, and partition entries live while an operation is part-way |
| `CellLockingRuns.Exclusive` | Scylla-moon/cell_locking.hh:394-408 | no cell has two owners |
| `CellLockingRuns.CompletesWithAll` | Scylla-moon/cell_locking.hh:448-458 | a call that completes holds exactly the cells asked for |
| `CellLockingRuns.AllFinishedIsEmpty` | Scylla-moon/cell_locking.hh:377-379 | when all calls are over no cell and no partition entry is left |
| `CellLockingRuns.WaitsForSomebody` | Scylla-moon/cell_locking.hh:504-532 | a queued operation waits for one that owns the cell |
| `CellLockingRuns.WaitsForRises` | Scylla-moon/cell_locking.hh:504-532 | if that one is queued too, it is on a later cell of the same partition |
| `CellLockingRuns.NoCycle` | Scylla-moon/cell_locking.hh:504-532 | no operation waits, through any chain, for itself |
| `CellLockingRuns.LeadsToOneThatCanGoOn` | Scylla-moon/cell_locking.hh:504-532 | every chain of waiting ends at an operation that is not queued |
| `CellLockingRuns.CanStep` | Scylla-moon/cell_locking.hh:448-532 | which has a step of its own |
| `CellLockingRuns.CanExpire` | Scylla-moon/seastar/core/semaphore.hh:154-168 | a queued operation can give up at any time |
| `CellLockingRuns.Reachable` | Scylla-moon/cell_locking.hh:157-205 | every state of a run satisfies the invariant |
| `CellLockingRuns.StuckMeansDone` | Scylla-moon/cell_locking.hh:448-532 | a state where nobody can go on without timing out is one where all calls are over and the locker is empty |
| `CellLockingRuns.RunsAreFinite` | Scylla-moon/cell_locking.hh:448-532 | no run from an initial state is longer than the steps its operations have to take |
| `CellLockingRuns.FirstComeFirstServed` | Scylla-moon/seastar/core/semaphore.hh:145-168 | no step of anybody lets a later waiter be served before an earlier one; waiters leave the queue out of turn only by timing out |
| `CellLockingRuns.NextCell` | Scylla-moon/cell_locking.hh:504-516 | the cursor walk yields the next cell of the mutation, skipping empty and exhausted rows |
| `CellLockingRuns.AllCells` | Scylla-moon/cell_locking.hh:475-487 | the loops over a partition without an entry visit the same cells |
| `CellLockingRuns.WalkIsComplete` | Scylla-moon/cell_locking.hh:504-532 | the walk visits every cell the mutation writes, each once and no others, in increasing order |
| `CellLockingRuns.LocksItsMutation` | Scylla-moon/cell_locking.hh:460-532 | in every run of calls for mutations, a call that gets its locks has exactly those of the cells its mutation writes |
| `CellLockingRuns.RunKeepsPlans` | Scylla-moon/cell_locking.hh:410-458 | no step changes what a call has to lock |
| `CellLockingRuns.StartedIsInitial` | Scylla-moon/cell_locking.hh:460-494 | calls for any mutations make an initial state |
| `CellLockingRuns.RestIncreasing` | Scylla-moon/cell_locking.hh:91-103 | the cells of a mutation are visited in strictly increasing order of row and column |
| `RangesWalker.NextDrops` | Scylla-moon/clustering_ranges_walker.hh:43-59 | leaving a range leaves exactly the positions after it |
| `RangesWalker.SkipFollows` | Scylla-moon/clustering_ranges_walker.hh:125-143 | skipping ahead loses no position from the one searched for on |
| `RangesWalker.SkipTracks` | Scylla-moon/clustering_ranges_walker.hh:125-143 | after skipping, a position is in the current range exactly when it is wanted and not trimmed |
| `RangesWalker.SkipOverlaps` | Scylla-moon/clustering_ranges_walker.hh:149-162 | after skipping, the current range starts before e exactly when a wanted, untrimmed position lies in [s, e) |
| `RangesWalker.CutInside` | Scylla-moon/clustering_ranges_walker.hh:105-120 | cutting inside a range removes exactly the positions before the cut |
| `RangesWalker.CutBefore` | Scylla-moon/clustering_ranges_walker.hh:105-120 | so does stopping in front of a range |
| `RangesWalker.Walker.constructor` | Scylla-moon/clustering_ranges_walker.hh:61-79 | a new walker has everything wanted ahead of it |
| `RangesWalker.Walker.AdvanceToNextRange` | Scylla-moon/clustering_ranges_walker.hh:43-59 | moves to the next place and moves the change counter when the place changes |
| `RangesWalker.Walker.TrimFront` | Scylla-moon/clustering_ranges_walker.hh:105-120 | exactly the positions before pos are excluded; the trim is remembered exactly when it splits a remaining range; the counter moves when the lower bound does |
| `RangesWalker.Walker.AdvanceTo` | Scylla-moon/clustering_ranges_walker.hh:125-143 | the answer is membership in the wanted positions that were not trimmed |
| `RangesWalker.Walker.AdvanceToRange` | Scylla-moon/clustering_ranges_walker.hh:149-162 | the answer is whether the range has a wanted position that was not trimmed |
| `RangesWalker.Walker.ContainsTombstone` | Scylla-moon/clustering_ranges_walker.hh:169-190 | the answer is whether the range has a clustered position that remains, for questions in any order |
| `RangesWalker.Walker.OutOfRange` | Scylla-moon/clustering_ranges_walker.hh:193-195 | true exactly when nothing remains |
| `RangesWalker.Walker.LowerBound` | Scylla-moon/clustering_ranges_walker.hh:210-212 | the smallest position that remains |
| `RangesWalker.Walker.Reset` | Scylla-moon/clustering_ranges_walker.hh:199-207 | afterwards exactly the wanted positions from the remembered trim on remain, and the counter has moved |
| `RangesWalker.Run` | Scylla-moon/clustering_ranges_walker.hh:105-162 | for every run of increasing questions mixed with trims, all answers are those of the plain ranges minus the trimmed positions |
| `RangesWalker.TrimThenReset` | Scylla-moon/clustering_ranges_walker.hh:197-207 | the comment says trims still hold after reset(); from any state they do if and only if no wanted position lies between the trim remembered, which is the last one that split a range still ahead, and the largest |
| `RangesWalker.ClearExactly` | Scylla-moon/clustering_ranges_walker.hh:197-207 | that no range reaches in between is the same as no wanted position lying there |
| `RangesWalker.FirstTrimThenReset` | Scylla-moon/clustering_ranges_walker.hh:197-207 | for a new walker that is exactly when the trim falls inside a range or excludes nothing |
| `RangesWalker.ForgottenTrim` | Scylla-moon/clustering_ranges_walker.hh:112-117 | a trim between two ranges is one that is forgotten |
| `ClusteringBounds.PrefixCompare` | Scylla-moon/types.hh:182-195 | the loop returns the first difference of the common components |
| `ClusteringBounds.ComparesMarked` | Scylla-moon/clustering_bounds_comparator.hh:68-81 | the comparator agrees with lexicographic order of the components followed by an end mark, which sorts below every component for weights up to zero and above for positive ones |
| `ClusteringBounds.TotalOrder` | Scylla-moon/clustering_bounds_comparator.hh:68-81 | the comparator is a total order on all prefixes and weights |
| `ClusteringBounds.LexicographicAntisymmetric` | Scylla-moon/clustering_bounds_comparator.hh:68-81 | the reference order is antisymmetric |
| `ClusteringBounds.LexicographicTransitive` | Scylla-moon/clustering_bounds_comparator.hh:68-81 | and transitive |
| `ClusteringBounds.BetweenBounds` | Scylla-moon/clustering_bounds_comparator.hh:127-138 | a full key is in a range exactly when it lies strictly between the range's bounds |
| `ClusteringBounds.NothingBetweenAdjacent` | Scylla-moon/clustering_bounds_comparator.hh:116-118 | of two adjacent bounds the end of a range is the lower one, and every key lies below both or above both |
| `ClusteringBounds.KindsInOrder` | Scylla-moon/keys.cc:84-96 | at one prefix: exclusive end, inclusive start, inclusive end, exclusive start |
| `ClusteringBounds.EndMeetsStart` | Scylla-moon/keys.cc:84-96 | at one prefix an end comes before a start if and only if no full key lies after the start and before the end |
| `ClusteringBounds.BoundsNest` | Scylla-moon/clustering_bounds_comparator.hh:68-81 | an earlier bound has all the keys after it that a later one has |
| `ClusteringBounds.KeyOwnsItsPositions` | Scylla-moon/position_in_partition.hh:370-382 | nothing lies among the positions just before, at and just after a full key but those three |
| `ClusteringBounds.NoRowBetweenExact` | Scylla-moon/position_in_partition.hh:457-465 | on positions of one prefix the test is right about full keys, both ways, provided rows have full keys |
| `RangeTombstones.InsertedChained` | Scylla-moon/range_tombstone_list.cc:78-199 | inserting keeps the list ordered and free of overlaps |
| `RangeTombstones.InsertedMeaning` | Scylla-moon/range_tombstone_list.cc:78-199 | after inserting, each row is deleted by the newest of what deleted it before and the new tombstone |
| `RangeTombstones.AppliedOrdered` | Scylla-moon/range_tombstone_list.cc:39-65 | applying any tombstone keeps the list ordered and free of overlaps |
| `RangeTombstones.AppliedMeaning` | Scylla-moon/range_tombstone_list.cc:39-65 | and gives each row the newest of its deletions |
| `RangeTombstones.TombstoneList.Apply` | Scylla-moon/range_tombstone_list.cc:39-65 | the list in place: ordered, and the meaning of the old one joined with the new tombstone |
| `RangeTombstones.TombstoneList.UpperBound` | Scylla-moon/range_tombstone_list.cc:46-57 | finds the first tombstone that ends after the new one starts |
| `RangeTombstones.TombstoneList.InsertFrom` | Scylla-moon/range_tombstone_list.cc:78-199 | the loop computes the insertion |
| `RangeTombstones.TombstoneList.InsertStep` | Scylla-moon/range_tombstone_list.cc:97-192 | one turn of the loop |
| `RangeTombstones.TombstoneList.OverwriteOlder` | Scylla-moon/range_tombstone_list.cc:130-156 | an older tombstone gives way where they overlap |
| `RangeTombstones.TombstoneList.KeepNewer` | Scylla-moon/range_tombstone_list.cc:157-191 | a newer tombstone stays, and the new one goes around it |
| `ReversingReader.EmissionDescends` | Scylla-moon/flat_mutation_reader.hh:74-83 | rows and tombstones, the latter by their ends, come in strictly descending order |
| `ReversingReader.EmissionKeepsAll` | Scylla-moon/flat_mutation_reader.cc:56-82 | every row and every tombstone is emitted once, in reverse |
| `ReversingReader.DeletionsComeFirst` | Scylla-moon/flat_mutation_reader.hh:74-83 | a tombstone comes before every row it covers |
| `ReversingReader.CollectedMeaning` | Scylla-moon/flat_mutation_reader.cc:100-101 | the collected list deletes exactly what the partition's tombstones delete |
| `ReversingReader.ReversedMeaning` | Scylla-moon/flat_mutation_reader.hh:74-83 | a reversed partition has the same rows, the other way round, and the same deletions |
| `ReversingReader.ExpectedIsReversed` | Scylla-moon/flat_mutation_reader.cc:83-107 | partitions stay in order and each is reversed |
| `ReversingReader.Reader.Push` | Scylla-moon/flat_mutation_reader.hh:99-103 | appends to the buffer and counts its size |
| `ReversingReader.Reader.EmitRowOrTombstone` | Scylla-moon/flat_mutation_reader.cc:65-73 | emits the tombstone that is due, else the row on top |
| `ReversingReader.Reader.EmitRows` | Scylla-moon/flat_mutation_reader.cc:65-73 | emits in order while there is room, losing nothing |
| `ReversingReader.Reader.EmitTombstones` | Scylla-moon/flat_mutation_reader.cc:74-76 | likewise for the tombstones before the first row |
| `ReversingReader.Reader.EmitPartition` | Scylla-moon/flat_mutation_reader.cc:56-82 | what was and will be emitted stays the same; asks to stop exactly when the partition is not fully emitted |
| `ReversingReader.Reader.Take` | Scylla-moon/flat_mutation_reader.cc:91-105 | passing on or keeping a fragment does not change what was and will be emitted |
| `ReversingReader.Reader.Consume` | Scylla-moon/flat_mutation_reader.cc:91-105 | nor does emitting the partition once it is complete |
| `ReversingReader.Reader.ConsumeFromSource` | Scylla-moon/flat_mutation_reader.cc:83-107 | nor does asking the source for more or noticing its end |
| `ReversingReader.Reader.FillBuffer` | Scylla-moon/flat_mutation_reader.cc:115-127 | fills the buffer or comes to the end, without changing what was and will be emitted |
| `ReversingReader.Reader.Next` | Scylla-moon/flat_mutation_reader.hh:130-145 | returns the next fragment, or none exactly at the end |
| `ReversingReader.ReadAll` | Scylla-moon/flat_mutation_reader.cc:56-127 | for every buffer limit, fragment size and way the source delivers, reading to the end gives the reversed stream |
| `BytesStream.GrowsKeepsPlaces` | Scylla-moon/bytes_ostream.hh:31-35 | places keep their meaning while the stream grows |
| `BytesStream.GrowsPrefix` | Scylla-moon/bytes_ostream.hh:31-35 | what was written stays in front |
| `BytesStream.FilledBytes` | Scylla-moon/bytes_ostream.hh:183-203 | filling a place overwrites exactly its bytes |
| `BytesStream.FilledKeepsPlaces` | Scylla-moon/bytes_ostream.hh:183-203 | and moves no other place |
| `BytesStream.CutBytes` | Scylla-moon/bytes_ostream.hh:326-337 | going back leaves exactly the bytes before the position |
| `BytesStream.CutKeepsPlaces` | Scylla-moon/bytes_ostream.hh:326-337 | positions no later than the one gone back to stay good |
| `BytesStream.SumIsLength` | Scylla-moon/bytes_ostream.hh:272-275 | the chunk sizes add up to the length of the contents |
| `BytesStream.Stream.NextAllocSize` | Scylla-moon/bytes_ostream.hh:102-114 | room for the data and a header of 16 bytes; otherwise 512 at first and then twice the room of the last chunk, but no more than 16384 |
| `BytesStream.Stream.Alloc` | Scylla-moon/bytes_ostream.hh:118-143 | a contiguous region right after everything written; nothing written moves; a new chunk is started exactly when the region does not fit into the last one |
| `BytesStream.Stream.Fill` | Scylla-moon/bytes_ostream.hh:183-203 | the contents with exactly the place overwritten |
| `BytesStream.Stream.Write` | Scylla-moon/bytes_ostream.hh:206-223 | the contents with the bytes added; nothing written moves |
| `BytesStream.Stream.WritePlaceHolder` | Scylla-moon/bytes_ostream.hh:195-203 | the contents with a region added, and where it lies |
| `BytesStream.Stream.Append` | Scylla-moon/bytes_ostream.hh:286-290 | the contents with those of the other stream added |
| `BytesStream.Stream.Linearize` | Scylla-moon/bytes_ostream.hh:244-271 | one chunk with the same contents |
| `BytesStream.Stream.WrittenSince` | Scylla-moon/bytes_ostream.hh:310-324 | the number of bytes after a position |
| `BytesStream.Stream.Retract` | Scylla-moon/bytes_ostream.hh:326-337 | exactly the contents before the position, and the size counted down |
| `BytesStream.Equal` | Scylla-moon/bytes_ostream.hh:349-372 | on non-empty streams of which neither is a proper beginning of the other, ends, and is true exactly when the contents are equal |
| `BytesStream.ComparedMeaning` | Scylla-moon/bytes_ostream.hh:358-370 | one turn of the loop keeps what is left to compare, and makes progress unless exactly one stream is used up |
| `BytesStream.NeverEnds` | Scylla-moon/bytes_ostream.hh:358-370 | when one is a proper beginning of the other, the loop has no answer after any number of turns |
| `BytesStream.Session.Do` | Scylla-moon/bytes_ostream.hh:183-337 | one write, append, reservation, fill, mark, return or linearization does to the stream what it does to a plain byte sequence |
| `BytesStream.Run` | Scylla-moon/bytes_ostream.hh:183-337 | so does every sequence of them, with positions nested in any way; a linearization ends the life of places and positions taken before |
| `LegacyKeys.Serialize` | Scylla-moon/compound.hh:77-106 | a key is packed exactly when its packed form is no longer than 65535 bytes, and refused otherwise |
| `LegacyKeys.SizeOfPacked` | Scylla-moon/compound.hh:84-91 | the size checked is that of the packed form |
| `LegacyKeys.RoundTrip` | Scylla-moon/compound.hh:133-172 | unpacking a packed key gives it back |
| `LegacyKeys.UnpackedIsPacked` | Scylla-moon/compound.hh:138-152 | what can be unpacked is the packed form of the result |
| `LegacyKeys.FormsInBytes` | Scylla-moon/compound_compat.hh:60-116 | both forms byte by byte: two bytes of length, the high one first, the component, and in the legacy form a zero byte; the only component of a one-column key stands alone |
| `LegacyKeys.Size` | Scylla-moon/compound_compat.hh:156-165 | the length of the legacy form |
| `LegacyKeys.Step` | Scylla-moon/compound_compat.hh:83-107 | the iterator yields the legacy form byte by byte |
| `LegacyKeys.LegacyIterator.constructor` | Scylla-moon/compound_compat.hh:69-76 | it starts with the whole legacy form ahead |
| `LegacyKeys.LegacyIterator.Current` | Scylla-moon/compound_compat.hh:83-94 | the byte it stands on is the next one |
| `LegacyKeys.LegacyIterator.Advance` | Scylla-moon/compound_compat.hh:96-107 | it moves on by one byte |
| `LegacyKeys.Yielded` | Scylla-moon/compound_compat.hh:60-116 | all bytes together are the legacy form, except for the empty key of one column, where they are one zero byte |
| `LegacyKeys.SizeAgrees` | Scylla-moon/compound_compat.hh:178-185 | size() is the number of bytes yielded exactly when the key is not an empty one of one column |
| `LegacyKeys.TriCompare` | Scylla-moon/types.hh:150-172 | the loop compares component by component, by length first |
| `LegacyKeys.EncodedOrder` | Scylla-moon/compound_compat.hh:118-151 | encodings compare like the components, then like what follows |
| `LegacyKeys.LegacyOrder` | Scylla-moon/compound_compat.hh:118-151 | the comparator agrees in sign with comparing the legacy forms as unsigned bytes, for all keys of several columns |
| `LegacyKeys.CompareIsLegacy` | Scylla-moon/compound_compat.hh:118-151 | so does the comparator as called, for both kinds of keys |
| `Durations.AvailableExact` | Scylla-moon/duration.cc:100-103 | the capacity test is exact |
| `Durations.AddAccepts` | Scylla-moon/duration.cc:193-261 | an addition is accepted exactly when the units decrease and the counter holds the sum, so it cannot overflow |
| `Durations.AddAllAccepts` | Scylla-moon/duration.cc:193-261 | a sequence of additions is accepted exactly when its units decrease and the sums fit, and then adds up the counts |
| `Durations.AddParsedAccepts` | Scylla-moon/duration.cc:202-214 | so is one of a count as read: a count beyond 64 bits would not fit any counter |
| `Durations.DurationBuilder.AddUnit` | Scylla-moon/duration.cc:193-261 | the builder in place, with its three kinds of errors |
| `Durations.DurationBuilder.AddParsedCount` | Scylla-moon/duration.cc:202-214 | and the error of a count out of range |
| `Durations.ParseStandardFormat` | Scylla-moon/duration.cc:268-313 | the loop reads one count and unit at a time |
| `Durations.ParseFormatted` | Scylla-moon/duration.cc:268-313 | reading formatted parts adds them up, or fails as adding them does, for counts of any size |
| `Durations.SumsDecide` | Scylla-moon/duration.cc:193-261 | parts in decreasing units with the same sums are accepted together, with the same result |
| `Durations.UnitsConvert` | Scylla-moon/duration.cc:106-154 | a count of any size of one unit is read like as many times the next smaller one: accepted together, with the same result |
| `Durations.PartReadBack` | Scylla-moon/duration.cc:277-278 | a count and unit are read back whatever part follows |
| `DurationTexts.IsoAccepts` | Scylla-moon/duration.cc:315-405 | a text that starts with P is accepted if and only if it follows one of the three formats and its sums fit the counters; the order of units cannot be wrong |
| `DurationTexts.FieldsReadBack` | Scylla-moon/duration.cc:315-353 | the optional fields are told apart, whichever are given |
| `DurationTexts.IsoLikeStandard` | Scylla-moon/duration.cc:315-353 | years to seconds in the ISO 8601 format, with any of them left out, any counts and either sign, read like the same counts in the standard format, errors included; with none of them, zero |
| `DurationTexts.WeeksLikeStandard` | Scylla-moon/duration.cc:373-384 | so do weeks |
| `DurationTexts.ColumnsReadBack` | Scylla-moon/duration.cc:355-371 | counts of fixed width are read back |
| `DurationTexts.CalendarReads` | Scylla-moon/duration.cc:355-371 | every date and time of the alternative format is accepted and counts what it says, months beyond twelve and hours beyond twenty-four too |
| `DurationTexts.Build` | Scylla-moon/duration.cc:315-384 | the counts a format gives are added one after the other |
| `DurationTexts.ToDuration` | Scylla-moon/duration.cc:387-427 | any text: which format it is read in, and the sign, which applies to all counters |
| `DurationTexts.Print` | Scylla-moon/duration.cc:429-462 | the printed text |
| `DurationTexts.PrintCounter` | Scylla-moon/duration.cc:438-461 | each unit takes its share of what the larger ones left |
| `DurationTexts.BreakDownSum` | Scylla-moon/duration.cc:438-461 | nothing is lost on the way to the smallest unit |
| `DurationTexts.PartsOfOrder` | Scylla-moon/duration.cc:449-461 | units are printed in decreasing order |
| `DurationTexts.PrintThenParse` | Scylla-moon/duration.cc:409-462 | a printed duration reads back as itself exactly when it is not zero and its counters share a sign |
| `DurationMeaning.YearsMean` | Scylla-moon/duration.cc:277-278 | a count and "y" or "Y" mean twelve times as many months, or an error if these do not fit; with a minus, their negative |
| `DurationMeaning.MonthsMean` | Scylla-moon/duration.cc:277-278 | "mo" in any case: months |
| `DurationMeaning.WeeksMean` | Scylla-moon/duration.cc:277-278 | "w", "W": seven days each |
| `DurationMeaning.DaysMean` | Scylla-moon/duration.cc:277-278 | "d", "D": days |
| `DurationMeaning.HoursMean` | Scylla-moon/duration.cc:277-278 | "h", "H": nanoseconds |
| `DurationMeaning.MinutesMean` | Scylla-moon/duration.cc:277-278 | "m", "M": nanoseconds |
| `DurationMeaning.SecondsMean` | Scylla-moon/duration.cc:277-278 | "s", "S": nanoseconds |
| `DurationMeaning.MillisecondsMean` | Scylla-moon/duration.cc:277-278 | "ms" in any case |
| `DurationMeaning.MicrosecondsMean` | Scylla-moon/duration.cc:277-300 | "us" in any case, and with the micro sign |
| `DurationMeaning.NanosecondsMean` | Scylla-moon/duration.cc:277-278 | "ns" in any case |
| `DurationMeaning.IsoMeans` | Scylla-moon/duration.cc:315-353 | "P", optional counts with "Y", "M", "D", then "T" and optional counts with "H", "M", "S", mean 12y + mo months, d days and ((h * 60 + m) * 60 + s) * 10^9 nanoseconds, or an error exactly if these do not fit |
| `DurationMeaning.IsoWeeksMean` | Scylla-moon/duration.cc:373-384 | "P", a count and "W" mean seven days each |
| `DurationMeaning.CalendarMeans` | Scylla-moon/duration.cc:355-371 | "PYYYY-MM-DDThh:mm:ss" means what it says |
| `DurationMeaning.DecimalNotation` | Scylla-moon/duration.cc:438-447 | counts are written and read in decimal notation |
| `DurationMeaning.WrittenNames` | Scylla-moon/duration.cc:106-154 | the names units are written with |
| `DurationMeaning.PrintedIsCarried` | Scylla-moon/duration.cc:438-461 | no unit is written with a count that makes a larger one, nor with zero, and weeks are not written |
| `SnapshotManifest.ReportForm` | Scylla-moon/database.cc:3799-3817 | all shards report to one manager, before the home shard is called |
| `SnapshotManifest.ReportKeepsInv` | Scylla-moon/database.cc:3799-3833 | reporting keeps the invariant |
| `SnapshotManifest.FinishSealed` | Scylla-moon/database.cc:3818-3826 | sealing lets every waiter pass and leaves a unit for each of the others |
| `SnapshotManifest.FinishSealKeepsInv` | Scylla-moon/database.cc:3733-3767 | sealing keeps the invariant |
| `SnapshotManifest.AwaitKeepsInv` | Scylla-moon/database.cc:3829-3831 | waiting for the manifest keeps the invariant |
| `SnapshotManifest.StepKeepsInv` | Scylla-moon/database.cc:3799-3833 | every step of every shard keeps the invariant |
| `SnapshotManifest.RunsAreSafe` | Scylla-moon/database.cc:3702-3767 | however the shards interleave: at most one manager and one manifest, with the files of all shards, written only after all have reported, and no call returns before it is written |
| `SnapshotManifest.SomeoneCanGoOn` | Scylla-moon/database.cc:3799-3833 | while a call is not over some shard can go on, unless writing the manifest failed |
| `SnapshotManifest.StepsAreFinite` | Scylla-moon/database.cc:3799-3833 | every step brings its shard closer to the end |
| `SnapshotManifest.RunsAreFinite` | Scylla-moon/database.cc:3799-3833 | no run takes more than seven steps a shard |

## Left out

- Range tombstones, static rows, snapshots of several versions and recovery from failed allocations in the cache
  reader.
- Schema changes under the cell locker and the rehashing of its tables; entries are found by address.
- The cell locker as objects linked by references: it is modelled on values, so destruction of an entry is a step that
  looks for remaining references instead of a reference count reaching zero.
- Timeouts for lack of memory and writes reordered with truncation in the counter protocol, and the purging of deleted
  cells.
- Undoing applied range tombstones, and the difference of two tombstone lists.
- The reversing reader's next_partition() and fast forwarding.
- The text of error messages of durations, and texts with a zero byte inside.
- Wrap-around of 32 bit sizes in the chunked stream, and its comparison of streams that have no chunk, which the code
  does not allow for.
- Component types of keys: their comparison is taken as an order, their validity is not checked.
- Linking of files and the format of the manifest.
- Flushing, compaction, the commit log, resharding, loading of sstables, configuration, metrics and the start-up code.
- Cartesian products, map differences, hexadecimal conversion, enum sets and frozen mutations, which are simple.
