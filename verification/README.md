# Offset bookkeeping of kafka-workers, in Dafny

This project models the offset-tracking core of the kafka-workers framework.
Worker threads process records from a Kafka partition in any order. The
tracker must still compute a safe commit point: one past the end of the
longest run of processed records at the front of the partition's ledger.

The model has four modules:

- `Results` (`results.dfy`): `Option` and `Result`. A `Result` stands in for a Java
  exception; `:-` propagates it.
- `Ranges` (`ranges.dfy`): `RangeUtils` and the `ClosedRange` value it works on.
  It compacts a strictly increasing run of offsets into maximal closed ranges
  and enumerates one range forwards or backwards.
- `OffsetLedger` (`ledger.dfy`): the ledger `HeavyOffsetsState` keeps for one
  partition. It is a sequence of `(offset, {status, timestamp})` entries,
  strictly ascending by offset, which models the skip-list map. `Find` is its
  map view. Each entry follows `Consumed -> Processed -> removed`. Illegal
  transitions return `BadOffset`. The commit scan stops at the first entry
  that is not processed. It returns `ProcessingTimeout` when that entry was
  consumed strictly before the cutoff.
- `OffsetsState` (`offsets_state.dfy`): the registry from partition to ledger,
  the public operations of `HeavyOffsetsState`, and the default methods of the
  `OffsetsState` interface. An operation on a partition that is not registered
  changes nothing and raises no error.

Every operation is a pure function of the old state. Those that can fail
(`addConsumed`, `updateProcessed`, `getOffsetsToCommit`) return a `Result`;
`register`, `unregister` and `removeCommitted` return the new state directly.
A failed call therefore leaves its caller with the state it had, and
`getOffsetsToCommit` cannot change the state.

Decisions on points where the code's behaviour is easy to misread, or where
the code is silent:

- `register` replaces an existing ledger with an empty one (`Map.put`): a
  partition registered again without an `unregister` in between loses its
  pending entries. Re-registration is therefore not idempotent.
- The range form of `addConsumed` throws "not implemented" in the heavy state.
  The model gives it its intended meaning: the offsets of the range are
  consumed in ascending order, all or nothing. On a conflict the error names
  the smallest offset of the range that the ledger already holds.
- Timestamps are integers (epoch milliseconds). A missing `minConsumedAt` is
  `None`. Java `long` offsets are unbounded integers.

## Model

| member | source | states |
|---|---|---|
| `Ranges.Elements` | src/main/java/com/rtbhouse/kafka/workers/impl/range/RangeUtils.java:39-41 | the enumeration of `[lower, upper]` has `upper - lower + 1` elements, is strictly increasing, and contains exactly the integers from `lower` to `upper` |
| `Ranges.ReverseElements` | src/main/java/com/rtbhouse/kafka/workers/impl/range/RangeUtils.java:43-47 | mapping each element `x` to `upper - x + lower` gives exactly the reverse of the forward enumeration |
| `Ranges.SingleElementRange` | src/main/java/com/rtbhouse/kafka/workers/impl/offsets/OffsetsState.java:15-17 | the one-offset range used for a single offset is well formed and enumerates to exactly that offset |
| `Ranges.RangesFromLongs` | src/main/java/com/rtbhouse/kafka/workers/impl/range/RangeUtils.java:12-37 | succeeds exactly when the input is strictly increasing (so empty input gives no ranges). Output ranges are well formed and ascending, separated by a gap (`upper + 1 < next lower`), and their concatenated enumerations reproduce the input. On failure the error names the first pair out of order |
| `Ranges.MaximalRangesUnique` | src/main/java/com/rtbhouse/kafka/workers/impl/range/RangeUtils.java:12-37 | two lists of well-formed, gap-separated ranges that enumerate to the same offsets are equal. So the compaction result is the unique maximal decomposition of its input |
| `OffsetLedger.AddConsumed` | src/main/java/com/rtbhouse/kafka/workers/impl/offsets/HeavyOffsetsState.java:49-57 | fails with `BadOffset(ConsumedBefore, partition, offset)` exactly when the offset is already held. Otherwise the map view gains `offset -> {Consumed, timestamp}` and nothing else changes |
| `OffsetLedger.UpdateProcessed` | src/main/java/com/rtbhouse/kafka/workers/impl/offsets/HeavyOffsetsState.java:65-77 | an absent offset fails with "not consumed before" and a processed one with "processed before". It succeeds exactly for a consumed offset: the status becomes processed, the timestamp is kept, and every other entry is unchanged |
| `OffsetLedger.ProcessedPrefix` | src/main/java/com/rtbhouse/kafka/workers/impl/offsets/HeavyOffsetsState.java:110-124 | the index where the ascending scan stops: every entry before it is processed, and the entry at it, if any, is only consumed |
| `OffsetLedger.OffsetToCommit` | src/main/java/com/rtbhouse/kafka/workers/impl/offsets/HeavyOffsetsState.java:108-126 | the result is the last offset of the processed prefix, or nothing when the prefix is empty. It times out, naming the blocking offset, exactly when that entry's timestamp is strictly below the cutoff. Without a cutoff it never fails |
| `OffsetLedger.RemoveCommitted` | src/main/java/com/rtbhouse/kafka/workers/impl/offsets/HeavyOffsetsState.java:128-138 | the map view loses exactly the offsets strictly below the committed offset. The rest is a suffix of the ledger with statuses and timestamps unchanged |
| `OffsetLedger.AddConsumedAll` | src/main/java/com/rtbhouse/kafka/workers/impl/offsets/HeavyOffsetsState.java:59-62 | consuming ascending offsets succeeds exactly when none is already held. On success every one of them maps to `{Consumed, timestamp}` and nothing else changes. On failure the error names the smallest one already held |
| `OffsetLedger.CommitPointSafe` | src/main/java/com/rtbhouse/kafka/workers/impl/offsets/HeavyOffsetsState.java:108-126 | every held offset at or below the returned offset is processed, so nothing below the commit point is unprocessed |
| `OffsetLedger.PruneAtCommitDropsOnlyProcessed` | src/main/java/com/rtbhouse/kafka/workers/impl/offsets/HeavyOffsetsState.java:128-138 | pruning a ledger at one past its commit point removes only processed entries; a consumed but unprocessed offset is never dropped |
| `OffsetLedger.UpdateProcessedCommutes` | src/main/java/com/rtbhouse/kafka/workers/impl/offsets/HeavyOffsetsState.java:65-77 | marking two consumed offsets processed gives the same ledger in either order |
| `OffsetLedger.CommitDependsOnlyOnProcessedSet` | src/test/java/com/rtbhouse/kafka/workers/impl/offsets/OffsetsStateTest.java:79-102 | two ledgers holding the same offsets, with the same processed offsets and the same consumption times on the offsets still pending, yield the same commit result under every cutoff: the timestamps of processed entries never matter. Independence from the order of the updates themselves is `OffsetLedger.UpdateProcessedCommutes` |
| `OffsetLedger.CommitIgnoresEntriesPastBlocker` | src/main/java/com/rtbhouse/kafka/workers/impl/offsets/HeavyOffsetsState.java:116-122 | entries after the first unprocessed one never influence the result, timeout included |
| `OffsetLedger.CommitSkipsUntrackedOffsets` | src/main/java/com/rtbhouse/kafka/workers/impl/offsets/HeavyOffsetsState.java:110-124 | a ledger holding 0, 1, 2, 5, 6, all processed, commits up to 6: contiguity is among entries, not among integers |
| `OffsetLedger.TimeoutNamesFirstBlockingOffset` | src/test/java/com/rtbhouse/kafka/workers/impl/offsets/OffsetsStateTest.java:231-245 | with 0, 1, 2 consumed at 10, 15, 20 and only 0 processed, cutoff 20 times out on offset 1. Cutoff 15, equal to that timestamp, does not time out. The ledger is given literally, as the test's calls would leave it |
| `OffsetsState.Register` | src/main/java/com/rtbhouse/kafka/workers/impl/offsets/HeavyOffsetsState.java:35-39 | every listed partition gets an empty ledger, replacing any existing one; other partitions are unchanged |
| `OffsetsState.Unregister` | src/main/java/com/rtbhouse/kafka/workers/impl/offsets/HeavyOffsetsState.java:42-46 | exactly the listed partitions lose their ledger, registered or not; the others are unchanged |
| `OffsetsState.AddConsumed` | src/main/java/com/rtbhouse/kafka/workers/impl/offsets/HeavyOffsetsState.java:49-57 | an unregistered partition is a no-op. A registered one fails exactly when the offset is held. Otherwise only that partition's map view gains the consumed entry |
| `OffsetsState.AddConsumedRange` | src/main/java/com/rtbhouse/kafka/workers/impl/offsets/OffsetsState.java:19 | all or nothing: succeeds exactly when no offset of `[lower, upper]` is held, and then each one maps to `{Consumed, timestamp}`. Otherwise it fails naming the smallest held offset of the range. Other partitions are unchanged, and an unregistered partition is a no-op |
| `OffsetsState.AddConsumedRangeNow` | src/main/java/com/rtbhouse/kafka/workers/impl/offsets/OffsetsState.java:21-23 | the no-timestamp form stamps every offset of the range with the clock reading `now` passed in by the caller |
| `OffsetsState.SingleOffsetIsSingletonRange` | src/main/java/com/rtbhouse/kafka/workers/impl/offsets/OffsetsState.java:15-17 | the interface's single-offset default (the range form on `[o, o]`) has exactly the effect of the heavy state's single-offset `addConsumed` |
| `OffsetsState.UpdateProcessed` | src/main/java/com/rtbhouse/kafka/workers/impl/offsets/HeavyOffsetsState.java:65-77 | an unregistered partition is a no-op. Otherwise the two `BadOffset` cases apply, and the call succeeds exactly when the offset is held as consumed: the offset becomes processed with its timestamp kept. Other partitions and offsets are unchanged |
| `OffsetsState.GetOffsetsToCommit` | src/main/java/com/rtbhouse/kafka/workers/impl/offsets/HeavyOffsetsState.java:80-93 | succeeds exactly when no assigned registered partition times out. Otherwise the error comes from the first one that does, in iteration order. The result maps exactly the assigned registered partitions with a non-empty processed prefix, each to its own ledger's commit offset plus one |
| `OffsetsState.GetOffsetsToCommitNoCutoff` | src/main/java/com/rtbhouse/kafka/workers/impl/offsets/OffsetsState.java:29-31 | without a cutoff the call never fails. A partition is in the result exactly when it is assigned, registered, and its first entry is processed, and it maps to one past the last offset of its processed prefix |
| `OffsetsState.RemoveCommitted` | src/main/java/com/rtbhouse/kafka/workers/impl/offsets/HeavyOffsetsState.java:96-106 | the registered partitions stay the same. A partition named in the commit map loses exactly its offsets below the committed one. Every other partition is unchanged |
| `OffsetsState.CommitSafety` | src/main/java/com/rtbhouse/kafka/workers/impl/offsets/HeavyOffsetsState.java:80-93 | every reported partition is registered, and every offset its ledger holds below the reported commit offset is processed |
| `OffsetsState.RemoveCommittedDropsOnlyProcessed` | src/main/java/com/rtbhouse/kafka/workers/impl/offsets/HeavyOffsetsState.java:96-106 | collecting after a computed commit removes only processed entries: no entry goes from consumed straight to removed |
| `OffsetsState.CommitThenRemoveLeavesNothingToCommit` | src/main/java/com/rtbhouse/kafka/workers/impl/offsets/HeavyOffsetsState.java:128-138 | after committing and collecting, a new commit query without cutoff returns an empty map |

## Left out

- Concurrency: `ConcurrentHashMap`, `ConcurrentSkipListMap` and the atomicity of `computeIfPresent`. Each operation is one sequential, atomic step.
- Clock and time types: `Instant.now()` becomes the `now` parameter, and `Instant`/epoch-millisecond conversion becomes plain integers.
- Kafka client types: `TopicPartition` becomes a value datatype. `OffsetAndMetadata` becomes its offset, and metadata is dropped.
- Exception messages: errors are values carrying kind, partition and offset. The `checkState` failure of `rangesFromLongs` carries no message in the source. In the model it names the previous offset and the offending one.
- Laziness of `LongStream`: streams are finite sequences.
- The internals of the Java `ClosedRange`/`BasicClosedRange` classes and their builder are not modelled. A range is the datatype `Ranges.ClosedRange` with the invariant `lower <= upper`.
- 64-bit arithmetic: offsets are unbounded. Wrap-around at `Long.MAX_VALUE` in `offsetToCommit + 1` is not modelled.
- Set iteration order: `getOffsetsToCommit` takes the assigned partitions as a sequence. The sequence is the order in which the Java set is iterated. When several partitions time out, that order decides which error is raised.
- `WeigherHelpers` (object-size estimation) and the `Partitioned` interface beyond `register`/`unregister` have nothing to do with offsets.
- OffsetsState.AddConsumedRangeNow: its contract states only the timestamp of the consumed offsets. Its other guarantees are those of `OffsetsState.AddConsumedRange`, to which it delegates unchanged.
