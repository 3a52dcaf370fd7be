/** The ledger HeavyOffsetsState keeps for one partition: an ascending map
    from offset to `Info`, held here as a sequence of entries strictly
    ascending by offset in place of its `ConcurrentSkipListMap`. */
module OffsetLedger {
  import opened Results
  import opened Ranges

  /** A Kafka topic partition, compared by value. */
  datatype TopicPartition = TopicPartition(topic: string, partition: int)

  datatype OffsetStatus = Consumed | Processed

  /** What the ledger remembers about one offset: its status and the time
      (epoch milliseconds) at which it was consumed. */
  datatype Info = Info(status: OffsetStatus, timestamp: int)

  datatype Entry = Entry(offset: int, info: Info)

  /** Which invariant a `BadOffset` error reports as broken. */
  datatype BadOffsetReason = ConsumedBefore | NotConsumedBefore | ProcessedBefore

  /** The two exceptions the tracker raises, with the partition and offset
      their messages name. */
  datatype OffsetError =
    | BadOffset(reason: BadOffsetReason, partition: TopicPartition, offset: int)
    | ProcessingTimeout(partition: TopicPartition, offset: int)

  predicate Sorted(l: seq<Entry>) {
    forall i, j :: 0 <= i < j < |l| ==> l[i].offset < l[j].offset
  }

  /** A ledger: entries in strictly ascending offset order. */
  type Ledger = l: seq<Entry> | Sorted(l) witness []

  /** `Map.get`: the info stored for `offset`, if any. */
  function Find(l: seq<Entry>, offset: int): Option<Info>
  {
    if |l| == 0 then None
    else if l[0].offset == offset then Some(l[0].info)
    else Find(l[1..], offset)
  }

  /** In a ledger, the entry at index `i` is the one `Find` returns. */
  lemma FindEntry(l: Ledger, i: int)
    requires 0 <= i < |l|
    ensures Find(l, l[i].offset) == Some(l[i].info)
  {
    if i > 0 {
      assert l[0].offset < l[i].offset;
      assert l[1..][i - 1] == l[i];
      FindEntry(l[1..], i - 1);
    }
  }

  /** `Find` fails exactly when no entry carries the offset. */
  lemma FindNone(l: seq<Entry>, offset: int)
    ensures Find(l, offset).None? <==> forall i :: 0 <= i < |l| ==> l[i].offset != offset
  {
    if |l| > 0 {
      FindNone(l[1..], offset);
      assert forall i :: 0 < i < |l| ==> l[i] == l[1..][i - 1];
    }
  }

  /** In a ledger no entry lies below the first one. */
  lemma FindBelowFirst(l: Ledger, offset: int)
    requires |l| == 0 || offset < l[0].offset
    ensures Find(l, offset).None?
  {
    FindNone(l, offset);
  }

  /** `Map.put` of a new key: the entry is placed at its ordered position. */
  function Insert(l: Ledger, offset: int, info: Info): (r: Ledger)
    requires Find(l, offset).None?
    ensures |r| == |l| + 1
    ensures r[0] == Entry(offset, info) || (|l| > 0 && r[0] == l[0])
    ensures forall k :: Find(r, k) == if k == offset then Some(info) else Find(l, k)
  {
    if |l| == 0 || offset < l[0].offset then
      var r := [Entry(offset, info)] + l;
      assert r[1..] == l;
      r
    else
      var tail: Ledger := l[1..];
      var rest := Insert(tail, offset, info);
      assert l[0].offset < offset by {
        assert l[0].offset != offset;
      }
      assert |tail| > 0 ==> l[0].offset < tail[0].offset;
      var r := [l[0]] + rest;
      assert r[1..] == rest;
      r
  }

  /** `addConsumed(partition, offset, timestamp)` on a registered partition:
      records `offset` as consumed at `timestamp`, or fails if the ledger
      already holds it. */
  function AddConsumed(p: TopicPartition, l: Ledger, offset: int, timestamp: int): (r: Result<Ledger, OffsetError>)
    ensures r.Failure? <==> Find(l, offset).Some?
    ensures r.Failure? ==> r.error == BadOffset(ConsumedBefore, p, offset)
    ensures r.Success? ==>
              forall k :: Find(r.value, k) == if k == offset then Some(Info(Consumed, timestamp)) else Find(l, k)
  {
    if Find(l, offset).Some? then Failure(BadOffset(ConsumedBefore, p, offset))
    else Success(Insert(l, offset, Info(Consumed, timestamp)))
  }

  /** Flips the status of the entry for `offset` to processed, in place. */
  function MarkProcessed(l: Ledger, offset: int): (r: Ledger)
    requires Find(l, offset).Some?
    ensures |r| == |l|
    ensures forall i :: 0 <= i < |l| ==> r[i].offset == l[i].offset
    ensures forall k :: Find(r, k) ==
                        if k == offset then Some(Info(Processed, Find(l, offset).value.timestamp)) else Find(l, k)
  {
    if l[0].offset == offset then
      var r := [Entry(offset, Info(Processed, l[0].info.timestamp))] + l[1..];
      assert r[1..] == l[1..];
      r
    else
      var rest := MarkProcessed(l[1..], offset);
      var r := [l[0]] + rest;
      assert r[1..] == rest;
      r
  }

  /** `updateProcessed(partition, offset)` on a registered partition. */
  function UpdateProcessed(p: TopicPartition, l: Ledger, offset: int): (r: Result<Ledger, OffsetError>)
    ensures Find(l, offset).None? ==> r == Failure(BadOffset(NotConsumedBefore, p, offset))
    ensures Find(l, offset).Some? && Find(l, offset).value.status == Processed ==>
              r == Failure(BadOffset(ProcessedBefore, p, offset))
    ensures r.Success? <==> Find(l, offset).Some? && Find(l, offset).value.status == Consumed
    ensures r.Success? ==>
              forall k :: Find(r.value, k) ==
                          if k == offset then Some(Info(Processed, Find(l, offset).value.timestamp))
                          else Find(l, k)
  {
    match Find(l, offset)
    case None => Failure(BadOffset(NotConsumedBefore, p, offset))
    case Some(info) =>
      if info.status != Consumed then Failure(BadOffset(ProcessedBefore, p, offset))
      else Success(MarkProcessed(l, offset))
  }

  /** Length of the longest prefix of the ledger whose entries are all
      processed: every entry before it is processed and the entry at it, if
      any, is still only consumed. */
  function ProcessedPrefix(l: seq<Entry>): (n: nat)
    ensures n <= |l|
    ensures forall i :: 0 <= i < n ==> l[i].info.status == Processed
    ensures n < |l| ==> l[n].info.status == Consumed
  {
    if |l| == 0 || l[0].info.status == Consumed then 0
    else
      var m := ProcessedPrefix(l[1..]);
      PrefixExtends(l, m);
      1 + m
  }

  /** A processed head entry extends the processed prefix of the tail by one. */
  lemma PrefixExtends(l: seq<Entry>, m: nat)
    requires |l| > 0 && l[0].info.status == Processed && m <= |l| - 1
    requires forall i :: 0 <= i < m ==> l[1..][i].info.status == Processed
    requires m < |l| - 1 ==> l[1..][m].info.status == Consumed
    ensures forall i :: 0 <= i < 1 + m ==> l[i].info.status == Processed
    ensures 1 + m < |l| ==> l[1 + m].info.status == Consumed
  {
    forall i | 0 <= i < 1 + m
      ensures l[i].info.status == Processed
    {
      if i > 0 {
        assert l[i] == l[1..][i - 1];
      }
    }
    if 1 + m < |l| {
      assert l[1 + m] == l[1..][m];
    }
  }

  /** The ascending scan of `getOffsetToCommit`, resumed after entries whose
      last processed offset is `last`. */
  function Scan(p: TopicPartition, l: seq<Entry>, minConsumedAt: Option<int>, last: Option<int>)
    : (r: Result<Option<int>, OffsetError>)
    ensures var n := ProcessedPrefix(l);
            r.Failure? <==> n < |l| && minConsumedAt.Some? && l[n].info.timestamp < minConsumedAt.value
    ensures var n := ProcessedPrefix(l);
            r.Failure? ==> r.error == ProcessingTimeout(p, l[n].offset)
    ensures var n := ProcessedPrefix(l);
            r.Success? ==> r.value == if n == 0 then last else Some(l[n - 1].offset)
    decreases |l|
  {
    if |l| == 0 then Success(last)
    else if l[0].info.status == Processed then Scan(p, l[1..], minConsumedAt, Some(l[0].offset))
    else if minConsumedAt.Some? && l[0].info.timestamp < minConsumedAt.value then
      Failure(ProcessingTimeout(p, l[0].offset))
    else Success(last)
  }

  /** `getOffsetToCommit`: the last offset of the processed prefix of the
      ledger (the caller commits one past it), nothing when that prefix is
      empty, or a timeout when the entry blocking the prefix was consumed
      strictly before `minConsumedAt`. */
  function OffsetToCommit(p: TopicPartition, l: Ledger, minConsumedAt: Option<int>)
    : (r: Result<Option<int>, OffsetError>)
    ensures minConsumedAt.None? ==> r.Success?
    ensures var n := ProcessedPrefix(l);
            r.Failure? <==> n < |l| && minConsumedAt.Some? && l[n].info.timestamp < minConsumedAt.value
    ensures var n := ProcessedPrefix(l);
            r.Failure? ==> r.error == ProcessingTimeout(p, l[n].offset)
    ensures var n := ProcessedPrefix(l);
            r.Success? ==> (r.value.None? <==> n == 0) && (n > 0 ==> r.value == Some(l[n - 1].offset))
  {
    Scan(p, l, minConsumedAt, None)
  }

  /** The private `removeCommitted(partitionOffsets, offset)`: drops entries
      from the front while their offset is below `offset`. */
  function RemoveCommitted(l: Ledger, offset: int): (r: Ledger)
    ensures |r| <= |l| && r == l[|l| - |r|..]
    ensures forall k :: Find(r, k) == if k < offset then None else Find(l, k)
  {
    if |l| > 0 && l[0].offset < offset then RemoveCommitted(l[1..], offset)
    else
      assert forall k :: k < offset ==> Find(l, k).None? by {
        forall k | k < offset
          ensures Find(l, k).None?
        {
          FindBelowFirst(l, k);
        }
      }
      l
  }

  /** None of the offsets `os` is held by the ledger. */
  predicate AllAbsent(l: seq<Entry>, os: seq<int>) {
    forall i :: 0 <= i < |os| ==> Find(l, os[i]).None?
  }

  /** Range form of `addConsumed` on a registered partition: consumes the
      ascending offsets `os` one by one. Because the model is functional, a
      failure leaves the caller with its original ledger, so the operation
      is all-or-nothing; the error names the smallest offset of `os` that the
      ledger already holds. */
  function AddConsumedAll(p: TopicPartition, l: Ledger, os: seq<int>, timestamp: int)
    : (r: Result<Ledger, OffsetError>)
    requires StrictlyIncreasing(os)
    ensures r.Success? <==> AllAbsent(l, os)
    ensures r.Failure? ==>
              && r.error == BadOffset(ConsumedBefore, p, r.error.offset)
              && r.error.offset in os && Find(l, r.error.offset).Some?
              && forall i :: 0 <= i < |os| && os[i] < r.error.offset ==> Find(l, os[i]).None?
    ensures r.Success? ==>
              forall k :: Find(r.value, k) == if k in os then Some(Info(Consumed, timestamp)) else Find(l, k)
    decreases |os|
  {
    if |os| == 0 then Success(l)
    else
      var l' :- AddConsumed(p, l, os[0], timestamp);
      var rest := os[1..];
      var r := AddConsumedAll(p, l', rest, timestamp);
      assert AllAbsent(l', rest) <==> AllAbsent(l, os) by {
        AddConsumedAllStep(p, l, l', os, timestamp);
      }
      assert os == [os[0]] + rest;
      r
  }

  /** Helper of `AddConsumedAll`: after consuming the head of `os`, the rest
      of `os` is absent from the new ledger exactly when all of `os` was
      absent from the old one. */
  lemma AddConsumedAllStep(p: TopicPartition, l: Ledger, l': Ledger, os: seq<int>, timestamp: int)
    requires StrictlyIncreasing(os) && |os| > 0
    requires AddConsumed(p, l, os[0], timestamp) == Success(l')
    ensures forall k :: k in os[1..] ==> k != os[0] && Find(l', k) == Find(l, k)
    ensures AllAbsent(l', os[1..]) <==> AllAbsent(l, os)
  {
    var rest := os[1..];
    forall i | 0 <= i < |rest|
      ensures rest[i] != os[0] && Find(l', rest[i]) == Find(l, rest[i])
    {
      assert rest[i] == os[i + 1];
    }
    if AllAbsent(l', rest) {
      forall i | 0 <= i < |os|
        ensures Find(l, os[i]).None?
      {
        if i > 0 {
          assert os[i] == rest[i - 1];
        }
      }
    }
  }

  /** The processed prefix is the one index `m` below which every entry is
      processed and at which the entry, if any, is not. */
  lemma {:induction false} ProcessedPrefixUnique(l: seq<Entry>, m: nat)
    requires m <= |l|
    requires forall i :: 0 <= i < m ==> l[i].info.status == Processed
    requires m < |l| ==> l[m].info.status == Consumed
    ensures ProcessedPrefix(l) == m
  {
    if m > 0 {
      assert l[0].info.status == Processed;
      assert forall i :: 0 <= i < m - 1 ==> l[1..][i] == l[i + 1];
      ProcessedPrefixUnique(l[1..], m - 1);
    }
  }

  /** An offset the ledger holds sits at some index. */
  lemma FindSome(l: seq<Entry>, offset: int) returns (i: int)
    requires Find(l, offset).Some?
    ensures 0 <= i < |l| && l[i].offset == offset
  {
    FindNone(l, offset);
    i :| 0 <= i < |l| && l[i].offset == offset;
  }

  /** Safety of the commit point: every offset the ledger holds at or below
      the last offset of the processed prefix is processed, so committing one
      past it never skips an unprocessed record. */
  lemma CommitPointSafe(p: TopicPartition, l: Ledger, minConsumedAt: Option<int>, last: int)
    requires OffsetToCommit(p, l, minConsumedAt) == Success(Some(last))
    ensures forall o :: o <= last && Find(l, o).Some? ==> Find(l, o).value.status == Processed
  {
    var n := ProcessedPrefix(l);
    assert l[n - 1].offset == last;
    forall o | o <= last && Find(l, o).Some?
      ensures Find(l, o).value.status == Processed
    {
      var i := FindSome(l, o);
      assert i < n;
      FindEntry(l, i);
    }
  }

  /** Pruning a ledger at one past its commit point drops only processed
      entries: a merely consumed offset is never lost. */
  lemma PruneAtCommitDropsOnlyProcessed(p: TopicPartition, l: Ledger, minConsumedAt: Option<int>, last: int)
    requires OffsetToCommit(p, l, minConsumedAt) == Success(Some(last))
    ensures forall o :: Find(l, o).Some? && Find(RemoveCommitted(l, last + 1), o).None? ==>
                        Find(l, o).value.status == Processed
  {
    CommitPointSafe(p, l, minConsumedAt, last);
  }

  /** Two ledgers holding the same offsets hold them at the same indices. */
  lemma {:induction false} SameKeysAligned(l1: Ledger, l2: Ledger)
    requires forall k :: Find(l1, k).Some? <==> Find(l2, k).Some?
    ensures |l1| == |l2|
    ensures forall i :: 0 <= i < |l1| ==> l1[i].offset == l2[i].offset
  {
    if |l1| > 0 {
      FindEntry(l1, 0);
    }
    if |l2| > 0 {
      FindEntry(l2, 0);
    }
    if |l1| > 0 && |l2| > 0 {
      var a, b := l1[0].offset, l2[0].offset;
      if a < b {
        FindBelowFirst(l2, a);
      } else if b < a {
        FindBelowFirst(l1, b);
      }
      assert a == b;
      var t1: Ledger, t2: Ledger := l1[1..], l2[1..];
      forall k
        ensures Find(t1, k).Some? <==> Find(t2, k).Some?
      {
        if k == a {
          FindBelowFirst(t1, k);
          FindBelowFirst(t2, k);
        } else {
          assert Find(l1, k) == Find(t1, k);
          assert Find(l2, k) == Find(t2, k);
        }
      }
      SameKeysAligned(t1, t2);
      forall i | 0 <= i < |l1|
        ensures l1[i].offset == l2[i].offset
      {
        if i > 0 {
          assert l1[i] == t1[i - 1] && l2[i] == t2[i - 1];
        }
      }
    }
  }

  /** A ledger is determined by its map view. */
  lemma LedgerExtensionality(l1: Ledger, l2: Ledger)
    requires forall k :: Find(l1, k) == Find(l2, k)
    ensures l1 == l2
  {
    SameKeysAligned(l1, l2);
    forall i | 0 <= i < |l1|
      ensures l1[i] == l2[i]
    {
      FindEntry(l1, i);
      FindEntry(l2, i);
    }
  }

  /** Marking two offsets processed gives the same ledger in either order, and
      one order succeeds exactly when the other does. */
  lemma UpdateProcessedCommutes(p: TopicPartition, l: Ledger, a: int, b: int)
    requires UpdateProcessed(p, l, a).Success? && UpdateProcessed(p, l, b).Success?
    ensures UpdateProcessed(p, UpdateProcessed(p, l, a).value, b)
            == UpdateProcessed(p, UpdateProcessed(p, l, b).value, a)
  {
    var la, lb := UpdateProcessed(p, l, a).value, UpdateProcessed(p, l, b).value;
    var rab, rba := UpdateProcessed(p, la, b), UpdateProcessed(p, lb, a);
    if a != b {
      assert rab.Success? && rba.Success?;
      LedgerExtensionality(rab.value, rba.value);
    }
  }

  /** With statuses agreeing index by index, the processed prefixes agree. */
  lemma {:induction false} PrefixFollowsStatuses(l1: seq<Entry>, l2: seq<Entry>)
    requires |l1| == |l2|
    requires forall i :: 0 <= i < |l1| ==> (l1[i].info.status == Processed <==> l2[i].info.status == Processed)
    ensures ProcessedPrefix(l1) == ProcessedPrefix(l2)
  {
    if |l1| > 0 && l1[0].info.status == Processed {
      assert forall i :: 0 <= i < |l1| - 1 ==> l1[1..][i] == l1[i + 1] && l2[1..][i] == l2[i + 1];
      PrefixFollowsStatuses(l1[1..], l2[1..]);
    }
  }

  /** The commit result depends only on which offsets are held, which of
      them are processed, and the consumption times of those still pending:
      how long a processed entry waited never matters. */
  lemma CommitDependsOnlyOnProcessedSet(p: TopicPartition, l1: Ledger, l2: Ledger, minConsumedAt: Option<int>)
    requires forall k :: Find(l1, k).Some? <==> Find(l2, k).Some?
    requires forall k :: Find(l1, k).Some? ==>
                         (Find(l1, k).value.status == Processed <==> Find(l2, k).value.status == Processed)
    requires forall k :: Find(l1, k).Some? && Find(l1, k).value.status == Consumed ==>
                         Find(l1, k).value.timestamp == Find(l2, k).value.timestamp
    ensures OffsetToCommit(p, l1, minConsumedAt) == OffsetToCommit(p, l2, minConsumedAt)
  {
    SameKeysAligned(l1, l2);
    forall i | 0 <= i < |l1|
      ensures l1[i].info.status == Processed <==> l2[i].info.status == Processed
      ensures l1[i].info.status == Consumed ==> l1[i].info.timestamp == l2[i].info.timestamp
    {
      FindEntry(l1, i);
      FindEntry(l2, i);
    }
    PrefixFollowsStatuses(l1, l2);
  }

  /** The scan stops at the first unprocessed entry: entries after it never
      influence the outcome, whatever the cutoff. */
  lemma CommitIgnoresEntriesPastBlocker(p: TopicPartition, l1: Ledger, l2: Ledger, minConsumedAt: Option<int>)
    requires ProcessedPrefix(l1) < |l1|
    requires ProcessedPrefix(l1) < |l2| && l1[..ProcessedPrefix(l1) + 1] == l2[..ProcessedPrefix(l1) + 1]
    ensures OffsetToCommit(p, l1, minConsumedAt) == OffsetToCommit(p, l2, minConsumedAt)
  {
    var n := ProcessedPrefix(l1);
    forall i | 0 <= i <= n
      ensures l1[i] == l2[i]
    {
      assert l1[i] == l1[..n + 1][i] && l2[i] == l2[..n + 1][i];
    }
    ProcessedPrefixUnique(l2, n);
    assert l1[n] == l2[n];
    if n > 0 {
      assert l1[n - 1] == l2[n - 1];
    }
  }

  /** Contiguity is among ledger entries, not among integers: a ledger
      holding offsets 0, 1, 2, 5 and 6, all processed, commits up to 6 even
      though 3 and 4 were never tracked. The ledger is given literally; this
      checks the scan, not the operations that would build it. */
  lemma CommitSkipsUntrackedOffsets(p: TopicPartition)
    ensures var l: Ledger := [Entry(0, Info(Processed, 10)), Entry(1, Info(Processed, 10)), Entry(2, Info(Processed, 10)),
                              Entry(5, Info(Processed, 10)), Entry(6, Info(Processed, 10))];
            OffsetToCommit(p, l, None) == Success(Some(6))
  {
    var l: Ledger := [Entry(0, Info(Processed, 10)), Entry(1, Info(Processed, 10)), Entry(2, Info(Processed, 10)),
                      Entry(5, Info(Processed, 10)), Entry(6, Info(Processed, 10))];
    ProcessedPrefixUnique(l, 5);
  }

  /** Offsets 0, 1, 2 consumed at 10, 15, 20 with only 0 processed: a cutoff
      of 20 times out naming offset 1, while a cutoff equal to its timestamp
      does not time out and commits up to 0. The ledger is given literally,
      as the `addConsumed`/`updateProcessed` calls of the corresponding test
      would leave it; the lemma checks the scan, not those calls. */
  lemma TimeoutNamesFirstBlockingOffset(p: TopicPartition)
    ensures var l: Ledger := [Entry(0, Info(Processed, 10)), Entry(1, Info(Consumed, 15)), Entry(2, Info(Consumed, 20))];
            && OffsetToCommit(p, l, Some(20)) == Failure(ProcessingTimeout(p, 1))
            && OffsetToCommit(p, l, Some(15)) == Success(Some(0))
  {
    var l: Ledger := [Entry(0, Info(Processed, 10)), Entry(1, Info(Consumed, 15)), Entry(2, Info(Consumed, 20))];
    ProcessedPrefixUnique(l, 1);
  }
}
