/** The tracker facade (HeavyOffsetsState behind the OffsetsState interface):
    a registry from partition to ledger, and the operations the consumer,
    the workers and the committing thread call on it. Each operation is one
    atomic step on an immutable state; errors are returned, not thrown. */
module OffsetsState {
  import opened Results
  import opened Ranges
  import opened OffsetLedger

  /** The registry: the ledger of every registered partition. */
  type State = map<TopicPartition, Ledger>

  /** `register`: installs a fresh empty ledger for every listed partition,
      replacing a ledger the partition may already have. */
  function Register(s: State, partitions: seq<TopicPartition>): (r: State)
    ensures r.Keys == s.Keys + set p | p in partitions
    ensures forall p :: p in partitions ==> r[p] == []
    ensures forall p :: p in s && p !in partitions ==> r[p] == s[p]
    decreases |partitions|
  {
    if |partitions| == 0 then s
    else
      var r := Register(s[partitions[0] := []], partitions[1..]);
      assert forall p :: p in partitions <==> p == partitions[0] || p in partitions[1..];
      r
  }

  /** `unregister`: drops the ledger of every listed partition, whether or not
      it was registered. */
  function Unregister(s: State, partitions: seq<TopicPartition>): (r: State)
    ensures r.Keys == s.Keys - set p | p in partitions
    ensures forall p :: p in r ==> r[p] == s[p]
    decreases |partitions|
  {
    if |partitions| == 0 then s
    else
      var r := Unregister(s - {partitions[0]}, partitions[1..]);
      assert forall p :: p in partitions <==> p == partitions[0] || p in partitions[1..];
      r
  }

  /** `addConsumed(partition, offset, timestamp)`. A partition that is not
      registered is ignored. */
  function AddConsumed(s: State, p: TopicPartition, offset: int, timestamp: int): (r: Result<State, OffsetError>)
    ensures p !in s ==> r == Success(s)
    ensures p in s ==> (r.Failure? <==> Find(s[p], offset).Some?)
    ensures r.Failure? ==> r.error == BadOffset(ConsumedBefore, p, offset)
    ensures r.Success? ==> r.value.Keys == s.Keys && forall q :: q in s && q != p ==> r.value[q] == s[q]
    ensures r.Success? && p in s ==>
              forall k :: Find(r.value[p], k) == if k == offset then Some(Info(Consumed, timestamp)) else Find(s[p], k)
  {
    if p !in s then Success(s)
    else
      var l :- OffsetLedger.AddConsumed(p, s[p], offset, timestamp);
      Success(s[p := l])
  }

  /** Range form of `addConsumed` (declared by the interface, left
      unimplemented by the heavy state): consumes every offset of `range`,
      all or nothing. On a conflict nothing changes and the error names the
      smallest offset of the range the ledger already holds. */
  function AddConsumedRange(s: State, p: TopicPartition, range: ClosedRange, timestamp: int)
    : (r: Result<State, OffsetError>)
    requires WellFormed(range)
    ensures p !in s ==> r == Success(s)
    ensures p in s ==>
              (r.Success? <==> forall k :: range.lower <= k <= range.upper ==> Find(s[p], k).None?)
    ensures r.Failure? ==>
              && r.error.BadOffset? && r.error == BadOffset(ConsumedBefore, p, r.error.offset)
              && range.lower <= r.error.offset <= range.upper && Find(s[p], r.error.offset).Some?
              && forall k :: range.lower <= k < r.error.offset ==> Find(s[p], k).None?
    ensures r.Success? ==> r.value.Keys == s.Keys && forall q :: q in s && q != p ==> r.value[q] == s[q]
    ensures r.Success? && p in s ==>
              forall k :: Find(r.value[p], k) ==
                          if range.lower <= k <= range.upper then Some(Info(Consumed, timestamp)) else Find(s[p], k)
  {
    if p !in s then Success(s)
    else
      var os := Elements(range);
      var result := AddConsumedAll(p, s[p], os, timestamp);
      RangeConsumeFacts(p, s[p], range, timestamp);
      var l :- result;
      Success(s[p := l])
  }

  /** Helper of `AddConsumedRange`: restates the guarantees of consuming the
      offset list of `range` in terms of the range bounds. */
  lemma RangeConsumeFacts(p: TopicPartition, l: Ledger, range: ClosedRange, timestamp: int)
    requires WellFormed(range)
    ensures var r := AddConsumedAll(p, l, Elements(range), timestamp);
            && (r.Success? <==> forall k :: range.lower <= k <= range.upper ==> Find(l, k).None?)
            && (r.Failure? ==> range.lower <= r.error.offset <= range.upper
                               && forall k :: range.lower <= k < r.error.offset ==> Find(l, k).None?)
  {
    var os := Elements(range);
    var r := AddConsumedAll(p, l, os, timestamp);
    if r.Success? {
      forall k | range.lower <= k <= range.upper
        ensures Find(l, k).None?
      {
        var i := ElementIndex(range, k);
      }
    } else {
      var o := r.error.offset;
      var j := ElementIndex(range, o);
      assert Find(l, o).Some?;
      forall k | range.lower <= k < o
        ensures Find(l, k).None?
      {
        var i := ElementIndex(range, k);
      }
    }
  }

  /** Where offset `k` of a range sits in its enumeration. */
  lemma ElementIndex(range: ClosedRange, k: int) returns (i: int)
    requires WellFormed(range) && (range.lower <= k <= range.upper || k in Elements(range))
    ensures 0 <= i < |Elements(range)| && Elements(range)[i] == k
    ensures range.lower <= k <= range.upper
  {
    i := k - range.lower;
    ElementAt(range, i);
  }

  /** The interface's `addConsumed(partition, range)`: the range form stamped
      with the clock reading `now`, which the caller supplies. */
  function AddConsumedRangeNow(s: State, p: TopicPartition, range: ClosedRange, now: int)
    : (r: Result<State, OffsetError>)
    requires WellFormed(range)
    ensures r.Success? ==> r.value.Keys == s.Keys
    ensures r.Success? && p in s ==>
              forall k :: range.lower <= k <= range.upper ==> Find(r.value[p], k) == Some(Info(Consumed, now))
  {
    AddConsumedRange(s, p, range, now)
  }

  /** The interface's single-offset `addConsumed` delegates to the range form
      on a one-offset range; it behaves exactly like the heavy state's own
      single-offset operation. */
  lemma SingleOffsetIsSingletonRange(s: State, p: TopicPartition, offset: int, timestamp: int)
    ensures AddConsumedRange(s, p, SingleElementRange(offset), timestamp) == AddConsumed(s, p, offset, timestamp)
  {
    if p in s {
      var l := s[p];
      assert Elements(SingleElementRange(offset)) == [offset];
      assert [offset][1..] == [];
      assert AddConsumedAll(p, l, [offset], timestamp) == OffsetLedger.AddConsumed(p, l, offset, timestamp);
    }
  }

  /** `updateProcessed(partition, offset)`. A partition that is not
      registered is ignored. */
  function UpdateProcessed(s: State, p: TopicPartition, offset: int): (r: Result<State, OffsetError>)
    ensures p !in s ==> r == Success(s)
    ensures p in s && Find(s[p], offset).None? ==> r == Failure(BadOffset(NotConsumedBefore, p, offset))
    ensures p in s && Find(s[p], offset).Some? && Find(s[p], offset).value.status == Processed ==>
              r == Failure(BadOffset(ProcessedBefore, p, offset))
    ensures p in s ==> (r.Success? <==> Find(s[p], offset).Some? && Find(s[p], offset).value.status == Consumed)
    ensures r.Success? ==> r.value.Keys == s.Keys && forall q :: q in s && q != p ==> r.value[q] == s[q]
    ensures r.Success? && p in s ==>
              forall k :: Find(r.value[p], k) ==
                          if k == offset then Some(Info(Processed, Find(s[p], offset).value.timestamp))
                          else Find(s[p], k)
  {
    if p !in s then Success(s)
    else
      var l :- OffsetLedger.UpdateProcessed(p, s[p], offset);
      Success(s[p := l])
  }

  /** The partition at index `i` of `ps` is the first registered one whose
      scan fails, and it fails with `e`. */
  predicate FirstTimeout(s: State, ps: seq<TopicPartition>, minConsumedAt: Option<int>, i: int, e: OffsetError)
  {
    && 0 <= i < |ps| && ps[i] in s
    && OffsetToCommit(ps[i], s[ps[i]], minConsumedAt) == Failure(e)
    && forall j :: 0 <= j < i && ps[j] in s ==> OffsetToCommit(ps[j], s[ps[j]], minConsumedAt).Success?
  }

  /** A failure found after a head partition that did not fail is still the
      first one, one index further on. */
  lemma FirstTimeoutShift(s: State, ps: seq<TopicPartition>, minConsumedAt: Option<int>, i: int, e: OffsetError)
    requires |ps| > 0 && FirstTimeout(s, ps[1..], minConsumedAt, i, e)
    requires ps[0] in s ==> OffsetToCommit(ps[0], s[ps[0]], minConsumedAt).Success?
    ensures FirstTimeout(s, ps, minConsumedAt, i + 1, e)
  {
    assert ps[i + 1] == ps[1..][i];
    forall j | 0 <= j < i + 1 && ps[j] in s
      ensures OffsetToCommit(ps[j], s[ps[j]], minConsumedAt).Success?
    {
      if j > 0 {
        assert ps[j] == ps[1..][j - 1];
      }
    }
  }

  /** `getOffsetsToCommit(assignedPartitions, minConsumedAt)`. The assigned
      partitions are given in the order the set is iterated; the first
      partition whose scan times out decides the error. Partitions without a
      ledger, or with an empty processed prefix, are left out of the result. */
  function GetOffsetsToCommit(s: State, assignedPartitions: seq<TopicPartition>, minConsumedAt: Option<int>)
    : (r: Result<map<TopicPartition, int>, OffsetError>)
    ensures r.Success? <==>
              forall q :: q in assignedPartitions && q in s ==> OffsetToCommit(q, s[q], minConsumedAt).Success?
    ensures r.Failure? ==> exists i :: FirstTimeout(s, assignedPartitions, minConsumedAt, i, r.error)
    ensures r.Success? ==>
              forall q :: q in r.value <==>
                          q in assignedPartitions && q in s && OffsetToCommit(q, s[q], minConsumedAt).value.Some?
    ensures r.Success? ==>
              forall q :: q in r.value ==> r.value[q] == OffsetToCommit(q, s[q], minConsumedAt).value.value + 1
    decreases |assignedPartitions|
  {
    if |assignedPartitions| == 0 then Success(map[])
    else
      var p := assignedPartitions[0];
      var rest := assignedPartitions[1..];
      assert forall q :: q in assignedPartitions <==> q == p || q in rest;
      if p !in s then
        var r := GetOffsetsToCommit(s, rest, minConsumedAt);
        if r.Failure? then
          ghost var i :| FirstTimeout(s, rest, minConsumedAt, i, r.error);
          FirstTimeoutShift(s, assignedPartitions, minConsumedAt, i, r.error);
          r
        else r
      else
        var head := OffsetToCommit(p, s[p], minConsumedAt);
        if head.Failure? then
          assert FirstTimeout(s, assignedPartitions, minConsumedAt, 0, head.error);
          Failure(head.error)
        else
        var k := head.value;
        var r := GetOffsetsToCommit(s, rest, minConsumedAt);
        if r.Failure? then
          ghost var i :| FirstTimeout(s, rest, minConsumedAt, i, r.error);
          FirstTimeoutShift(s, assignedPartitions, minConsumedAt, i, r.error);
          r
        else if k.Some? then Success(r.value[p := k.value + 1])
        else Success(r.value)
  }

  /** The interface's `getOffsetsToCommit(assignedPartitions)`: no cutoff, so
      it never times out; a registered partition is in the result exactly
      when its first tracked offset is processed, mapped to one past the end
      of its processed prefix. */
  function GetOffsetsToCommitNoCutoff(s: State, assignedPartitions: seq<TopicPartition>)
    : (r: Result<map<TopicPartition, int>, OffsetError>)
    ensures r.Success?
    ensures forall q :: q in r.value <==> q in assignedPartitions && q in s && ProcessedPrefix(s[q]) > 0
    ensures forall q :: q in r.value ==> r.value[q] == s[q][ProcessedPrefix(s[q]) - 1].offset + 1
  {
    GetOffsetsToCommit(s, assignedPartitions, None)
  }

  /** `removeCommitted(offsetsAndMetadata)`: in every registered partition
      named by `commits`, drops the entries strictly below the committed
      offset; everything else is left as it was. */
  function RemoveCommitted(s: State, commits: map<TopicPartition, int>): (r: State)
    ensures r.Keys == s.Keys
    ensures forall q :: q in s && q !in commits ==> r[q] == s[q]
    ensures forall q :: q in s && q in commits ==>
                        forall k :: Find(r[q], k) == if k < commits[q] then None else Find(s[q], k)
  {
    map q | q in s :: if q in commits then OffsetLedger.RemoveCommitted(s[q], commits[q]) else s[q]
  }

  /** Safety of a commit: below the offset reported for a partition, every
      offset its ledger holds is processed. */
  lemma CommitSafety(s: State, assignedPartitions: seq<TopicPartition>, minConsumedAt: Option<int>,
                     commits: map<TopicPartition, int>)
    requires GetOffsetsToCommit(s, assignedPartitions, minConsumedAt) == Success(commits)
    ensures forall q :: q in commits ==> q in s
    ensures forall q, o :: q in commits && o < commits[q] && Find(s[q], o).Some? ==>
                           Find(s[q], o).value.status == Processed
  {
    forall q, o | q in commits && o < commits[q] && Find(s[q], o).Some?
      ensures Find(s[q], o).value.status == Processed
    {
      var c := OffsetToCommit(q, s[q], minConsumedAt);
      assert c.Success? && c.value.Some? && commits[q] == c.value.value + 1;
      CommitPointSafe(q, s[q], minConsumedAt, commits[q] - 1);
    }
  }

  /** An entry leaves a ledger only after it has been processed: garbage
      collection driven by a computed commit never drops a merely consumed
      offset. */
  lemma RemoveCommittedDropsOnlyProcessed(s: State, assignedPartitions: seq<TopicPartition>, minConsumedAt: Option<int>,
                                          commits: map<TopicPartition, int>)
    requires GetOffsetsToCommit(s, assignedPartitions, minConsumedAt) == Success(commits)
    ensures forall q, o :: q in s && Find(s[q], o).Some? && Find(RemoveCommitted(s, commits)[q], o).None? ==>
                           Find(s[q], o).value.status == Processed
  {
    CommitSafety(s, assignedPartitions, minConsumedAt, commits);
  }

  /** Committing and then collecting the committed entries leaves nothing
      further to commit until more offsets are processed. */
  lemma CommitThenRemoveLeavesNothingToCommit(s: State, assignedPartitions: seq<TopicPartition>, minConsumedAt: Option<int>,
                                              commits: map<TopicPartition, int>)
    requires GetOffsetsToCommit(s, assignedPartitions, minConsumedAt) == Success(commits)
    ensures GetOffsetsToCommitNoCutoff(RemoveCommitted(s, commits), assignedPartitions) == Success(map[])
  {
    var s' := RemoveCommitted(s, commits);
    forall q | q in assignedPartitions && q in s'
      ensures ProcessedPrefix(s'[q]) == 0
    {
      var c := OffsetToCommit(q, s[q], minConsumedAt);
      assert c.Success?;
      if q in commits {
        RemovePastCommitBlocks(q, s[q], minConsumedAt, commits[q] - 1);
      }
    }
    var r := GetOffsetsToCommitNoCutoff(s', assignedPartitions);
    assert r.value.Keys == {};
  }

  /** After pruning a ledger below its commit point, its first entry (if
      any) is the one that blocked the processed prefix. */
  lemma RemovePastCommitBlocks(p: TopicPartition, l: Ledger, minConsumedAt: Option<int>, last: int)
    requires OffsetToCommit(p, l, minConsumedAt) == Success(Some(last))
    ensures ProcessedPrefix(OffsetLedger.RemoveCommitted(l, last + 1)) == 0
  {
    var n := ProcessedPrefix(l);
    RemoveCommittedIsSuffix(l, n, last + 1);
    assert n < |l| ==> l[n..][0] == l[n];
  }

  /** Pruning below one past the end of a processed prefix of length `n`
      leaves exactly the entries from index `n` on. */
  lemma {:induction false} RemoveCommittedIsSuffix(l: Ledger, n: nat, offset: int)
    requires n <= |l|
    requires n > 0 ==> l[n - 1].offset < offset
    requires n < |l| ==> offset <= l[n].offset
    ensures OffsetLedger.RemoveCommitted(l, offset) == l[n..]
  {
    if n > 0 {
      assert l[0].offset <= l[n - 1].offset;
      var t: Ledger := l[1..];
      assert n - 1 > 0 ==> t[n - 2] == l[n - 1];
      assert n - 1 < |t| ==> t[n - 1] == l[n];
      RemoveCommittedIsSuffix(t, n - 1, offset);
      assert t[n - 1..] == l[n..];
    } else if |l| > 0 {
      assert l[0..] == l;
    }
  }
}
