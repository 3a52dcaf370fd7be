/** Closed offset ranges: compaction of a strictly increasing run of offsets
    into maximal ranges, and enumeration of one range forwards and backwards
    (RangeUtils). Java `long` offsets are unbounded integers here. */
module Ranges {
  import opened Results

  /** An inclusive interval `[lower, upper]` of offsets. */
  datatype ClosedRange = ClosedRange(lower: int, upper: int)

  /** The invariant every range built by the builder keeps. */
  predicate WellFormed(r: ClosedRange) {
    r.lower <= r.upper
  }

  /** Raised when an offset is not strictly greater than the one before it. */
  datatype OutOfOrder = OutOfOrderInput(previous: int, offset: int)

  /** Offsets in strictly ascending order. */
  predicate StrictlyIncreasing(xs: seq<int>) {
    IncreasingBefore(xs, |xs|)
  }

  /** The first `n` offsets of `xs` are strictly increasing. */
  predicate IncreasingBefore(xs: seq<int>, n: int)
    requires n <= |xs|
  {
    forall a, b :: 0 <= a < b < n ==> xs[a] < xs[b]
  }

  predicate AllWellFormed(rs: seq<ClosedRange>) {
    forall i :: 0 <= i < |rs| ==> WellFormed(rs[i])
  }

  /** Consecutive ranges are ascending and separated by at least one missing
      offset, so no two of them could be merged into one. */
  predicate Maximal(rs: seq<ClosedRange>) {
    forall i :: 0 <= i < |rs| - 1 ==> rs[i].upper + 1 < rs[i + 1].lower
  }

  /** The offsets of `r` in ascending order (`elementsStream`). */
  function Elements(r: ClosedRange): (s: seq<int>)
    requires WellFormed(r)
    ensures |s| == r.upper - r.lower + 1
    ensures StrictlyIncreasing(s)
    ensures forall x :: x in s <==> r.lower <= x <= r.upper
  {
    var s := seq(r.upper - r.lower + 1, i requires 0 <= i <= r.upper - r.lower => r.lower + i);
    forall x | r.lower <= x <= r.upper
      ensures x in s
    {
      assert s[x - r.lower] == x;
    }
    s
  }

  /** The one-offset range used when a caller supplies a single offset. */
  function SingleElementRange(offset: int): (r: ClosedRange)
    ensures WellFormed(r)
    ensures Elements(r) == [offset]
  {
    var r := ClosedRange(offset, offset);
    assert Elements(r)[0] == offset;
    r
  }

  function Reverse(s: seq<int>): (t: seq<int>)
    ensures |t| == |s|
    ensures forall i :: 0 <= i < |s| ==> t[i] == s[|s| - 1 - i]
  {
    if |s| == 0 then [] else Reverse(s[1..]) + [s[0]]
  }

  /** `reverseElementsStream`: element `x` of the forward enumeration is
      mapped to `upper - x + lower`. */
  function ReverseElements(r: ClosedRange): (s: seq<int>)
    requires WellFormed(r)
    ensures s == Reverse(Elements(r))
  {
    var e := Elements(r);
    var s := seq(|e|, i requires 0 <= i < |e| => r.upper - e[i] + r.lower);
    assert forall i :: 0 <= i < |e| ==> e[i] == r.lower + i by {
      forall i | 0 <= i < |e|
        ensures e[i] == r.lower + i
      {
        ElementAt(r, i);
      }
    }
    s
  }

  lemma ElementAt(r: ClosedRange, i: int)
    requires WellFormed(r)
    requires 0 <= i <= r.upper - r.lower
    ensures Elements(r)[i] == r.lower + i
  {
  }

  /** All offsets of the ranges, in list order. */
  function Flatten(rs: seq<ClosedRange>): seq<int>
    requires AllWellFormed(rs)
  {
    if |rs| == 0 then [] else Elements(rs[0]) + Flatten(rs[1..])
  }

  lemma FlattenAppend(rs: seq<ClosedRange>, r: ClosedRange)
    requires AllWellFormed(rs) && WellFormed(r)
    ensures AllWellFormed(rs + [r])
    ensures Flatten(rs + [r]) == Flatten(rs) + Elements(r)
  {
    if |rs| == 0 {
      assert [r][1..] == [];
    } else {
      assert (rs + [r])[1..] == rs[1..] + [r];
      FlattenAppend(rs[1..], r);
    }
  }

  lemma ExtendElements(lo: int, hi: int)
    requires lo <= hi
    ensures Elements(ClosedRange(lo, hi + 1)) == Elements(ClosedRange(lo, hi)) + [hi + 1]
  {
    var a := Elements(ClosedRange(lo, hi + 1));
    var b := Elements(ClosedRange(lo, hi)) + [hi + 1];
    assert |a| == |b|;
    forall i | 0 <= i < |a|
      ensures a[i] == b[i]
    {
      ElementAt(ClosedRange(lo, hi + 1), i);
      if i < hi - lo + 1 {
        ElementAt(ClosedRange(lo, hi), i);
      }
    }
  }

  lemma IncreasingStep(xs: seq<int>, i: int)
    requires 0 < i < |xs| && IncreasingBefore(xs, i) && xs[i - 1] < xs[i]
    ensures IncreasingBefore(xs, i + 1)
  {
    forall a, b | 0 <= a < b < i + 1
      ensures xs[a] < xs[b]
    {
      if b == i && a < i - 1 {
        assert xs[a] < xs[i - 1];
      }
    }
  }

  /** Loop invariant of `RangesFromLongs` once `i > 0` offsets are read:
      `done` holds the closed ranges, `c` the range still being built, and
      together they cover exactly the offsets read so far. */
  predicate Built(xs: seq<int>, i: int, done: seq<ClosedRange>, c: ClosedRange)
  {
    && 0 < i <= |xs|
    && AllWellFormed(done) && Maximal(done) && WellFormed(c)
    && c.upper == xs[i - 1]
    && Flatten(done) + Elements(c) == xs[..i]
    && (|done| > 0 ==> done[|done| - 1].upper + 1 < c.lower)
  }

  lemma StartBuilt(xs: seq<int>)
    requires |xs| > 0
    ensures Built(xs, 1, [], ClosedRange(xs[0], xs[0]))
  {
    ElementAt(ClosedRange(xs[0], xs[0]), 0);
    assert xs[..1] == [xs[0]];
  }

  /** Loop step when the next offset is one past the current range. */
  lemma ExtendBuilt(xs: seq<int>, i: int, done: seq<ClosedRange>, c: ClosedRange)
    requires Built(xs, i, done, c) && i < |xs| && xs[i] == c.upper + 1
    ensures Built(xs, i + 1, done, ClosedRange(c.lower, xs[i]))
  {
    ExtendElements(c.lower, c.upper);
    assert xs[..i + 1] == xs[..i] + [xs[i]];
  }

  /** Loop step when the next offset leaves a gap: the current range is
      closed and a one-offset range is opened. */
  lemma CloseBuilt(xs: seq<int>, i: int, done: seq<ClosedRange>, c: ClosedRange)
    requires Built(xs, i, done, c) && i < |xs| && xs[i] > c.upper + 1
    ensures Built(xs, i + 1, done + [c], ClosedRange(xs[i], xs[i]))
  {
    FlattenAppend(done, c);
    ElementAt(ClosedRange(xs[i], xs[i]), 0);
    assert Elements(ClosedRange(xs[i], xs[i])) == [xs[i]];
    assert xs[..i + 1] == xs[..i] + [xs[i]];
  }

  lemma FinishBuilt(xs: seq<int>, done: seq<ClosedRange>, c: ClosedRange)
    requires Built(xs, |xs|, done, c)
    ensures AllWellFormed(done + [c]) && Maximal(done + [c]) && Flatten(done + [c]) == xs
  {
    FlattenAppend(done, c);
    assert xs[..|xs|] == xs;
  }

  /** `rangesFromLongs`: folds offsets, visited in order, into maximal closed
      ranges. An offset one past the last extends the current range, a larger
      jump closes it, and an offset not above the last one fails. */
  method RangesFromLongs(xs: seq<int>) returns (r: Result<seq<ClosedRange>, OutOfOrder>)
    ensures r.Success? <==> StrictlyIncreasing(xs)
    ensures r.Success? ==> AllWellFormed(r.value) && Maximal(r.value) && Flatten(r.value) == xs
    ensures r.Failure? ==>
              exists i :: 0 < i < |xs| && xs[i] <= xs[i - 1] && IncreasingBefore(xs, i)
                          && r.error == OutOfOrderInput(xs[i - 1], xs[i])
  {
    var done: seq<ClosedRange> := [];
    var current: Option<ClosedRange> := None;
    var i := 0;
    while i < |xs|
      invariant 0 <= i <= |xs|
      invariant IncreasingBefore(xs, i)
      invariant i == 0 ==> current.None? && done == []
      invariant i > 0 ==> current.Some? && Built(xs, i, done, current.value)
    {
      var offset := xs[i];
      if current.None? {
        StartBuilt(xs);
        current := Some(ClosedRange(offset, offset));
      } else {
        var c := current.value;
        if offset <= c.upper {
          return Failure(OutOfOrderInput(xs[i - 1], offset));
        }
        IncreasingStep(xs, i);
        if offset == c.upper + 1 {
          ExtendBuilt(xs, i, done, c);
          current := Some(ClosedRange(c.lower, offset));
        } else {
          CloseBuilt(xs, i, done, c);
          done := done + [c];
          current := Some(ClosedRange(offset, offset));
        }
      }
      i := i + 1;
    }
    if current.Some? {
      FinishBuilt(xs, done, current.value);
      r := Success(done + [current.value]);
    } else {
      r := Success([]);
    }
  }

  lemma FlattenNonEmpty(rs: seq<ClosedRange>)
    requires AllWellFormed(rs) && |rs| > 0
    ensures |Flatten(rs)| > 0
  {
    assert |Flatten(rs)| >= |Elements(rs[0])|;
  }

  /** The maximal decomposition of an offset sequence is unique: any two lists
      of well-formed maximal ranges covering the same offsets are equal. */
  lemma {:induction false} MaximalRangesUnique(rs1: seq<ClosedRange>, rs2: seq<ClosedRange>)
    requires AllWellFormed(rs1) && Maximal(rs1)
    requires AllWellFormed(rs2) && Maximal(rs2)
    requires Flatten(rs1) == Flatten(rs2)
    ensures rs1 == rs2
    decreases |rs1|
  {
    if |rs1| > 0 {
      FlattenNonEmpty(rs1);
    }
    if |rs2| > 0 {
      FlattenNonEmpty(rs2);
    }
    if |rs1| > 0 && |rs2| > 0 {
      var a, b := rs1[0], rs2[0];
      var f := Flatten(rs1);
      ElementAt(a, 0);
      ElementAt(b, 0);
      assert a.lower == f[0] == b.lower;
      if a.upper < b.upper {
        FirstRangeDecides(rs1, rs2);
      } else if b.upper < a.upper {
        FirstRangeDecides(rs2, rs1);
      }
      assert a == b;
      var n := |Elements(a)|;
      assert Flatten(rs1[1..]) == f[n..];
      assert Flatten(rs2[1..]) == f[n..];
      MaximalRangesUnique(rs1[1..], rs2[1..]);
      assert rs1 == [a] + rs1[1..];
      assert rs2 == [b] + rs2[1..];
    }
  }

  /** Helper of `MaximalRangesUnique`: if the first range of a maximal `rs1`
      stops before the first range of `rs2`, their flattenings differ right
      after it. */
  lemma FirstRangeDecides(rs1: seq<ClosedRange>, rs2: seq<ClosedRange>)
    requires AllWellFormed(rs1) && Maximal(rs1) && |rs1| > 0
    requires AllWellFormed(rs2) && |rs2| > 0
    requires rs1[0].lower == rs2[0].lower && rs1[0].upper < rs2[0].upper
    ensures Flatten(rs1) != Flatten(rs2)
  {
    var a, b := rs1[0], rs2[0];
    var k := a.upper - a.lower + 1;
    ElementAt(b, k);
    assert Flatten(rs2) == Elements(b) + Flatten(rs2[1..]);
    assert Flatten(rs2)[k] == a.upper + 1;
    assert Flatten(rs1) == Elements(a) + Flatten(rs1[1..]);
    if |rs1| == 1 {
      assert |Flatten(rs1)| == k;
    } else {
      var c := rs1[1];
      assert Flatten(rs1[1..]) == Elements(c) + Flatten(rs1[2..]);
      ElementAt(c, 0);
      assert Flatten(rs1)[k] == c.lower;
    }
  }
}
