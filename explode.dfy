/**
 * `explodeToUnits` of lib/adjust.ts: every interval expanded into the units it covers, in
 * order; a wrapping interval (start after end) yields `0 .. end - 1` and then
 * `start .. UnitMaximum - 1`, and its `end` is overwritten with `UnitMaximum` in place.
 */
module Exploder {
  import opened Units
  import opened Seqs

  /** Whether an interval, read as the source reads it, covers unit `u`. */
  predicate Covers(iv: Interval, u: int) {
    if iv.start > iv.end then 0 <= u < iv.end || iv.start <= u < UnitMaximum
    else iv.start <= u < iv.end
  }

  /** The units one interval contributes, in the order the two loops push them. */
  function ExplodeOne(iv: Interval): (r: seq<int>)
    ensures iv.start < iv.end ==> |r| == iv.end - iv.start
    ensures iv.start == iv.end ==> r == []
  {
    if iv.start > iv.end then Range(0, iv.end) + Range(iv.start, UnitMaximum)
    else Range(iv.start, iv.end)
  }

  /** The units of one interval are exactly those it covers. */
  lemma ExplodeOneMembers(iv: Interval, u: int)
    ensures u in ExplodeOne(iv) <==> Covers(iv, u)
  {
    RangeMembers(0, iv.end, u);
    RangeMembers(iv.start, UnitMaximum, u);
    RangeMembers(iv.start, iv.end, u);
  }

  /** The units of all intervals, interval after interval. */
  function Explode(intervals: seq<Interval>): (r: seq<int>)
    ensures intervals == [] ==> r == []
    ensures |intervals| == 1 ==> r == ExplodeOne(intervals[0])
  {
    assert |intervals| == 1 ==> FlatMap(intervals[..0], ExplodeOne) == [];
    FlatMap(intervals, ExplodeOne)
  }

  /** The in-place update: a wrapping interval gets `end := UnitMaximum`, the rest stay. */
  function Widen(iv: Interval): (r: Interval)
    ensures r.start == iv.start
    ensures r.end == if iv.start > iv.end then UnitMaximum else iv.end
  {
    if iv.start > iv.end then iv.(end := UnitMaximum) else iv
  }

  function WidenAll(intervals: seq<Interval>): (r: seq<Interval>)
    ensures |r| == |intervals|
    ensures forall k :: 0 <= k < |r| ==> r[k] == Widen(intervals[k])
  {
    seq(|intervals|, k requires 0 <= k < |intervals| => Widen(intervals[k]))
  }

  /** Exploding keeps the order of the intervals: the units of a list followed by another. */
  lemma ExplodeAppend(a: seq<Interval>, b: seq<Interval>)
    ensures Explode(a + b) == Explode(a) + Explode(b)
  {
    FlatMapAppend(a, b, ExplodeOne);
  }

  /** A unit is exploded exactly when some interval covers it. */
  lemma ExplodeMembers(intervals: seq<Interval>, u: int)
    ensures u in Explode(intervals) <==> exists k :: 0 <= k < |intervals| && Covers(intervals[k], u)
  {
    FlatMapMembers(intervals, ExplodeOne, u);
    forall k | 0 <= k < |intervals| {
      ExplodeOneMembers(intervals[k], u);
    }
  }

  /** Exploding one more interval of a list. */
  lemma ExplodePrefix(intervals: seq<Interval>, k: int)
    requires 0 <= k < |intervals|
    ensures Explode(intervals[..k + 1]) == Explode(intervals[..k]) + ExplodeOne(intervals[k])
  {
    assert intervals[..k + 1][..k] == intervals[..k];
  }

  /**
   * The body of the loop of `explodeToUnits` for one interval: the units it pushes, and the
   * interval as the loop leaves it.
   */
  method ExplodeInterval(interval: Interval) returns (units: seq<int>, widened: Interval)
    ensures units == ExplodeOne(interval)
    ensures widened == Widen(interval)
  {
    units := [];
    widened := interval;
    if widened.start > widened.end {
      var i := 0;
      while i < widened.end
        invariant 0 <= i && (i <= widened.end || i == 0)
        invariant units == Range(0, i)
      {
        units := units + [i];
        i := i + 1;
      }
      widened := widened.(end := UnitMaximum);
    }
    ghost var before := units;
    var i := widened.start;
    while i < widened.end
      invariant widened.start <= i && (i <= widened.end || i == widened.start)
      invariant units == before + Range(widened.start, i)
    {
      units := units + [i];
      i := i + 1;
    }
  }

  /**
   * `explodeToUnits`: returns the units of every interval, in order, and leaves each
   * wrapping interval of the array with `end == UnitMaximum`.
   */
  method ExplodeToUnits(intervals: array<Interval>) returns (times: seq<int>)
    modifies intervals
    ensures times == Explode(old(intervals[..]))
    ensures intervals[..] == WidenAll(old(intervals[..]))
  {
    ghost var original := intervals[..];
    times := [];
    var k := 0;
    while k < intervals.Length
      invariant 0 <= k <= intervals.Length
      invariant times == Explode(original[..k])
      invariant forall j :: 0 <= j < k ==> intervals[j] == Widen(original[j])
      invariant forall j :: k <= j < intervals.Length ==> intervals[j] == original[j]
    {
      var units, widened := ExplodeInterval(intervals[k]);
      ExplodePrefix(original, k);
      times := times + units;
      intervals[k] := widened;
      k := k + 1;
    }
    assert original[..intervals.Length] == original;
    assert intervals[..] == WidenAll(original);
  }
}
