/**
 * `coalesceAvailability` of lib/adjust.ts: the units are normalised, deduplicated and
 * sorted, then swept left to right into half-open intervals; each unit sets the end of
 * its interval to the unit after it, modulo the week.
 */
module Coalescer {
  import opened Units
  import opened Seqs
  import opened Exploder

  /** `new Set(inputTimes.map(t => adjustUnitInUnits(t)))`. */
  function NormalisedSet(inputTimes: seq<int>): (s: set<int>)
    ensures forall u :: u in s ==> -UnitMaximum < u < UnitMaximum
  {
    set t | t in inputTimes :: AdjustUnitInUnits(t, 0)
  }

  /** The members of `s` in `[lo, hi)`, ascending. */
  function Enumerate(s: set<int>, lo: int, hi: int): seq<int>
    decreases hi - lo
  {
    if hi <= lo then [] else Enumerate(s, lo, hi - 1) + (if hi - 1 in s then [hi - 1] else [])
  }

  /** `Array.from(s).sort((a, b) => a - b)` for a set of normalised units. */
  function SortedUnits(s: set<int>): seq<int> {
    Enumerate(s, 1 - UnitMaximum, UnitMaximum)
  }

  lemma {:induction false} EnumerateSpec(s: set<int>, lo: int, hi: int)
    ensures Ascending(Enumerate(s, lo, hi))
    ensures forall u :: u in Enumerate(s, lo, hi) <==> u in s && lo <= u < hi
    decreases hi - lo
  {
    if lo < hi {
      EnumerateSpec(s, lo, hi - 1);
      var e := Enumerate(s, lo, hi - 1);
      forall i | 0 <= i < |e| ensures e[i] < hi - 1 {
        assert e[i] in e;
      }
    }
  }

  /** Sorting a set of units: ascending, without duplicates, and holding exactly the set. */
  lemma SortedUnitsSpec(s: set<int>)
    requires forall u :: u in s ==> -UnitMaximum < u < UnitMaximum
    ensures Ascending(SortedUnits(s))
    ensures forall u :: u in SortedUnits(s) <==> u in s
  {
    EnumerateSpec(s, 1 - UnitMaximum, UnitMaximum);
  }

  /** In an ascending sequence, the last element is the largest, and dropping it removes only it. */
  lemma AscendingLast(xs: seq<int>, u: int)
    requires Ascending(xs) && xs != []
    ensures u in xs ==> u <= xs[|xs| - 1]
    ensures u in xs[..|xs| - 1] <==> u in xs && u != xs[|xs| - 1]
  {
    var n := |xs| - 1;
    assert xs == xs[..n] + [xs[n]];
    if u in xs[..n] {
      var i :| 0 <= i < n && xs[..n][i] == u;
      assert xs[i] < xs[n];
    }
  }

  /** Two ascending sequences with the same members are equal: the sorted order is unique. */
  lemma {:induction false} AscendingUnique(xs: seq<int>, ys: seq<int>)
    requires Ascending(xs) && Ascending(ys)
    requires forall u :: u in xs <==> u in ys
    ensures xs == ys
    decreases |xs|
  {
    assert xs != [] ==> xs[0] in xs && xs[0] in ys;
    assert ys != [] ==> ys[0] in ys && ys[0] in xs;
    if xs != [] && ys != [] {
      var a, b := xs[|xs| - 1], ys[|ys| - 1];
      assert a in xs && b in ys;
      AscendingLast(xs, b);
      AscendingLast(ys, a);
      assert a == b;
      var xs', ys' := xs[..|xs| - 1], ys[..|ys| - 1];
      forall u ensures u in xs' <==> u in ys' {
        AscendingLast(xs, u);
        AscendingLast(ys, u);
      }
      assert Ascending(xs') && Ascending(ys');
      AscendingUnique(xs', ys');
      SplitLast(xs);
      SplitLast(ys);
    }
  }

  /**
   * The source's test for opening a new interval at `time`: there is no interval yet, or
   * the current one does not end at `time`, or it ends at 0.
   */
  predicate StartsNew(intervals: seq<Interval>, time: int) {
    intervals == [] || intervals[|intervals| - 1].end != time || intervals[|intervals| - 1].end == 0
  }

  /**
   * One step of the sweep: `time` either opens a new interval or joins the current one,
   * and the interval it lands in then ends at the unit after `time`.
   */
  function Absorb(intervals: seq<Interval>, time: int): (r: seq<Interval>)
    ensures |r| == if StartsNew(intervals, time) then |intervals| + 1 else |intervals|
    ensures r[|r| - 1].end == AdjustUnitInUnits(time, 1)
  {
    var next := AdjustUnitInUnits(time, 1);
    if StartsNew(intervals, time) then intervals + [Interval(time, next)]
    else intervals[..|intervals| - 1] + [Interval(intervals[|intervals| - 1].start, next)]
  }

  /** The sweep over the sorted units, one `Absorb` per unit. */
  function Sweep(times: seq<int>): seq<Interval> {
    if times == [] then [] else Absorb(Sweep(times[..|times| - 1]), times[|times| - 1])
  }

  /**
   * A step of the sweep leaves the intervals before the current one as they were; a new
   * interval starts at `time`, a joined one keeps its start.
   */
  lemma AbsorbKeepsEarlier(intervals: seq<Interval>, time: int)
    ensures intervals == [] ==> Absorb(intervals, time) == [Interval(time, AdjustUnitInUnits(time, 1))]
    ensures intervals != [] ==>
              Absorb(intervals, time)[..|intervals| - 1] == intervals[..|intervals| - 1]
    ensures intervals != [] && StartsNew(intervals, time) ==>
              Absorb(intervals, time)[|intervals| - 1] == intervals[|intervals| - 1]
              && Absorb(intervals, time)[|intervals|].start == time
    ensures intervals != [] && !StartsNew(intervals, time) ==>
              Absorb(intervals, time)[|intervals| - 1].start == intervals[|intervals| - 1].start
  {
  }

  /** The sweep yields at most one interval per unit, and at least one when there is a unit. */
  lemma {:induction false} SweepLength(times: seq<int>)
    ensures |Sweep(times)| <= |times|
    ensures Sweep(times) == [] <==> times == []
  {
    if times != [] {
      SweepLength(times[..|times| - 1]);
    }
  }

  /** What `coalesceAvailability` returns. */
  function Coalesce(inputTimes: seq<int>): seq<Interval> {
    Sweep(SortedUnits(NormalisedSet(inputTimes)))
  }

  /**
   * `coalesceAvailability`: the units are normalised into a set and sorted, then swept.
   */
  method CoalesceAvailability(inputTimes: seq<int>) returns (intervals: seq<Interval>)
    ensures intervals == Coalesce(inputTimes)
  {
    var times := SortedUnits(NormalisedSet(inputTimes));
    intervals := SweepUnits(times);
  }

  /**
   * The loop of `coalesceAvailability`: each unit either pushes a new interval or joins the
   * last one, whose end is then set to the unit after it.
   */
  method SweepUnits(times: seq<int>) returns (intervals: seq<Interval>)
    ensures intervals == Sweep(times)
  {
    intervals := [];
    for k := 0 to |times|
      invariant intervals == Sweep(times[..k])
    {
      var time := times[k];
      ghost var before := intervals;
      if intervals == [] || intervals[|intervals| - 1].end != time || intervals[|intervals| - 1].end == 0 {
        intervals := intervals + [Interval(time, time)];
      }
      intervals := intervals[|intervals| - 1 := intervals[|intervals| - 1].(end := AdjustUnitInUnits(time, 1))];
      assert intervals == Absorb(before, time);
      assert times[..k + 1][..k] == times[..k];
    }
    assert times[..|times|] == times;
  }

  /** The last unit of a coalesced interval: an end of 0 closes the week at its last unit. */
  function LastUnit(iv: Interval): int {
    if iv.end == 0 then UnitMaximum - 1 else iv.end - 1
  }

  /** The run of units a coalesced interval stands for. */
  function RunUnits(iv: Interval): seq<int> {
    Range(iv.start, LastUnit(iv) + 1)
  }

  /** A coalesced interval lies in the week and is non-empty; its end is 0 when its run reaches the last unit. */
  predicate Proper(iv: Interval) {
    0 <= iv.start < UnitMaximum && 0 <= iv.end < UnitMaximum && (iv.end == 0 || iv.start < iv.end)
  }

  /**
   * The shape of the coalescer's output on units of the week: every interval is proper,
   * and each run starts at least one missing unit after the previous run ends.
   */
  ghost predicate Canonical(r: seq<Interval>) {
    (forall i :: 0 <= i < |r| ==> Proper(r[i]))
    && (forall i :: 0 < i < |r| ==> LastUnit(r[i - 1]) + 1 < r[i].start)
  }

  predicate InWeek(xs: seq<int>) {
    forall i :: 0 <= i < |xs| ==> 0 <= xs[i] < UnitMaximum
  }

  /** The unit after `t` in the week, wrapping from the last unit to the first. */
  function Succ(t: int): int {
    if t == UnitMaximum - 1 then 0 else t + 1
  }

  /** Within the week, the source's "next unit" is the successor. */
  lemma NextUnit(t: int)
    requires 0 <= t < UnitMaximum
    ensures AdjustUnitInUnits(t, 1) == Succ(t)
  {
  }

  /** The interval a unit opens stands for that unit alone. */
  lemma RunOfOne(t: int)
    requires 0 <= t < UnitMaximum
    ensures LastUnit(Interval(t, Succ(t))) == t
    ensures RunUnits(Interval(t, Succ(t))) == [t]
  {
    assert Range(t, t + 1) == Range(t, t) + [t];
  }

  /** Extending a run by the unit right after it. */
  lemma RunExtend(start: int, t: int)
    requires 0 <= start < t < UnitMaximum
    ensures LastUnit(Interval(start, Succ(t))) == t
    ensures RunUnits(Interval(start, Succ(t))) == RunUnits(Interval(start, t)) + [t]
  {
  }

  /** The runs of a list with one more interval: those of the list, then the new run. */
  lemma RunsSnoc(r: seq<Interval>, iv: Interval)
    ensures FlatMap(r + [iv], RunUnits) == FlatMap(r, RunUnits) + RunUnits(iv)
  {
    assert (r + [iv])[..|r|] == r;
  }

  /** A unit past a gap after the last run opens a new interval. */
  lemma OpenRun(r: seq<Interval>, t: int)
    requires Canonical(r)
    requires 0 <= t < UnitMaximum
    requires r != [] ==> LastUnit(r[|r| - 1]) + 1 < t
    ensures Canonical(r + [Interval(t, Succ(t))])
    ensures FlatMap(r + [Interval(t, Succ(t))], RunUnits) == FlatMap(r, RunUnits) + [t]
  {
    RunOfOne(t);
    RunsSnoc(r, Interval(t, Succ(t)));
    OpenRunShape(r, t);
  }

  lemma OpenRunShape(r: seq<Interval>, t: int)
    requires Canonical(r)
    requires 0 <= t < UnitMaximum
    requires r != [] ==> LastUnit(r[|r| - 1]) + 1 < t
    ensures Canonical(r + [Interval(t, Succ(t))])
  {
    var started := Interval(t, Succ(t));
    var r' := r + [started];
    assert Proper(started);
    forall i | 0 <= i < |r'| ensures Proper(r'[i]) {
      if i < |r| { assert r'[i] == r[i]; }
    }
    forall i | 0 < i < |r'| ensures LastUnit(r'[i - 1]) + 1 < r'[i].start {
      assert r'[i - 1] == r[i - 1];
      if i < |r| { assert r'[i] == r[i]; }
    }
  }

  /** A unit right after the last run, before the end of the week, extends that run. */
  lemma ExtendRun(r: seq<Interval>, t: int)
    requires Canonical(r) && r != []
    requires 0 < t < UnitMaximum
    requires r[|r| - 1].end == t
    ensures Canonical(r[..|r| - 1] + [Interval(r[|r| - 1].start, Succ(t))])
    ensures FlatMap(r[..|r| - 1] + [Interval(r[|r| - 1].start, Succ(t))], RunUnits)
         == FlatMap(r, RunUnits) + [t]
  {
    assert Proper(r[|r| - 1]);
    ExtendRunShape(r, t);
    ExtendRunUnits(r, t);
  }

  lemma ExtendRunShape(r: seq<Interval>, t: int)
    requires Canonical(r) && r != []
    requires 0 < t < UnitMaximum
    requires r[|r| - 1].end == t
    ensures Canonical(r[..|r| - 1] + [Interval(r[|r| - 1].start, Succ(t))])
  {
    var m := |r| - 1;
    var last := r[m];
    assert Proper(last);
    var merged := Interval(last.start, Succ(t));
    var r' := r[..m] + [merged];
    assert Proper(merged);
    forall i | 0 <= i < |r'| ensures Proper(r'[i]) {
      if i < m { assert r'[i] == r[i]; }
    }
    forall i | 0 < i < |r'| ensures LastUnit(r'[i - 1]) + 1 < r'[i].start {
      assert r'[i - 1] == r[i - 1];
      if i < m { assert r'[i] == r[i]; } else { assert r'[i].start == r[i].start; }
    }
  }

  lemma ExtendRunUnits(r: seq<Interval>, t: int)
    requires r != [] && 0 <= r[|r| - 1].start < t < UnitMaximum
    requires r[|r| - 1].end == t
    ensures FlatMap(r[..|r| - 1] + [Interval(r[|r| - 1].start, Succ(t))], RunUnits)
         == FlatMap(r, RunUnits) + [t]
  {
    var m := |r| - 1;
    var last := r[m];
    SplitLast(r);
    RunExtend(last.start, t);
    ReplaceLastRun(r[..m], last, Interval(last.start, Succ(t)), t);
  }

  lemma SplitLast<T>(r: seq<T>)
    requires r != []
    ensures r == r[..|r| - 1] + [r[|r| - 1]]
  {
  }

  /** Replacing the last interval by one whose run has one more unit. */
  lemma ReplaceLastRun(prefix: seq<Interval>, last: Interval, merged: Interval, t: int)
    requires RunUnits(merged) == RunUnits(last) + [t]
    ensures FlatMap(prefix + [merged], RunUnits) == FlatMap(prefix + [last], RunUnits) + [t]
  {
    RunsSnoc(prefix, last);
    RunsSnoc(prefix, merged);
  }

  /** The sweep takes one more step per unit. */
  lemma SweepSnoc(p: seq<int>, t: int)
    ensures Sweep(p + [t]) == Absorb(Sweep(p), t)
  {
    assert (p + [t])[..|p|] == p;
  }

  /**
   * The sweep over ascending units of the week yields a canonical interval list whose
   * runs, read in order, give back exactly those units.
   */
  lemma {:induction false} SweepCorrect(xs: seq<int>)
    requires Ascending(xs) && InWeek(xs)
    ensures Canonical(Sweep(xs))
    ensures FlatMap(Sweep(xs), RunUnits) == xs
    ensures xs != [] ==> Sweep(xs) != [] && LastUnit(Sweep(xs)[|Sweep(xs)| - 1]) == xs[|xs| - 1]
    decreases |xs|
  {
    if xs != [] {
      var n := |xs| - 1;
      var p, t := xs[..n], xs[n];
      SplitLast(xs);
      AscendingInit(xs);
      SweepCorrect(p);
      SweepStep(p, t);
    }
  }

  /** Dropping the last of ascending units of the week leaves ascending units below it. */
  lemma AscendingInit(xs: seq<int>)
    requires Ascending(xs) && InWeek(xs) && xs != []
    ensures Ascending(xs[..|xs| - 1]) && InWeek(xs[..|xs| - 1])
    ensures 0 <= xs[|xs| - 1] < UnitMaximum
    ensures |xs| > 1 ==> xs[..|xs| - 1][|xs| - 2] < xs[|xs| - 1]
  {
  }

  /** One unit past the sweep of ascending units keeps its output canonical and in step. */
  lemma SweepStep(p: seq<int>, t: int)
    requires 0 <= t < UnitMaximum && (p != [] ==> p[|p| - 1] < t)
    requires Canonical(Sweep(p)) && FlatMap(Sweep(p), RunUnits) == p
    requires p != [] ==> Sweep(p) != [] && LastUnit(Sweep(p)[|Sweep(p)| - 1]) == p[|p| - 1]
    ensures Canonical(Sweep(p + [t]))
    ensures FlatMap(Sweep(p + [t]), RunUnits) == p + [t]
    ensures Sweep(p + [t]) != [] && LastUnit(Sweep(p + [t])[|Sweep(p + [t])| - 1]) == t
  {
    var r := Sweep(p);
    SweepSnoc(p, t);
    NextUnit(t);
    if r != [] && r[|r| - 1].end == t && t != 0 {
      ExtendRun(r, t);
      RunExtend(r[|r| - 1].start, t);
    } else {
      assert r != [] ==> LastUnit(r[|r| - 1]) + 1 < t by {
        if r != [] {
          assert Proper(r[|r| - 1]);
        }
      }
      OpenRun(r, t);
      RunOfOne(t);
    }
  }

  /** Every unit of the week is in `s`. */
  predicate HasWholeWeek(s: set<int>) {
    forall u :: 0 <= u < UnitMaximum ==> u in s
  }

  /** Every member of `s` is a unit of the week. */
  predicate WithinWeek(s: set<int>) {
    forall u :: u in s ==> 0 <= u < UnitMaximum
  }

  /** From -UnitMaximum upward, normalising a unit reduces it into the week. */
  lemma NormalisedSetReduces(inputTimes: seq<int>)
    requires forall k :: 0 <= k < |inputTimes| ==> -UnitMaximum <= inputTimes[k]
    ensures NormalisedSet(inputTimes) == set t | t in inputTimes :: Reduce(t)
    ensures WithinWeek(NormalisedSet(inputTimes))
  {
    forall t | t in inputTimes ensures AdjustUnitInUnits(t, 0) == Reduce(t) {
      AdjustByZeroReduces(t);
    }
  }

  lemma AdjustByZeroReduces(t: int)
    requires -UnitMaximum <= t
    ensures AdjustUnitInUnits(t, 0) == Reduce(t)
  {
  }

  /** Sweeping the sorted members of a set of units of the week. */
  lemma SweepSorted(s: set<int>)
    requires WithinWeek(s)
    ensures Canonical(Sweep(SortedUnits(s)))
    ensures FlatMap(Sweep(SortedUnits(s)), RunUnits) == SortedUnits(s)
  {
    var xs := SortedUnits(s);
    SortedUnitsSpec(s);
    forall i | 0 <= i < |xs| ensures 0 <= xs[i] < UnitMaximum {
      assert xs[i] in xs;
    }
    SweepCorrect(xs);
  }

  /**
   * `coalesceAvailability` on units from -UnitMaximum upward: the intervals are canonical
   * (in the week, non-empty, ascending, separated by gaps) and their runs, in order, are the
   * normalised input units sorted without duplicates; so a unit is covered exactly when
   * some input unit reduces to it.
   */
  lemma CoalesceCorrect(inputTimes: seq<int>)
    requires forall k :: 0 <= k < |inputTimes| ==> -UnitMaximum <= inputTimes[k]
    ensures Canonical(Coalesce(inputTimes))
    ensures FlatMap(Coalesce(inputTimes), RunUnits) == SortedUnits(NormalisedSet(inputTimes))
    ensures forall u :: u in FlatMap(Coalesce(inputTimes), RunUnits)
                        <==> exists k :: 0 <= k < |inputTimes| && Reduce(inputTimes[k]) == u
  {
    var s := NormalisedSet(inputTimes);
    NormalisedSetReduces(inputTimes);
    SweepSorted(s);
    SortedUnitsSpec(s);
    forall u ensures u in s <==> exists k :: 0 <= k < |inputTimes| && Reduce(inputTimes[k]) == u {
      if u in s {
        var t :| t in inputTimes && Reduce(t) == u;
        var k :| 0 <= k < |inputTimes| && inputTimes[k] == t;
      }
    }
  }

  /** In a canonical list, a run ends before every later run starts. */
  lemma {:induction false} CanonicalSeparated(r: seq<Interval>, i: int, j: int)
    requires Canonical(r) && 0 <= i < j < |r|
    ensures LastUnit(r[i]) + 1 < r[j].start
    decreases j - i
  {
    if i + 1 < j {
      CanonicalSeparated(r, i + 1, j);
      assert Proper(r[i + 1]);
      assert r[i + 1].start <= LastUnit(r[i + 1]);
    }
  }

  /** The starts of a canonical list are strictly ascending. */
  lemma StartsAscending(r: seq<Interval>, i: int, j: int)
    requires Canonical(r) && 0 <= i < j < |r|
    ensures r[i].start < r[j].start
  {
    CanonicalSeparated(r, i, j);
    assert Proper(r[i]);
  }

  /**
   * The end of a proper interval is the unit after `LastUnit`, so it is 0 exactly when
   * `LastUnit` is the last unit of the week. That `LastUnit` is the last unit of the
   * interval's run in the coalescer's output is `SweepCorrect`'s equation between the runs
   * and the input units; this lemma only relates the end to `LastUnit` and `Succ`.
   */
  lemma EndAfterRun(iv: Interval)
    requires Proper(iv)
    ensures iv.end == Succ(LastUnit(iv))
    ensures iv.end == 0 <==> LastUnit(iv) == UnitMaximum - 1
  {
  }

  /** The range `[lo, hi)` is ascending. */
  lemma RangeAscending(lo: int, hi: int)
    ensures Ascending(Range(lo, hi))
  {
    forall i, j | 0 <= i < j < |Range(lo, hi)| ensures Range(lo, hi)[i] < Range(lo, hi)[j] {
      RangeAt(lo, hi, i);
      RangeAt(lo, hi, j);
    }
  }

  /** The whole week, sorted, is `0 .. UnitMaximum - 1`. */
  lemma SortedFullWeek(s: set<int>)
    requires WithinWeek(s) && HasWholeWeek(s)
    ensures SortedUnits(s) == Range(0, UnitMaximum)
  {
    SortedUnitsSpec(s);
    RangeAscending(0, UnitMaximum);
    forall u ensures u in SortedUnits(s) <==> u in Range(0, UnitMaximum) {
      RangeMembers(0, UnitMaximum, u);
    }
    AscendingUnique(SortedUnits(s), Range(0, UnitMaximum));
  }

  /** Sweeping the first `k` units of the week gives one interval from 0 to the unit after them. */
  lemma {:induction false} SweepPrefix(k: int)
    requires 1 <= k <= UnitMaximum
    ensures Sweep(Range(0, k)) == [Interval(0, Succ(k - 1))]
    decreases k
  {
    assert Range(0, k) == Range(0, k - 1) + [k - 1];
    SweepSnoc(Range(0, k - 1), k - 1);
    NextUnit(k - 1);
    if k > 1 {
      SweepPrefix(k - 1);
    }
  }

  /**
   * The whole week coalesces to the single interval `{0, 0}`: its run reaches the last unit,
   * so its end wraps to 0 and equals its start.
   */
  lemma CoalesceFullWeek(s: set<int>)
    requires WithinWeek(s) && HasWholeWeek(s)
    ensures Sweep(SortedUnits(s)) == [Interval(0, 0)]
  {
    SortedFullWeek(s);
    SweepPrefix(UnitMaximum);
  }

  /** The interval `{0, 0}` appears in the sweep of a set of units only when the set is the whole week. */
  lemma WholeWeekInterval(s: set<int>)
    requires WithinWeek(s)
    requires Interval(0, 0) in Sweep(SortedUnits(s))
    ensures HasWholeWeek(s)
  {
    var r := Sweep(SortedUnits(s));
    SweepSorted(s);
    SortedUnitsSpec(s);
    var i :| 0 <= i < |r| && r[i] == Interval(0, 0);
    forall u | 0 <= u < UnitMaximum ensures u in s {
      RangeMembers(0, UnitMaximum, u);
      assert u in RunUnits(r[i]);
      FlatMapMembers(r, RunUnits, u);
    }
  }

  /** Outside the whole-week case, the exploder reads every coalesced interval as its run. */
  lemma ExplodeCanonical(r: seq<Interval>)
    requires Canonical(r)
    requires Interval(0, 0) !in r
    ensures Explode(r) == FlatMap(r, RunUnits)
  {
    forall k | 0 <= k < |r| ensures ExplodeOne(r[k]) == RunUnits(r[k]) {
      assert Proper(r[k]);
      assert r[k] != Interval(0, 0);
    }
    FlatMapAgree(r, ExplodeOne, RunUnits);
  }

  /**
   * Exploding the coalesced intervals of a set of units of the week gives back the set,
   * sorted, unless the set is the whole week.
   */
  lemma ExplodeSweep(s: set<int>)
    requires WithinWeek(s) && !HasWholeWeek(s)
    ensures Explode(Sweep(SortedUnits(s))) == SortedUnits(s)
  {
    SweepSorted(s);
    if Interval(0, 0) in Sweep(SortedUnits(s)) {
      WholeWeekInterval(s);
    }
    ExplodeCanonical(Sweep(SortedUnits(s)));
  }

  /** ... whereas the whole week explodes back to nothing. */
  lemma ExplodeSweepFullWeek(s: set<int>)
    requires WithinWeek(s) && HasWholeWeek(s)
    ensures Explode(Sweep(SortedUnits(s))) == []
  {
    CoalesceFullWeek(s);
    assert Explode([Interval(0, 0)]) == Explode([]) + ExplodeOne(Interval(0, 0));
  }

  /**
   * The source's extra guard `lastInterval.end === 0` never decides anything on sorted,
   * distinct units of the week: when the current interval ends at the next unit, that unit
   * is not 0.
   */
  lemma EndZeroGuardIdle(xs: seq<int>, t: int)
    requires Ascending(xs + [t]) && InWeek(xs + [t])
    ensures StartsNew(Sweep(xs), t)
            <==> Sweep(xs) == [] || Sweep(xs)[|Sweep(xs)| - 1].end != t
  {
    var n := |xs|;
    assert forall i :: 0 <= i < n ==> xs[i] == (xs + [t])[i];
    assert Ascending(xs) && InWeek(xs);
    SweepCorrect(xs);
    var r := Sweep(xs);
    if r != [] && r[|r| - 1].end == t {
      assert Proper(r[|r| - 1]);
      assert xs != [];
      assert (xs + [t])[n - 1] < (xs + [t])[n];
    }
  }

  /** The sorted units of a set, given an ascending list of exactly its members. */
  lemma SortedUnitsAre(s: set<int>, xs: seq<int>)
    requires WithinWeek(s) && Ascending(xs)
    requires forall u :: u in xs <==> u in s
    ensures SortedUnits(s) == xs
  {
    SortedUnitsSpec(s);
    AscendingUnique(SortedUnits(s), xs);
  }

  /** Units already in the week are their own normal form. */
  lemma NormalisedInWeek(ts: seq<int>)
    requires InWeek(ts)
    ensures WithinWeek(NormalisedSet(ts))
    ensures forall u :: u in NormalisedSet(ts) <==> u in ts
  {
    NormalisedSetReduces(ts);
    forall u ensures u in NormalisedSet(ts) <==> u in ts {
      if u in ts {
        assert Reduce(u) == u;
      }
    }
  }

  /**
   * Units on both sides of the week boundary give two intervals, in the order of their
   * starts; the run reaching the last unit is not joined to the run starting at 0.
   */
  lemma CoalesceAcrossBoundary()
    ensures Coalesce([334, 335, 0, 1, 2]) == [Interval(0, 3), Interval(334, 0)]
  {
    var ts := [334, 335, 0, 1, 2];
    NormalisedInWeek(ts);
    SortedUnitsAre(NormalisedSet(ts), [0, 1, 2, 334, 335]);
    SweepAcrossBoundary();
  }

  lemma SweepAcrossBoundary()
    ensures Sweep([0, 1, 2, 334, 335]) == [Interval(0, 3), Interval(334, 0)]
  {
    NextUnit(0);
    NextUnit(1);
    NextUnit(2);
    NextUnit(334);
    NextUnit(335);
    SweepSnoc([], 0);
    assert [] + [0] == [0];
    assert Sweep([0]) == [Interval(0, 1)];
    SweepSnoc([0], 1);
    assert [0] + [1] == [0, 1];
    assert Sweep([0, 1]) == [Interval(0, 2)];
    SweepSnoc([0, 1], 2);
    assert [0, 1] + [2] == [0, 1, 2];
    assert Sweep([0, 1, 2]) == [Interval(0, 3)];
    SweepSnoc([0, 1, 2], 334);
    assert [0, 1, 2] + [334] == [0, 1, 2, 334];
    assert Sweep([0, 1, 2, 334]) == [Interval(0, 3), Interval(334, 335)];
    SweepSnoc([0, 1, 2, 334], 335);
    assert [0, 1, 2, 334] + [335] == [0, 1, 2, 334, 335];
  }

  /** A repeated unit is counted once. */
  lemma CoalesceDuplicate()
    ensures Coalesce([0, 0]) == [Interval(0, 1)]
  {
    NormalisedInWeek([0, 0]);
    SortedUnitsAre(NormalisedSet([0, 0]), [0]);
    SweepSnoc([], 0);
    assert [0] == [] + [0];
    NextUnit(0);
  }
}
