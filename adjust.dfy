/**
 * The two entry points of lib/adjust.ts: `adjustTimeAv` runs the whole pipeline (parse,
 * explode, shift, coalesce, serialise) and `correctTimeAv` runs it with twice the offset
 * read from a `UTC±HH:MM` designator. Their meaning is stated on the set of units of the
 * week an availability stands for.
 */
module Adjust {
  import opened Wrappers
  import opened Units
  import opened Text
  import opened Parse
  import opened Exploder
  import opened Coalescer
  import opened Stringify

  /**
   * `adjustTimeAv`: the text is parsed, its intervals exploded into units, every unit shifted
   * by the offset, the units coalesced and the intervals written back. A parse error is
   * passed on; an offset off the half-hour grid is an error of its own.
   */
  function AdjustTimeAv(timeAv: string, offsetInHours: real): (r: Result<string, Error>)
    ensures r.Ok? <==> ParseTimeAv(Some(timeAv)).Ok? && OnUnitGrid(offsetInHours)
    ensures ParseTimeAv(Some(timeAv)).Err? ==> r == Err(ParseTimeAv(Some(timeAv)).error)
    ensures ParseTimeAv(Some(timeAv)).Ok? && !OnUnitGrid(offsetInHours)
            ==> r == Err(FractionalOffset(offsetInHours))
  {
    var parsed :- ParseTimeAv(Some(timeAv));
    if !OnUnitGrid(offsetInHours) then Err(FractionalOffset(offsetInHours))
    else
      var exploded := Explode(parsed);
      var adjusted := AdjustUnitsInHours(exploded, offsetInHours);
      var coalesced := Coalesce(adjusted);
      Ok(StingifyAvailability(coalesced))
  }

  /**
   * `correctTimeAv`: the offset of the designator, doubled, is the shift; an error reading
   * the designator comes first.
   */
  function CorrectTimeAv(timeAv: string, timezone: string): (r: Result<string, Error>)
    ensures ParseTimezoneToOffsetInHours(timezone).Err?
            ==> r == Err(ParseTimezoneToOffsetInHours(timezone).error)
  {
    match ParseTimezoneToOffsetInHours(timezone)
    case Err(e) => Err(e)
    case Ok(offsetInHours) => AdjustTimeAv(timeAv, offsetInHours * 2.0)
  }

  /** The units of the week an interval list stands for, as the exploder reads it. */
  function Availability(intervals: seq<Interval>): (s: set<int>)
    ensures WithinWeek(s)
  {
    set u | u in Explode(intervals) :: Reduce(u)
  }

  /** A set of units moved by `offsetInUnits` around the week. */
  function Shift(s: set<int>, offsetInUnits: int): (r: set<int>)
    ensures WithinWeek(r)
  {
    set u | u in s :: Reduce(u + offsetInUnits)
  }

  /** Shifting by 0 leaves units of the week where they are. */
  lemma ShiftZero(s: set<int>)
    requires WithinWeek(s)
    ensures Shift(s, 0) == s
  {
    forall u | u in s ensures Reduce(u + 0) == u {
    }
    forall u | u in Shift(s, 0) ensures u in s {
      var v :| v in s && Reduce(v + 0) == u;
    }
  }

  /** Two shifts in a row are one shift by their sum. */
  lemma ShiftShift(s: set<int>, a: int, b: int, sum: int)
    requires sum == a + b
    ensures Shift(Shift(s, a), b) == Shift(s, sum)
  {
    forall u | u in Shift(Shift(s, a), b) ensures u in Shift(s, sum) {
      ShiftedTwice(s, a, b, sum, u);
    }
    forall u | u in Shift(s, sum) ensures u in Shift(Shift(s, a), b) {
      ShiftedBySum(s, a, b, sum, u);
    }
  }

  lemma ShiftedTwice(s: set<int>, a: int, b: int, sum: int, u: int)
    requires sum == a + b && u in Shift(Shift(s, a), b)
    ensures u in Shift(s, sum)
  {
    var v :| v in Shift(s, a) && Reduce(v + b) == u;
    ShiftedTwiceFrom(s, a, b, sum, v, u);
  }

  lemma ShiftedTwiceFrom(s: set<int>, a: int, b: int, sum: int, v: int, u: int)
    requires sum == a + b && v in Shift(s, a) && Reduce(v + b) == u
    ensures u in Shift(s, sum)
  {
    var w :| w in s && Reduce(w + a) == v;
    ReduceShift(w + a, b);
    assert w + a + b == w + sum;
    ShiftMember(s, sum, w);
  }

  /** A member of `s`, moved and reduced, is a member of the shifted set. */
  lemma ShiftMember(s: set<int>, d: int, w: int)
    requires w in s
    ensures Reduce(w + d) in Shift(s, d)
  {
  }

  lemma ShiftedBySum(s: set<int>, a: int, b: int, sum: int, u: int)
    requires sum == a + b && u in Shift(s, sum)
    ensures u in Shift(Shift(s, a), b)
  {
    var w :| w in s && Reduce(w + sum) == u;
    ReduceShift(w + a, b);
    assert w + a + b == w + sum;
    ShiftMember(s, a, w);
    ShiftMember(Shift(s, a), b, Reduce(w + a));
  }

  /** A shift moves units one to one, so it yields the whole week only from the whole week. */
  lemma ShiftWholeWeek(s: set<int>, d: int)
    requires WithinWeek(s)
    ensures HasWholeWeek(Shift(s, d)) <==> HasWholeWeek(s)
  {
    if HasWholeWeek(Shift(s, d)) {
      forall u | 0 <= u < UnitMaximum ensures u in s {
        ShiftedBack(s, d, u);
      }
    }
    if HasWholeWeek(s) {
      forall u | 0 <= u < UnitMaximum ensures u in Shift(s, d) {
        ShiftedForward(s, d, u);
      }
    }
  }

  lemma ShiftedBack(s: set<int>, d: int, u: int)
    requires WithinWeek(s) && 0 <= u < UnitMaximum && Reduce(u + d) in Shift(s, d)
    ensures u in s
  {
    var w :| w in s && Reduce(w + d) == Reduce(u + d);
    ReduceCancel(w, u, d);
    assert 0 <= w < UnitMaximum;
    ReduceInWeek(w);
    ReduceInWeek(u);
    assert w == u;
  }

  lemma ShiftedForward(s: set<int>, d: int, u: int)
    requires 0 <= u < UnitMaximum && Reduce(u - d) in s
    ensures u in Shift(s, d)
  {
    ReduceShift(u - d, d);
    assert u - d + d == u;
  }

  /** The source's normalisation of the shifted units yields the shifted availability. */
  lemma NormalisedShift(parsed: seq<Interval>, offsetInHours: real)
    requires OnUnitGrid(offsetInHours)
    ensures NormalisedSet(AdjustUnitsInHours(Explode(parsed), offsetInHours))
            == Shift(Availability(parsed), HoursToUnits(offsetInHours))
  {
    var normalised := NormalisedSet(AdjustUnitsInHours(Explode(parsed), offsetInHours));
    var shifted := Shift(Availability(parsed), HoursToUnits(offsetInHours));
    forall u | u in normalised ensures u in shifted {
      NormalisedIsShifted(parsed, offsetInHours, u);
    }
    forall u | u in shifted ensures u in normalised {
      ShiftedIsNormalised(parsed, offsetInHours, u);
    }
  }

  lemma NormalisedIsShifted(parsed: seq<Interval>, offsetInHours: real, u: int)
    requires OnUnitGrid(offsetInHours)
    requires u in NormalisedSet(AdjustUnitsInHours(Explode(parsed), offsetInHours))
    ensures u in Shift(Availability(parsed), HoursToUnits(offsetInHours))
  {
    var exploded := Explode(parsed);
    var adjusted := AdjustUnitsInHours(exploded, offsetInHours);
    var a :| a in adjusted && AdjustUnitInUnits(a, 0) == u;
    var k :| 0 <= k < |adjusted| && adjusted[k] == a;
    ShiftedUnit(exploded, offsetInHours, k);
    var v := Reduce(exploded[k]);
    assert v in Availability(parsed);
    assert Reduce(v + HoursToUnits(offsetInHours)) == u;
  }

  lemma ShiftedIsNormalised(parsed: seq<Interval>, offsetInHours: real, u: int)
    requires OnUnitGrid(offsetInHours)
    requires u in Shift(Availability(parsed), HoursToUnits(offsetInHours))
    ensures u in NormalisedSet(AdjustUnitsInHours(Explode(parsed), offsetInHours))
  {
    var v :| v in Availability(parsed) && Reduce(v + HoursToUnits(offsetInHours)) == u;
    var t :| t in Explode(parsed) && Reduce(t) == v;
    ShiftedExploded(Explode(parsed), offsetInHours, t, u);
  }

  lemma ShiftedExploded(exploded: seq<int>, offsetInHours: real, t: int, u: int)
    requires OnUnitGrid(offsetInHours)
    requires t in exploded && Reduce(Reduce(t) + HoursToUnits(offsetInHours)) == u
    ensures u in NormalisedSet(AdjustUnitsInHours(exploded, offsetInHours))
  {
    var k :| 0 <= k < |exploded| && exploded[k] == t;
    ShiftedUnit(exploded, offsetInHours, k);
  }

  /** The `k`-th shifted unit, normalised, is the `k`-th unit moved by the offset. */
  lemma ShiftedUnit(exploded: seq<int>, offsetInHours: real, k: int)
    requires OnUnitGrid(offsetInHours) && 0 <= k < |exploded|
    ensures var a := AdjustUnitsInHours(exploded, offsetInHours)[k];
            var d := HoursToUnits(offsetInHours);
            a in AdjustUnitsInHours(exploded, offsetInHours)
            && AdjustUnitInUnits(a, 0) == Reduce(exploded[k] + d) == Reduce(Reduce(exploded[k]) + d)
            && AdjustUnitInUnits(a, 0) in NormalisedSet(AdjustUnitsInHours(exploded, offsetInHours))
  {
    var d := HoursToUnits(offsetInHours);
    RenormaliseAdjusted(exploded[k], d);
    ReduceShift(exploded[k], d);
  }

  /** Written-out coalesced intervals read back as themselves. */
  lemma ReparseCoalesced(coalesced: seq<Interval>)
    requires Canonical(coalesced)
    ensures ParseTimeAv(Some(StingifyAvailability(coalesced))) == Ok(coalesced)
  {
    forall k | 0 <= k < |coalesced| ensures Writable(coalesced[k]) {
      assert Proper(coalesced[k]);
    }
    ReducedCanonical(coalesced);
    ParseStingifyAvailability(coalesced);
  }

  /** Reducing the ends of canonical intervals changes nothing. */
  lemma ReducedCanonical(coalesced: seq<Interval>)
    requires Canonical(coalesced)
    ensures seq(|coalesced|, k requires 0 <= k < |coalesced| =>
              Interval(Reduce(coalesced[k].start), Reduce(coalesced[k].end))) == coalesced
  {
    var expected := seq(|coalesced|, k requires 0 <= k < |coalesced| =>
                      Interval(Reduce(coalesced[k].start), Reduce(coalesced[k].end)));
    forall k | 0 <= k < |coalesced| ensures expected[k] == coalesced[k] {
      assert Proper(coalesced[k]);
    }
  }

  /**
   * What `adjustTimeAv` means: its text reads back as canonical intervals (in the week,
   * non-empty, ascending, separated by gaps) whose units are exactly the input's units moved
   * by the offset, listed in order; except that a shifted availability covering the whole
   * week is written as the single interval `{0, 0}`, which is "M00:00 M00:00".
   */
  lemma AdjustTimeAvMeaning(timeAv: string, offsetInHours: real)
    requires ParseTimeAv(Some(timeAv)).Ok? && OnUnitGrid(offsetInHours)
    ensures var shifted := Shift(Availability(ParseTimeAv(Some(timeAv)).value), HoursToUnits(offsetInHours));
            var out := AdjustTimeAv(timeAv, offsetInHours);
            out.Ok?
            && ParseTimeAv(Some(out.value)).Ok?
            && Canonical(ParseTimeAv(Some(out.value)).value)
            && (HasWholeWeek(shifted) ==>
                  ParseTimeAv(Some(out.value)).value == [Interval(0, 0)] && out.value == "M00:00 M00:00")
            && (!HasWholeWeek(shifted) ==>
                  Explode(ParseTimeAv(Some(out.value)).value) == SortedUnits(shifted))
  {
    var parsed := ParseTimeAv(Some(timeAv)).value;
    var d := HoursToUnits(offsetInHours);
    var shifted := Shift(Availability(parsed), d);
    var adjusted := AdjustUnitsInHours(Explode(parsed), offsetInHours);
    NormalisedShift(parsed, offsetInHours);
    var coalesced := Coalesce(adjusted);
    assert coalesced == Sweep(SortedUnits(shifted));
    assert AdjustTimeAv(timeAv, offsetInHours) == Ok(StingifyAvailability(coalesced));
    SweepSorted(shifted);
    ReparseCoalesced(coalesced);
    if HasWholeWeek(shifted) {
      CoalesceFullWeek(shifted);
      WholeWeekText();
    } else {
      ExplodeSweep(shifted);
    }
  }

  /** The interval `{0, 0}` is written "M00:00 M00:00". */
  lemma WholeWeekText()
    ensures StingifyAvailability([Interval(0, 0)]) == "M00:00 M00:00"
  {
    StringifyInWeek(0);
    WriteTwoDigitFields('M', 0, 0);
    assert StringifyUnit(0) == "M00:00";
    var pieces := seq(1, k requires 0 <= k < 1 => StringifyInterval([Interval(0, 0)][k]));
    assert pieces == [StringifyInterval(Interval(0, 0))];
  }

  /** The text parses, and the intervals it holds stand for the units `s`. */
  ghost predicate StandsFor(text: string, s: set<int>) {
    ParseTimeAv(Some(text)).Ok? && Availability(ParseTimeAv(Some(text)).value) == s
  }

  /**
   * Outside the whole-week case, the availability an adjusted text stands for is the
   * input's availability shifted by the offset.
   */
  lemma AdjustTimeAvAvailability(timeAv: string, s: set<int>, offsetInHours: real)
    requires StandsFor(timeAv, s) && OnUnitGrid(offsetInHours) && !HasWholeWeek(s)
    ensures AdjustTimeAv(timeAv, offsetInHours).Ok?
    ensures StandsFor(AdjustTimeAv(timeAv, offsetInHours).value, Shift(s, HoursToUnits(offsetInHours)))
  {
    ShiftWholeWeek(s, HoursToUnits(offsetInHours));
    AdjustTimeAvMeaning(timeAv, offsetInHours);
    AvailabilityOfSorted(ParseTimeAv(Some(AdjustTimeAv(timeAv, offsetInHours).value)).value,
                         Shift(s, HoursToUnits(offsetInHours)));
  }

  /** Intervals exploding to the sorted members of a set of units of the week stand for that set. */
  lemma AvailabilityOfSorted(intervals: seq<Interval>, s: set<int>)
    requires WithinWeek(s) && Explode(intervals) == SortedUnits(s)
    ensures Availability(intervals) == s
  {
    SortedUnitsSpec(s);
    forall u | u in s ensures u in Availability(intervals) {
      ReduceInWeek(u);
      AvailabilityMember(intervals, u);
    }
    forall u | u in Availability(intervals) ensures u in s {
      AvailableSorted(intervals, s, u);
    }
  }

  /** An exploded unit, reduced, is available. */
  lemma AvailabilityMember(intervals: seq<Interval>, t: int)
    requires t in Explode(intervals)
    ensures Reduce(t) in Availability(intervals)
  {
  }

  lemma AvailableSorted(intervals: seq<Interval>, s: set<int>, u: int)
    requires WithinWeek(s) && Explode(intervals) == SortedUnits(s)
    requires forall v :: v in SortedUnits(s) <==> v in s
    requires u in Availability(intervals)
    ensures u in s
  {
    var t :| t in Explode(intervals) && Reduce(t) == u;
    assert t in s;
    ReduceInWeek(t);
  }

  /** Adjusting by zero hours keeps the availability. */
  lemma AdjustByZeroHours(timeAv: string, s: set<int>)
    requires StandsFor(timeAv, s) && !HasWholeWeek(s)
    ensures AdjustTimeAv(timeAv, 0.0).Ok? && StandsFor(AdjustTimeAv(timeAv, 0.0).value, s)
  {
    assert OnUnitGrid(0.0) && HoursToUnits(0.0) == 0;
    AdjustTimeAvAvailability(timeAv, s, 0.0);
    ShiftZero(s);
  }

  /**
   * Adjusting by `first` hours and then by `second` hours moves the availability by the
   * units of `first` and then by those of `second` (which `ShiftShift` shows is one move by
   * their sum): `once` is what the first adjustment wrote.
   */
  lemma AdjustTwice(timeAv: string, s: set<int>, first: real, once: string, second: real)
    requires StandsFor(timeAv, s) && OnUnitGrid(first) && OnUnitGrid(second) && !HasWholeWeek(s)
    requires AdjustTimeAv(timeAv, first) == Ok(once)
    ensures AdjustTimeAv(once, second).Ok?
    ensures StandsFor(AdjustTimeAv(once, second).value, Shift(Shift(s, HoursToUnits(first)), HoursToUnits(second)))
  {
    AdjustTimeAvAvailability(timeAv, s, first);
    AdjustAgain(once, s, HoursToUnits(first), second);
  }

  /** A second adjustment of a text standing for an availability moved by `d` units. */
  lemma AdjustAgain(once: string, s: set<int>, d: int, second: real)
    requires OnUnitGrid(second)
    requires WithinWeek(s) && !HasWholeWeek(s) && StandsFor(once, Shift(s, d))
    ensures AdjustTimeAv(once, second).Ok?
    ensures StandsFor(AdjustTimeAv(once, second).value, Shift(Shift(s, d), HoursToUnits(second)))
  {
    ShiftWholeWeek(s, d);
    AdjustTimeAvAvailability(once, Shift(s, d), second);
  }

  /**
   * `correctTimeAv` with a designator at the start of the timezone whose minutes are a
   * multiple of 15: the shift is four units per hour of the designator, against its sign,
   * so "UTC-HH:MM" moves forward and "UTC+HH:MM" moves back.
   */
  lemma CorrectTimeAvShift(timeAv: string, timezone: string)
    requires DesignatorAt(timezone, 0)
    requires TwoDigitValue(timezone[7], timezone[8]) % 15 == 0
    ensures var hours := ParseTimezoneToOffsetInHours(timezone).value * 2.0;
            OnUnitGrid(hours)
            && HoursToUnits(hours)
               == (if timezone[3] == '+' then -1 else 1)
                  * (4 * TwoDigitValue(timezone[4], timezone[5]) + TwoDigitValue(timezone[7], timezone[8]) / 15)
            && CorrectTimeAv(timeAv, timezone) == AdjustTimeAv(timeAv, hours)
  {
    var hh, mm := TwoDigitValue(timezone[4], timezone[5]), TwoDigitValue(timezone[7], timezone[8]);
    var sign := if timezone[3] == '+' then -1 else 1;
    var hours := ParseTimezoneToOffsetInHours(timezone).value * 2.0;
    var units := sign * (4 * hh + mm / 15);
    TimezoneOffset(timezone);
    assert mm as real / 60.0 == (mm / 15) as real / 4.0;
    assert hours == sign as real * (hh as real + mm as real / 60.0) * 2.0;
    assert hours * 2.0 == units as real;
    assert (units as real).Floor == units;
  }

  /** "UTC00:00" leaves the availability where it is. */
  lemma CorrectTimeAvUtc(timeAv: string)
    ensures CorrectTimeAv(timeAv, "UTC00:00") == AdjustTimeAv(timeAv, 0.0)
  {
  }
}
