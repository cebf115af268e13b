/**
 * Concrete cases of lib/adjust.test.ts, stated on the model: each lemma fixes the value
 * an operation gives on inputs the test table lists.
 */
module Samples {
  import opened Wrappers
  import opened Units
  import opened Parse
  import opened Text
  import opened Exploder
  import opened Coalescer
  import opened Stringify
  import opened Adjust

  /** Day-times: the day counts 48 units, the hour 2 and a half hour 1. */
  lemma ParseDayTimeSamples()
    ensures ParseDayTime("M00:00") == Ok(0)
    ensures ParseDayTime("M01:00") == Ok(2)
    ensures ParseDayTime("M15:00") == Ok(30)
    ensures ParseDayTime("T00:00") == Ok(48)
    ensures ParseDayTime("T01:00") == Ok(50)
    ensures ParseDayTime("U23:30") == Ok(335)
  {
  }

  /** Intervals keep their ends in the order written, wrapping or not. */
  lemma ParseIntervalWrapping()
    ensures ParseInterval("U23:30 M00:00") == Ok(Interval(335, 0))
  {
    var s := "U23:30 M00:00";
    assert s[..6] == "U23:30" && s[7..] == "M00:00";
    ParseDayTimeSamples();
  }

  lemma ParseIntervalEmpty()
    ensures ParseInterval("M00:00 M00:00") == Ok(Interval(0, 0))
  {
    var s := "M00:00 M00:00";
    assert s[..6] == "M00:00" && s[7..] == "M00:00";
    ParseDayTimeSamples();
  }

  /** Offsets in hours, with the wrap in both directions. */
  lemma AdjustUnitInHoursSamples()
    ensures AdjustUnitInHours(1, -1.0) == 335
    ensures AdjustUnitInHours(336, 1.0) == 2
    ensures AdjustUnitInHours(334, 1.5) == 1
    ensures AdjustUnitInHours(334, -1.5) == 331
  {
  }

  /** The first unit of the week. */
  lemma StringifyWeekStart()
    ensures StringifyUnit(0) == "M00:00"
  {
    StringifyInWeek(0);
    WriteTwoDigitFields('M', 0, 0);
  }

  /** The last unit of the week. */
  lemma StringifyWeekLast()
    ensures StringifyUnit(335) == "U23:30"
  {
    StringifyInWeek(335);
    assert 335 / 48 == 6 && 335 % 48 / 2 == 23 && 335 % 2 * 30 == 30 && DaySymbols[6] == 'U';
    WriteTwoDigitFields('U', 23, 30);
  }

  /** One past the end of the week is written as the start of the week. */
  lemma StringifyPastWeek()
    ensures StringifyUnit(336) == "M00:00"
  {
    StringifyReduces(336);
    StringifyWeekStart();
  }

  /** "UTC-01:00" reads as one hour forward, "UTC+01:30" as an hour and a half back. */
  lemma TimezoneSamples()
    ensures ParseTimezoneToOffsetInHours("UTC-01:00") == Ok(1.0)
    ensures ParseTimezoneToOffsetInHours("UTC+01:30") == Ok(-1.5)
    ensures ParseTimezoneToOffsetInHours("UTC00:00") == Ok(0.0)
    ensures ParseTimezoneToOffsetInHours("GMT") == Err(MalformedTimezone("GMT"))
  {
  }

  /**
   * The pipeline on one case: "M00:00 M01:00" under "UTC-01:00" moves two hours forward,
   * to "M02:00 M03:00". The steps follow `adjustTimeAv`: parse, explode, shift, coalesce,
   * write.
   */
  lemma CorrectTimeAvForward()
    ensures CorrectTimeAv("M00:00 M01:00", "UTC-01:00") == Ok("M02:00 M03:00")
  {
    TimezoneSamples();
    CorrectTimeAvShift("M00:00 M01:00", "UTC-01:00");
    AdjustTwoHours();
  }

  lemma AdjustTwoHours()
    ensures AdjustTimeAv("M00:00 M01:00", 2.0) == Ok("M02:00 M03:00")
  {
    ParseOneHour();
    ExplodeOneHour();
    ShiftOneHour();
    CoalesceOneHour();
    WriteTwoHoursLater();
    AdjustTimeAvSteps("M00:00 M01:00", 2.0, [Interval(0, 2)]);
  }

  lemma ShiftOneHour()
    ensures OnUnitGrid(2.0) && AdjustUnitsInHours([0, 1], 2.0) == [4, 5]
  {
  }

  /** `adjustTimeAv` on a text that parses, with an offset on the grid: the pipeline's output. */
  lemma AdjustTimeAvSteps(timeAv: string, offsetInHours: real, parsed: seq<Interval>)
    requires ParseTimeAv(Some(timeAv)) == Ok(parsed) && OnUnitGrid(offsetInHours)
    ensures AdjustTimeAv(timeAv, offsetInHours)
            == Ok(StingifyAvailability(Coalesce(AdjustUnitsInHours(Explode(parsed), offsetInHours))))
  {
  }

  lemma ParseOneHour()
    ensures ParseTimeAv(Some("M00:00 M01:00")) == Ok([Interval(0, 2)])
  {
    WriteOneHour();
    ParseSingle(Interval(0, 2));
  }

  lemma WriteOneHour()
    ensures StingifyAvailability([Interval(0, 2)]) == "M00:00 M01:00"
  {
    StringifyWeekStart();
    StringifyInWeek(2);
    WriteTwoDigitFields('M', 1, 0);
    WriteSingle(Interval(0, 2));
  }

  /** A single interval is written without separator. */
  lemma WriteSingle(iv: Interval)
    ensures StingifyAvailability([iv]) == StringifyInterval(iv)
  {
    var pieces := seq(1, k requires 0 <= k < 1 => StringifyInterval([iv][k]));
    assert pieces == [StringifyInterval(iv)];
  }

  /** A single written interval reads back reduced into the week. */
  lemma ParseSingle(iv: Interval)
    requires 0 <= iv.start < UnitMaximum && 0 <= iv.end < UnitMaximum
    ensures ParseTimeAv(Some(StingifyAvailability([iv]))) == Ok([iv])
  {
    SegmentSingle(iv);
    WriteSingle(iv);
    ParseTextSingle(StringifyInterval(iv), iv);
  }

  /** A text of one comma-free segment parses to the interval of that segment. */
  lemma ParseTextSingle(text: string, iv: Interval)
    requires text != "" && NoComma(text) && SegmentResult(text) == Ok(iv)
    ensures ParseTimeAv(Some(text)) == Ok([iv])
  {
    SplitSingle(text);
    TryMapAllOk([text], SegmentResult, [iv]);
  }

  /** A written interval of the week is one comma-free segment that parses back to it. */
  lemma SegmentSingle(iv: Interval)
    requires 0 <= iv.start < UnitMaximum && 0 <= iv.end < UnitMaximum
    ensures NoComma(StringifyInterval(iv)) && SegmentResult(StringifyInterval(iv)) == Ok(iv)
  {
    ParseStringifyInterval(iv);
    IntervalInWeek(iv);
  }

  /** A comma-free text is a single segment. */
  lemma SplitSingle(text: string)
    requires NoComma(text)
    ensures Split(text) == [text]
  {
    SplitJoin([text]);
  }

  /** The ends of an interval of the week are their own reductions. */
  lemma IntervalInWeek(iv: Interval)
    requires 0 <= iv.start < UnitMaximum && 0 <= iv.end < UnitMaximum
    ensures Interval(Reduce(iv.start), Reduce(iv.end)) == iv
  {
    ReduceInWeek(iv.start);
    ReduceInWeek(iv.end);
  }

  lemma ExplodeOneHour()
    ensures Explode([Interval(0, 2)]) == [0, 1]
  {
    assert [Interval(0, 2)][..0] == [];
    assert Range(0, 2) == [0, 1];
  }

  lemma CoalesceOneHour()
    ensures Coalesce([4, 5]) == [Interval(4, 6)]
  {
    NormalisedInWeek([4, 5]);
    SortedUnitsAre(NormalisedSet([4, 5]), [4, 5]);
    NextUnit(4);
    NextUnit(5);
    SweepSnoc([], 4);
    assert [] + [4] == [4];
    SweepSnoc([4], 5);
    assert [4] + [5] == [4, 5];
  }

  lemma WriteTwoHoursLater()
    ensures StingifyAvailability([Interval(4, 6)]) == "M02:00 M03:00"
  {
    StringifyTwoHours();
    StringifyThreeHours();
    WriteSingle(Interval(4, 6));
  }

  lemma StringifyTwoHours()
    ensures StringifyUnit(4) == "M02:00"
  {
    StringifyInWeek(4);
    WriteTwoDigitFields('M', 2, 0);
  }

  lemma StringifyThreeHours()
    ensures StringifyUnit(6) == "M03:00"
  {
    StringifyInWeek(6);
    WriteTwoDigitFields('M', 3, 0);
  }

  /**
   * Across the start of the week: "M00:00 M03:00" under "UTC+01:00" moves two hours back;
   * the first hour stays at the start of the week and the second lands at its end, so the
   * result is two intervals.
   */
  lemma CorrectTimeAvBoundary()
    ensures CorrectTimeAv("M00:00 M03:00", "UTC+01:00") == Ok("M00:00 M01:00, U22:00 M00:00")
  {
    TimezoneOneHourBack();
    CorrectTimeAvShift("M00:00 M03:00", "UTC+01:00");
    AdjustBackTwoHours();
  }

  lemma TimezoneOneHourBack()
    ensures ParseTimezoneToOffsetInHours("UTC+01:00") == Ok(-1.0)
  {
  }

  lemma AdjustBackTwoHours()
    ensures AdjustTimeAv("M00:00 M03:00", -2.0) == Ok("M00:00 M01:00, U22:00 M00:00")
  {
    ParseThreeHours();
    ExplodeThreeHours();
    ShiftBackTwoHours();
    CoalesceAcrossStart();
    WriteAcrossStart();
    AdjustTimeAvSteps("M00:00 M03:00", -2.0, [Interval(0, 6)]);
  }

  lemma ParseThreeHours()
    ensures ParseTimeAv(Some("M00:00 M03:00")) == Ok([Interval(0, 6)])
  {
    WriteThreeHours();
    ParseSingle(Interval(0, 6));
  }

  lemma WriteThreeHours()
    ensures StingifyAvailability([Interval(0, 6)]) == "M00:00 M03:00"
  {
    StringifyWeekStart();
    StringifyThreeHours();
    WriteSingle(Interval(0, 6));
  }

  lemma ExplodeThreeHours()
    ensures Explode([Interval(0, 6)]) == [0, 1, 2, 3, 4, 5]
  {
    assert Range(0, 6) == [0, 1, 2, 3, 4, 5];
  }

  lemma ShiftBackTwoHours()
    ensures OnUnitGrid(-2.0) && AdjustUnitsInHours([0, 1, 2, 3, 4, 5], -2.0) == [332, 333, 334, 335, 0, 1]
  {
  }

  lemma CoalesceAcrossStart()
    ensures Coalesce([332, 333, 334, 335, 0, 1]) == [Interval(0, 2), Interval(332, 0)]
  {
    var ts := [332, 333, 334, 335, 0, 1];
    NormalisedInWeek(ts);
    SortedUnitsAre(NormalisedSet(ts), [0, 1, 332, 333, 334, 335]);
    SweepFirstHour();
    SweepLastHours();
  }

  lemma SweepFirstHour()
    ensures Sweep([0, 1]) == [Interval(0, 2)]
  {
    NextUnit(0);
    NextUnit(1);
    SweepSnoc([], 0);
    assert [] + [0] == [0];
    SweepSnoc([0], 1);
    assert [0] + [1] == [0, 1];
  }

  lemma SweepLastHours()
    requires Sweep([0, 1]) == [Interval(0, 2)]
    ensures Sweep([0, 1, 332, 333, 334, 335]) == [Interval(0, 2), Interval(332, 0)]
  {
    NextUnit(332);
    NextUnit(333);
    NextUnit(334);
    NextUnit(335);
    SweepSnoc([0, 1], 332);
    assert [0, 1] + [332] == [0, 1, 332];
    SweepSnoc([0, 1, 332], 333);
    assert [0, 1, 332] + [333] == [0, 1, 332, 333];
    SweepSnoc([0, 1, 332, 333], 334);
    assert [0, 1, 332, 333] + [334] == [0, 1, 332, 333, 334];
    SweepSnoc([0, 1, 332, 333, 334], 335);
    assert [0, 1, 332, 333, 334] + [335] == [0, 1, 332, 333, 334, 335];
  }

  lemma WriteAcrossStart()
    ensures StingifyAvailability([Interval(0, 2), Interval(332, 0)]) == "M00:00 M01:00, U22:00 M00:00"
  {
    WritePair(Interval(0, 2), Interval(332, 0));
    StringifyFirstHour();
    StringifyLastHours();
    AcrossStartText();
  }

  lemma AcrossStartText()
    ensures "M00:00 M01:00" + ", " + "U22:00 M00:00" == "M00:00 M01:00, U22:00 M00:00"
  {
  }

  /** Two intervals are written with one separator between them. */
  lemma WritePair(a: Interval, b: Interval)
    ensures StingifyAvailability([a, b]) == StringifyInterval(a) + ", " + StringifyInterval(b)
  {
    var pieces := seq(2, k requires 0 <= k < 2 => StringifyInterval([a, b][k]));
    assert pieces[0] == StringifyInterval(a) && pieces[1] == StringifyInterval(b);
    JoinTwo(pieces);
  }

  lemma JoinTwo(parts: seq<string>)
    requires |parts| == 2
    ensures Join(parts) == parts[0] + ", " + parts[1]
  {
    assert parts[1..][0] == parts[1];
  }

  lemma StringifyFirstHour()
    ensures StringifyInterval(Interval(0, 2)) == "M00:00 M01:00"
  {
    WriteOneHour();
    WriteSingle(Interval(0, 2));
  }

  lemma StringifyLastHours()
    ensures StringifyInterval(Interval(332, 0)) == "U22:00 M00:00"
  {
    StringifyWeekStart();
    StringifyTwentyTwoSunday();
  }

  lemma StringifyTwentyTwoSunday()
    ensures StringifyUnit(332) == "U22:00"
  {
    StringifyInWeek(332);
    assert 332 / 48 == 6 && 332 % 48 / 2 == 22 && 332 % 2 * 30 == 0 && DaySymbols[6] == 'U';
    WriteTwoDigitFields('U', 22, 0);
  }

  /** "M00:00 M01:00" under "UTC+01:00" moves two hours back, to the end of the week. */
  lemma CorrectTimeAvBackward()
    ensures CorrectTimeAv("M00:00 M01:00", "UTC+01:00") == Ok("U22:00 U23:00")
  {
    TimezoneOneHourBack();
    CorrectTimeAvShift("M00:00 M01:00", "UTC+01:00");
    AdjustBackOneHour();
  }

  lemma AdjustBackOneHour()
    ensures AdjustTimeAv("M00:00 M01:00", -2.0) == Ok("U22:00 U23:00")
  {
    ParseOneHour();
    ExplodeOneHour();
    ShiftOneHourBack();
    CoalesceLastHour();
    WriteLastHour();
    AdjustTimeAvSteps("M00:00 M01:00", -2.0, [Interval(0, 2)]);
  }

  lemma ShiftOneHourBack()
    ensures OnUnitGrid(-2.0) && AdjustUnitsInHours([0, 1], -2.0) == [332, 333]
  {
  }

  lemma CoalesceLastHour()
    ensures Coalesce([332, 333]) == [Interval(332, 334)]
  {
    NormalisedInWeek([332, 333]);
    SortedUnitsAre(NormalisedSet([332, 333]), [332, 333]);
    NextUnit(332);
    NextUnit(333);
    SweepSnoc([], 332);
    assert [] + [332] == [332];
    SweepSnoc([332], 333);
    assert [332] + [333] == [332, 333];
  }

  lemma WriteLastHour()
    ensures StingifyAvailability([Interval(332, 334)]) == "U22:00 U23:00"
  {
    StringifyLastHourInterval();
    WriteSingle(Interval(332, 334));
  }

  lemma StringifyLastHourInterval()
    ensures StringifyInterval(Interval(332, 334)) == "U22:00 U23:00"
  {
    StringifyTwentyTwoSunday();
    StringifyTwentyThreeSunday();
  }

  lemma StringifyTwentyThreeSunday()
    ensures StringifyUnit(334) == "U23:00"
  {
    StringifyInWeek(334);
    assert 334 / 48 == 6 && 334 % 48 / 2 == 23 && 334 % 2 * 30 == 0 && DaySymbols[6] == 'U';
    WriteTwoDigitFields('U', 23, 0);
  }

  /**
   * A wrapping interval under "UTC00:00" stays where it is, but is written back as two
   * intervals: the part from the start of the week comes first.
   */
  lemma CorrectTimeAvWrapping()
    ensures CorrectTimeAv("U23:00 M01:00", "UTC00:00") == Ok("M00:00 M01:00, U23:00 M00:00")
  {
    CorrectTimeAvUtc("U23:00 M01:00");
    AdjustWrappingByZero();
  }

  lemma AdjustWrappingByZero()
    ensures AdjustTimeAv("U23:00 M01:00", 0.0) == Ok("M00:00 M01:00, U23:00 M00:00")
  {
    ParseWrapping();
    ExplodeWrapping();
    ShiftWrappingByZero();
    CoalesceWrapping();
    WriteWrapped();
    AdjustTimeAvSteps("U23:00 M01:00", 0.0, [Interval(334, 2)]);
  }

  lemma ParseWrapping()
    ensures ParseTimeAv(Some("U23:00 M01:00")) == Ok([Interval(334, 2)])
  {
    WriteWrapping();
    ParseSingle(Interval(334, 2));
  }

  lemma WriteWrapping()
    ensures StingifyAvailability([Interval(334, 2)]) == "U23:00 M01:00"
  {
    StringifyWrappingInterval();
    WriteSingle(Interval(334, 2));
  }

  lemma StringifyWrappingInterval()
    ensures StringifyInterval(Interval(334, 2)) == "U23:00 M01:00"
  {
    StringifyTwentyThreeSunday();
    StringifyInWeek(2);
    WriteTwoDigitFields('M', 1, 0);
  }

  lemma ExplodeWrapping()
    ensures Explode([Interval(334, 2)]) == [0, 1, 334, 335]
  {
    assert Range(0, 2) == [0, 1];
    assert Range(334, 336) == [334, 335];
  }

  lemma ShiftWrappingByZero()
    ensures OnUnitGrid(0.0) && AdjustUnitsInHours([0, 1, 334, 335], 0.0) == [0, 1, 334, 335]
  {
  }

  lemma CoalesceWrapping()
    ensures Coalesce([0, 1, 334, 335]) == [Interval(0, 2), Interval(334, 0)]
  {
    var ts := [0, 1, 334, 335];
    NormalisedInWeek(ts);
    SortedUnitsAre(NormalisedSet(ts), ts);
    SweepFirstHour();
    SweepWrappingTail();
  }

  lemma SweepWrappingTail()
    requires Sweep([0, 1]) == [Interval(0, 2)]
    ensures Sweep([0, 1, 334, 335]) == [Interval(0, 2), Interval(334, 0)]
  {
    NextUnit(334);
    NextUnit(335);
    SweepSnoc([0, 1], 334);
    assert [0, 1] + [334] == [0, 1, 334];
    SweepSnoc([0, 1, 334], 335);
    assert [0, 1, 334] + [335] == [0, 1, 334, 335];
  }

  lemma WriteWrapped()
    ensures StingifyAvailability([Interval(0, 2), Interval(334, 0)]) == "M00:00 M01:00, U23:00 M00:00"
  {
    WritePair(Interval(0, 2), Interval(334, 0));
    StringifyFirstHour();
    StringifyLastHour();
    WrappedText();
  }

  lemma StringifyLastHour()
    ensures StringifyInterval(Interval(334, 0)) == "U23:00 M00:00"
  {
    StringifyWeekStart();
    StringifyTwentyThreeSunday();
  }

  lemma WrappedText()
    ensures "M00:00 M01:00" + ", " + "U23:00 M00:00" == "M00:00 M01:00, U23:00 M00:00"
  {
  }
}
