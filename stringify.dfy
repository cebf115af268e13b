/**
 * The serialisers of lib/adjust.ts: a unit back to `D HH:MM`, an interval to
 * `"<start> <end>"`, an availability to those joined with `", "`; and the round trips
 * with the parsers.
 */
module Stringify {
  import opened Wrappers
  import opened Units
  import opened Text
  import opened Parse

  /** `daySymbols`: the day letter of each day index. */
  const DaySymbols: string := "MTWRFSU"

  /** `daySymbols` and `dayMapping` are inverse tables. */
  lemma DayTablesInverse(d: int)
    requires 0 <= d < 7
    ensures IsDay(DaySymbols[d]) && DayIndex(DaySymbols[d]) == d
  {
  }

  /**
   * `stringifyUnit`: the unit is first normalised with a zero shift, then split into
   * day, hour and minute with `Math.floor` and JavaScript's `%`; the fields are written with
   * `toString()` and `padStart(2, '0')`.
   */
  function StringifyUnit(inputUnit: int): (s: string)
    ensures |s| >= 6
    ensures -UnitMaximum <= inputUnit ==> DayTimeShape(s)
  {
    var unit := AdjustUnitInUnits(inputUnit, 0);
    var unitsInDay := 24 * UnitsInHour;
    var day := unit / unitsInDay;
    var ofDay := JsRem(unit, unitsInDay);
    var hour := ofDay / UnitsInHour;
    var minute := (ofDay % UnitsInHour) * (60 / UnitsInHour);
    DayTablesInverse(JsRem(day + 7, 7));
    WriteDayTime(DaySymbols[JsRem(day + 7, 7)], hour, minute)
  }

  /** The template `${dayName}${hour.toString().padStart(2, '0')}:${minute.toString().padStart(2, '0')}`. */
  function WriteDayTime(dayName: char, hour: int, minute: int): (s: string)
    ensures |s| >= 6 && s[0] == dayName
    ensures IsDay(dayName) && 0 <= hour <= 99 && 0 <= minute <= 99 ==> DayTimeShape(s)
  {
    var s := [dayName] + PadTwo(IntToString(hour)) + ":" + PadTwo(IntToString(minute));
    if 0 <= hour <= 99 && 0 <= minute <= 99 then
      TwoDigits(hour);
      TwoDigits(minute);
      s
    else s
  }

  /** Fields below 100 are written as two digits each. */
  lemma WriteTwoDigitFields(dayName: char, hour: int, minute: int)
    requires 0 <= hour <= 99 && 0 <= minute <= 99
    ensures WriteDayTime(dayName, hour, minute)
            == [dayName, DigitChar(hour / 10), DigitChar(hour % 10), ':',
                DigitChar(minute / 10), DigitChar(minute % 10)]
  {
    TwoDigits(hour);
    TwoDigits(minute);
  }

  /** A unit of the week is written from its day, its hour and its minute. */
  lemma StringifyInWeek(u: int)
    requires 0 <= u < UnitMaximum
    ensures StringifyUnit(u) == WriteDayTime(DaySymbols[u / 48], u % 48 / 2, u % 2 * 30)
  {
    var day := u / 48;
    assert AdjustUnitInUnits(u, 0) == u;
    assert JsRem(u, 48) == u % 48;
    assert u % 48 % 2 == u % 2;
    assert JsRem(day + 7, 7) == day;
  }

  /** Serialising reduces its input into the week first (for inputs from -UnitMaximum upward). */
  lemma StringifyReduces(u: int)
    requires -UnitMaximum <= u
    ensures StringifyUnit(u) == StringifyUnit(Reduce(u))
  {
    assert AdjustUnitInUnits(u, 0) == Reduce(u) == AdjustUnitInUnits(Reduce(u), 0);
  }

  /** Parsing two-digit fields behind a day letter. */
  lemma ParseFields(dayName: char, hour: int, minute: int)
    requires IsDay(dayName) && 0 <= hour <= 99 && 0 <= minute <= 99 && minute % 30 == 0
    ensures ParseDayTime([dayName, DigitChar(hour / 10), DigitChar(hour % 10), ':',
                          DigitChar(minute / 10), DigitChar(minute % 10)])
            == Ok((DayIndex(dayName) * 24 + hour) * 2 + minute / 30)
  {
    var s := [dayName, DigitChar(hour / 10), DigitChar(hour % 10), ':',
              DigitChar(minute / 10), DigitChar(minute % 10)];
    assert TwoDigitValue(s[1], s[2]) == hour;
    assert TwoDigitValue(s[4], s[5]) == minute;
  }

  /** A unit of the week splits into its day, hour and minute, and is rebuilt from them. */
  lemma UnitFields(v: int)
    requires 0 <= v < UnitMaximum
    ensures 0 <= v / 48 < 7 && 0 <= v % 48 / 2 < 24 && (v % 2 * 30 == 0 || v % 2 * 30 == 30)
    ensures (v / 48 * 24 + v % 48 / 2) * 2 + v % 2 * 30 / 30 == v
  {
  }

  /** A day, an hour and a minute on the half-hour grid make the unit they are read from. */
  lemma FieldsUnit(d: int, h: int, m: int, u: int)
    requires 0 <= d < 7 && 0 <= h < 24 && (m == 0 || m == 30) && u == d * 48 + h * 2 + m / 30
    ensures 0 <= u < UnitMaximum && u / 48 == d && u % 48 / 2 == h && u % 2 * 30 == m
  {
  }

  /**
   * Round trip: serialising any unit from -UnitMaximum upward and parsing it back gives
   * the unit reduced into the week.
   */
  lemma {:induction false} ParseStringifyUnit(u: int)
    requires -UnitMaximum <= u
    ensures ParseDayTime(StringifyUnit(u)) == Ok(Reduce(u))
  {
    StringifyReduces(u);
    ParseStringifyInWeek(Reduce(u));
  }

  /** Round trip for a unit of the week. */
  lemma ParseStringifyInWeek(v: int)
    requires 0 <= v < UnitMaximum
    ensures ParseDayTime(StringifyUnit(v)) == Ok(v)
  {
    var day, hour, minute := v / 48, v % 48 / 2, v % 2 * 30;
    StringifyInWeek(v);
    WriteTwoDigitFields(DaySymbols[day], hour, minute);
    DayTablesInverse(day);
    UnitFields(v);
    ParseFields(DaySymbols[day], hour, minute);
  }

  /**
   * The other direction: a well-formed day-time with hours below 24 and minutes 00 or 30
   * is exactly what serialising its unit writes.
   */
  lemma {:induction false} StringifyParseDayTime(s: string)
    requires DayTimeShape(s)
    requires TwoDigitValue(s[1], s[2]) < 24
    requires TwoDigitValue(s[4], s[5]) == 0 || TwoDigitValue(s[4], s[5]) == 30
    ensures ParseDayTime(s).Ok? && 0 <= ParseDayTime(s).value < UnitMaximum
    ensures StringifyUnit(ParseDayTime(s).value) == s
  {
    var d, h, m := DayIndex(s[0]), TwoDigitValue(s[1], s[2]), TwoDigitValue(s[4], s[5]);
    ParseDayTimeValue(s);
    StringifyFields(d, h, m);
    WriteDayTimeFields(s);
  }

  /** The unit of a day, an hour and a minute on the half-hour grid is written from them. */
  lemma StringifyFields(d: int, h: int, m: int)
    requires 0 <= d < 7 && 0 <= h < 24 && (m == 0 || m == 30)
    ensures 0 <= d * 48 + h * 2 + m / 30 < UnitMaximum
    ensures StringifyUnit(d * 48 + h * 2 + m / 30) == WriteDayTime(DaySymbols[d], h, m)
  {
    var u := d * 48 + h * 2 + m / 30;
    FieldsUnit(d, h, m, u);
    StringifyInWeek(u);
  }

  /** The unit a well-formed day-time on the half-hour grid reads as. */
  lemma ParseDayTimeValue(s: string)
    requires DayTimeShape(s) && TwoDigitValue(s[4], s[5]) % 30 == 0
    ensures ParseDayTime(s)
            == Ok(DayIndex(s[0]) * 48 + TwoDigitValue(s[1], s[2]) * 2 + TwoDigitValue(s[4], s[5]) / 30)
  {
  }

  /** A well-formed day-time is written back from its own fields. */
  lemma WriteDayTimeFields(s: string)
    requires DayTimeShape(s)
    ensures WriteDayTime(DaySymbols[DayIndex(s[0])], TwoDigitValue(s[1], s[2]), TwoDigitValue(s[4], s[5])) == s
  {
    var d, h, m := DayIndex(s[0]), TwoDigitValue(s[1], s[2]), TwoDigitValue(s[4], s[5]);
    WriteTwoDigitFields(DaySymbols[d], h, m);
    assert DaySymbols[d] == s[0];
    TwoDigitChars(s[1], s[2]);
    TwoDigitChars(s[4], s[5]);
    assert s == [s[0], s[1], s[2], ':', s[4], s[5]];
  }

  /** `"<start> <end>"`, the callback of `stingifyAvailability`. */
  function StringifyInterval(iv: Interval): (s: string)
    ensures |s| >= 13
    ensures Writable(iv) ==> IntervalShape(s)
  {
    var a, b := StringifyUnit(iv.start), StringifyUnit(iv.end);
    if Writable(iv) then
      IntervalOfDayTimes(a, b);
      a + " " + b
    else a + " " + b
  }

  /**
   * `stingifyAvailability` (the name is the source's own): the intervals written out and
   * joined with `", "`.
   */
  function StingifyAvailability(intervals: seq<Interval>): (s: string)
    ensures intervals == [] <==> s == []
  {
    Join(seq(|intervals|, k requires 0 <= k < |intervals| => StringifyInterval(intervals[k])))
  }

  /** An interval whose two ends lie from -UnitMaximum upward. */
  predicate Writable(iv: Interval) {
    -UnitMaximum <= iv.start && -UnitMaximum <= iv.end
  }

  /** Two well-formed day-times around a space make a well-formed interval text. */
  lemma IntervalOfDayTimes(a: string, b: string)
    requires DayTimeShape(a) && DayTimeShape(b)
    ensures IntervalShape(a + " " + b)
    ensures (a + " " + b)[..6] == a && (a + " " + b)[7..] == b
    ensures NoComma(a + " " + b)
    ensures Trim(a + " " + b) == a + " " + b
  {
    var s := a + " " + b;
    assert s == (a + " ") + b;
    assert s[..6] == a;
    assert s[7..] == b;
    assert s[6] == ' ';
    IntervalTextClean(a, b);
  }

  /** Such a text holds no comma and nothing for `trim` to remove. */
  lemma IntervalTextClean(a: string, b: string)
    requires DayTimeShape(a) && DayTimeShape(b)
    ensures NoComma(a + " " + b)
    ensures Trim(a + " " + b) == a + " " + b
  {
    var s := a + " " + b;
    assert forall i :: 0 <= i < 6 ==> s[i] == a[i] && s[i + 7] == b[i];
    assert s[0] == a[0] && s[12] == b[5];
    TrimUntouched(s);
  }

  /** Serialising an interval and parsing it back gives both ends reduced into the week. */
  lemma {:induction false} ParseStringifyInterval(iv: Interval)
    requires Writable(iv)
    ensures ParseInterval(StringifyInterval(iv)) == Ok(Interval(Reduce(iv.start), Reduce(iv.end)))
    ensures NoComma(StringifyInterval(iv))
    ensures Trim(StringifyInterval(iv)) == StringifyInterval(iv)
  {
    ParseStringifyUnit(iv.start);
    ParseStringifyUnit(iv.end);
    IntervalOfDayTimes(StringifyUnit(iv.start), StringifyUnit(iv.end));
  }

  /**
   * Round trip for a whole availability: serialising it and parsing the text back gives
   * the same intervals with every end reduced into the week (the empty availability is
   * the empty text).
   */
  lemma {:induction false} ParseStingifyAvailability(intervals: seq<Interval>)
    requires forall k :: 0 <= k < |intervals| ==> Writable(intervals[k])
    ensures ParseTimeAv(Some(StingifyAvailability(intervals)))
            == Ok(seq(|intervals|, k requires 0 <= k < |intervals| =>
                    Interval(Reduce(intervals[k].start), Reduce(intervals[k].end))))
  {
    var pieces := seq(|intervals|, k requires 0 <= k < |intervals| => StringifyInterval(intervals[k]));
    var expected := seq(|intervals|, k requires 0 <= k < |intervals| =>
                      Interval(Reduce(intervals[k].start), Reduce(intervals[k].end)));
    forall k | 0 <= k < |intervals|
      ensures NoComma(pieces[k]) && SegmentResult(pieces[k]) == Ok(expected[k])
    {
      ParseStringifyInterval(intervals[k]);
    }
    if intervals == [] {
      assert StingifyAvailability(intervals) == [] && expected == [];
    } else {
      SplitJoin(pieces);
      TryMapAllOk(pieces, SegmentResult, expected);
    }
  }
}
