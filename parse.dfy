/**
 * The parsers of lib/adjust.ts: one day-time, one interval, a whole availability list,
 * and the UTC designator that gives a timezone offset in hours.
 */
module Parse {
  import opened Wrappers
  import opened Units
  import opened Text

  /** What the source throws (or, for the last two, computes instead of a number). */
  datatype Error =
    | MalformedDayTime(daytime: string)
    | MalformedInterval(interval: string)
    | MalformedTimezone(timezone: string)
      /** `parseInt` met a non-digit: the source goes on with `NaN`. */
    | NotANumber(timezone: string)
      /** The source would go on with a fractional unit (minutes off the half-hour grid). */
    | FractionalUnit(daytime: string)
      /** The source would go on with a fractional unit (an offset off the half-hour grid). */
    | FractionalOffset(offsetInHours: real)

  /** The day letters of the source's `dayMapping`: Thursday is `R`, Sunday is `U`. */
  predicate IsDay(c: char) {
    c == 'M' || c == 'T' || c == 'W' || c == 'R' || c == 'F' || c == 'S' || c == 'U'
  }

  /** `dayMapping`: Monday 0 through Sunday 6. */
  function DayIndex(c: char): (d: int)
    requires IsDay(c)
    ensures 0 <= d < 7
  {
    match c
    case 'M' => 0
    case 'T' => 1
    case 'W' => 2
    case 'R' => 3
    case 'F' => 4
    case 'S' => 5
    case 'U' => 6
  }

  /** The shape `^[MTWRFSU]\d\d:\d\d$`. */
  predicate DayTimeShape(s: string) {
    |s| == 6 && IsDay(s[0]) && IsDigit(s[1]) && IsDigit(s[2]) && s[3] == ':'
    && IsDigit(s[4]) && IsDigit(s[5])
  }

  /**
   * `parseDayTime`: `(day * 24 + HH + MM / 60) * UnitsInHour`. Neither field is range-checked,
   * so "M99:90" is accepted.
   */
  function ParseDayTime(s: string): (r: Result<int, Error>)
    ensures r.Ok? <==> DayTimeShape(s) && TwoDigitValue(s[4], s[5]) % 30 == 0
    ensures !DayTimeShape(s) ==> r == Err(MalformedDayTime(s))
    ensures r.Ok? ==> 0 <= r.value <= 489
  {
    if !DayTimeShape(s) then Err(MalformedDayTime(s))
    else
      var minutes := TwoDigitValue(s[4], s[5]);
      if minutes % 30 != 0 then Err(FractionalUnit(s))
      else Ok((DayIndex(s[0]) * 24 + TwoDigitValue(s[1], s[2])) * UnitsInHour + minutes / 30)
  }

  /**
   * The unit `parseDayTime` returns is `(day * 24 + HH + MM / 60) * UnitsInHour`, computed
   * exactly.
   */
  lemma ParseDayTimeHours(s: string)
    requires ParseDayTime(s).Ok?
    ensures ParseDayTime(s).value as real
            == (DayIndex(s[0]) as real * 24.0 + TwoDigitValue(s[1], s[2]) as real
                + TwoDigitValue(s[4], s[5]) as real / 60.0) * UnitsInHour as real
  {
    var m := TwoDigitValue(s[4], s[5]);
    assert m as real / 60.0 == (m / 30) as real / 2.0;
  }

  /** The shape `^[MTWRFSU]\d\d:\d\d [MTWRFSU]\d\d:\d\d$`. */
  predicate IntervalShape(s: string) {
    |s| == 13 && DayTimeShape(s[..6]) && s[6] == ' ' && DayTimeShape(s[7..])
  }

  /**
   * `parseInterval`: the two day-times in the order written; a start after the end is
   * kept as it is, which is how a span across the week boundary is written.
   */
  function ParseInterval(s: string): (r: Result<Interval, Error>)
    ensures !IntervalShape(s) ==> r == Err(MalformedInterval(s))
    ensures IntervalShape(s) ==>
      (r.Ok? <==> ParseDayTime(s[..6]).Ok? && ParseDayTime(s[7..]).Ok?)
    ensures r.Ok? ==>
      ParseDayTime(s[..6]) == Ok(r.value.start) && ParseDayTime(s[7..]) == Ok(r.value.end)
  {
    if !IntervalShape(s) then Err(MalformedInterval(s))
    else
      var start :- ParseDayTime(s[..6]);
      var end :- ParseDayTime(s[7..]);
      Ok(Interval(start, end))
  }

  /** The callback `ts => parseInterval(ts.trim())` that `parseTimeAv` maps over the segments. */
  function SegmentResult(segment: string): Result<Interval, Error> {
    ParseInterval(Trim(segment))
  }

  /**
   * What `parseTimeAv` promises of a non-empty text split into `segments`: it succeeds exactly
   * when every trimmed segment parses, and then holds one interval per segment, in order;
   * a failure is the error of one of the segments.
   */
  predicate ParsedSegments(segments: seq<string>, r: Result<seq<Interval>, Error>) {
    (r.Ok? <==> forall k :: 0 <= k < |segments| ==> SegmentResult(segments[k]).Ok?)
    && (r.Ok? ==> |r.value| == |segments|
                  && forall k :: 0 <= k < |r.value| ==> SegmentResult(segments[k]) == Ok(r.value[k]))
    && (r.Err? ==> exists k :: 0 <= k < |segments| && SegmentResult(segments[k]) == Err(r.error))
  }

  /**
   * `parseTimeAv`: an absent or empty text is the empty availability; otherwise the text is
   * split on `", "` and every trimmed segment is parsed as an interval.
   */
  function ParseTimeAv(times: Option<string>): (r: Result<seq<Interval>, Error>)
    ensures times == None || times == Some("") ==> r == Ok([])
    ensures times.Some? && times.value != "" ==> ParsedSegments(Split(times.value), r)
  {
    if times == None || times.value == "" then Ok([])
    else
      var segments := Split(times.value);
      SegmentsParsed(segments);
      TryMap(segments, SegmentResult)
  }

  /** `map` with the throwing callback over the segments: all parse, or the first error is thrown. */
  lemma SegmentsParsed(segments: seq<string>)
    ensures ParsedSegments(segments, TryMap(segments, SegmentResult))
  {
  }

  /** `UTC[+-]\d\d:\d\d` starting at index `i` of `tz`. */
  predicate DesignatorAt(tz: string, i: int) {
    0 <= i && i + 9 <= |tz| && tz[i] == 'U' && tz[i + 1] == 'T' && tz[i + 2] == 'C'
    && (tz[i + 3] == '+' || tz[i + 3] == '-')
    && IsDigit(tz[i + 4]) && IsDigit(tz[i + 5]) && tz[i + 6] == ':'
    && IsDigit(tz[i + 7]) && IsDigit(tz[i + 8])
  }

  /** The unanchored test `/UTC(\+|-)\d\d:\d\d/.test(tz)`. */
  predicate HasDesignator(tz: string) {
    exists i :: 0 <= i <= |tz| - 9 && DesignatorAt(tz, i)
  }

  /**
   * `parseTimezoneToOffsetInHours`: "UTC00:00" is 0; otherwise a designator must occur
   * somewhere, and the sign and digits are then read at the fixed indexes 3, 4, 5, 7 and 8.
   * The sign is inverted: "UTC+HH:MM" gives -(HH + MM / 60).
   */
  function ParseTimezoneToOffsetInHours(tz: string): (r: Result<real, Error>)
    ensures tz == "UTC00:00" ==> r == Ok(0.0)
    ensures r == Err(MalformedTimezone(tz)) <==> tz != "UTC00:00" && !HasDesignator(tz)
    ensures DesignatorAt(tz, 0) ==> r.Ok?
  {
    if tz == "UTC00:00" then Ok(0.0)
    else if !HasDesignator(tz) then Err(MalformedTimezone(tz))
    else if !(IsDigit(tz[4]) && IsDigit(tz[5]) && IsDigit(tz[7]) && IsDigit(tz[8])) then
      Err(NotANumber(tz))
    else
      var sign := if tz[3] == '-' then 1 else -1;
      var minutes := TwoDigitValue(tz[4], tz[5]) * 60 + TwoDigitValue(tz[7], tz[8]);
      Ok((sign * minutes) as real / 60.0)
  }

  /**
   * A designator at the start reads as its hours and minutes against its sign: "UTC-HH:MM"
   * is `HH + MM / 60` and "UTC+HH:MM" is `-(HH + MM / 60)`.
   */
  lemma TimezoneOffset(tz: string)
    requires DesignatorAt(tz, 0)
    ensures ParseTimezoneToOffsetInHours(tz)
            == Ok((if tz[3] == '+' then -1.0 else 1.0)
                  * (TwoDigitValue(tz[4], tz[5]) as real + TwoDigitValue(tz[7], tz[8]) as real / 60.0))
  {
    var minutes := TwoDigitValue(tz[4], tz[5]) * 60 + TwoDigitValue(tz[7], tz[8]);
    assert minutes as real / 60.0
           == TwoDigitValue(tz[4], tz[5]) as real + TwoDigitValue(tz[7], tz[8]) as real / 60.0;
  }

  /** Every offset read lies within 99 hours and 99 minutes either way. */
  lemma TimezoneOffsetBounds(tz: string)
    requires ParseTimezoneToOffsetInHours(tz).Ok?
    ensures -100.65 <= ParseTimezoneToOffsetInHours(tz).value <= 100.65
  {
  }
}
