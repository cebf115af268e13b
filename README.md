# Weekly availability shifting (`lib/adjust.ts`)

This project models the availability engine of `lib/adjust.ts` and proves properties of it
in Dafny. An availability is a text such as `"M00:00 M01:00, T23:00 W12:00"`. Each time in
it is a day letter (`M T W R F S U`, with Thursday `R` and Sunday `U`) followed by `HH:MM`.

The engine reads every time as a *unit*: a half hour on a circular week of
`UnitMaximum = 336` units, where Monday 00:00 is unit 0. An interval is a pair of units,
and a start after the end means the interval wraps across the week boundary.
`adjustTimeAv` runs five steps:

1. parse the text into intervals;
2. explode the intervals into units;
3. shift every unit by an offset in hours;
4. coalesce the shifted units back into intervals;
5. write the intervals out.

`correctTimeAv` applies `adjustTimeAv` with twice the offset read from a `UTC±HH:MM`
designator, taken against its sign.

Modules, one per step, following the source's own functions:

- `Units` holds the constants, the `Interval` record, JavaScript's truncating `%` (`JsRem`),
  `adjustUnitInUnits`, `adjustUnitInHours` and `adjustUnitsInHours`.
- `Text` stands in for the regular-expression character classes, `parseInt`, `trim`,
  `split(", ")`, `join(", ")`, `toString` and `padStart(2, '0')`.
- `Parse` holds `parseDayTime`, `parseInterval`, `parseTimeAv` and
  `parseTimezoneToOffsetInHours`. A thrown exception is an `Err` of the `Result` type in
  `Wrappers`.
- `Exploder` holds `explodeToUnits`. It is a method over an array of intervals, with its
  loops and their invariants. It rewrites the `end` of each wrapping interval in place.
- `Coalescer` holds `coalesceAvailability`. It is a method whose loop is proved against the
  sweep function `Sweep` over the sorted, de-duplicated, normalised units. Lemmas give the
  shape of its output and show that it keeps exactly the input's units.
- `Stringify` holds `stringifyUnit` and `stingifyAvailability` (the name is the source's
  own). It also holds the round trips with the parsers.
- `Adjust` holds `adjustTimeAv` and `correctTimeAv`. Their meaning is stated on the set of
  week units a text stands for (`Availability`): an adjusted text stands for the input's set
  moved by the offset.
- `Samples` fixes concrete values from the test table in `lib/adjust.test.ts`.

A shifted availability that covers the whole week is coalesced into the single interval
`{0, 0}`. It is written `"M00:00 M00:00"`, and that text reads back as the empty
availability. `Adjust.AdjustTimeAvMeaning` states this case separately. The lemmas that
chain adjustments therefore exclude the whole week.

## Model

| member | source | states |
|---|---|---|
| Units.AdjustUnitInUnits | lib/adjust.ts:77-79 | the result lies strictly between -336 and 336 and is congruent to `time + offset` modulo 336; it is exactly `(time + offset) mod 336` whenever `time + offset + 336 >= 0` (JavaScript's `%` is modelled as written) |
| Units.JsRem | lib/adjust.ts:78 | JavaScript's remainder: bounded by the divisor, equal to the Euclidean remainder for non-negative operands, never positive for negative ones |
| Units.RenormaliseAdjusted | lib/adjust.ts:77-79 | normalising an adjusted unit once more (offset 0) always gives the true modular shift, for every time and offset |
| Units.AdjustByZero | lib/adjust.ts:77-79 | offset 0 is the identity on the units of the week |
| Units.HoursToUnits | lib/adjust.ts:82 | an hour offset on the half-hour grid is exactly twice as many units |
| Units.AdjustUnitInHours | lib/adjust.ts:81-83 | the result is in range and congruent to the unit moved by twice the hour offset; it is exactly that unit reduced into the week whenever the moved unit is at least -336 |
| Units.AdjustUnitsInHours | lib/adjust.ts:85-87 | one result per unit, in order, each the unit adjusted by the offset |
| Stringify.DayTablesInverse | lib/adjust.ts:9-17 | `daySymbols` and `dayMapping` are inverse tables over the seven days |
| Parse.ParseDayTime | lib/adjust.ts:28-34 | accepted exactly when the text has the shape `[MTWRFSU]\d\d:\d\d` and the minutes are a multiple of 30; a text of any other shape is a malformed day-time; an accepted value lies in 0..489 (hours and minutes are not range-checked) |
| Parse.ParseDayTimeHours | lib/adjust.ts:32-33 | the value is `(day * 24 + HH + MM / 60) * 2`, computed exactly |
| Parse.ParseInterval | lib/adjust.ts:42-52 | a text not of the shape `<daytime> <daytime>` is a malformed interval; otherwise it parses exactly when both day-times do, and the start is the first day-time and the end the second, never reordered |
| Parse.ParseTimeAv | lib/adjust.ts:54-57 | an absent or empty text is no intervals; otherwise the result is a list exactly when every trimmed `", "` segment parses, and then holds one interval per segment, in order, each the one its segment parses to; an error is the error of one of the segments |
| Wrappers.TryMap | lib/adjust.ts:56 | a list of segments parses exactly when every segment does, then to one interval per segment in order; otherwise to the error of the first segment that fails |
| Text.TrimStart | lib/adjust.ts:56 | removes exactly the leading white space: what remains is a suffix that does not start with white space |
| Text.TrimEnd | lib/adjust.ts:56 | removes exactly the trailing white space: what remains is a prefix that does not end with white space |
| Text.Trim | lib/adjust.ts:56 | the result is never longer, neither starts nor ends with white space, and is empty exactly when the input is all white space |
| Text.TrimKeepsMiddle | lib/adjust.ts:56 | `trim` keeps exactly the middle of the text: the result is the text between a leading and a trailing stretch of white space |
| Text.Split | lib/adjust.ts:56 | there is at least one piece; a text without the separator is one piece; joining the pieces with `", "` gives the text back |
| Text.SplitPieces | lib/adjust.ts:56 | the text is cut at every `", "`: the first piece is a prefix of the text and no piece holds the separator, which with `Join(Split(s)) == s` fixes the pieces |
| Text.Join | lib/adjust.ts:120 | no pieces join to the empty text and one piece to itself; with `Split` it round-trips (`Split`, `SplitJoin`) |
| Text.SplitJoin | lib/adjust.ts:117-121 | splitting on `", "` the join of comma-free pieces gives the pieces back |
| Text.IntToString | lib/adjust.ts:114 | `toString()` of an integer starts with `-` exactly when it is negative and is otherwise made of decimal digits; its value for the only numbers written here, 0..99, is given by `TwoDigits` |
| Text.PadTwo | lib/adjust.ts:114 | `padStart(2, '0')` leaves two or more characters alone, puts a `0` before a single character, and makes the empty text `"00"` |
| Text.TwoDigits | lib/adjust.ts:114 | `toString().padStart(2, '0')` of a number below 100 is its two decimal digits |
| Parse.ParseTimezoneToOffsetInHours | lib/adjust.ts:123-131 | "UTC00:00" is 0; the text is a malformed timezone exactly when it is not "UTC00:00" and holds no `UTC[+-]\d\d:\d\d` anywhere; a designator at the start always reads |
| Parse.TimezoneOffset | lib/adjust.ts:128-130 | a designator at the start reads against its sign: "UTC-HH:MM" is `HH + MM / 60` and "UTC+HH:MM" is `-(HH + MM / 60)` |
| Parse.TimezoneOffsetBounds | lib/adjust.ts:128-130 | every offset read lies within 99 hours 99 minutes either way |
| Exploder.ExplodeOne | lib/adjust.ts:62-72 | a non-wrapping interval gives `end - start` units, and an interval whose start equals its end gives none |
| Exploder.Explode | lib/adjust.ts:59-75 | no intervals give no units and a single interval gives its own units (order and membership in general: `ExplodeAppend`, `ExplodeMembers`) |
| Exploder.Widen | lib/adjust.ts:62-67 | the start is kept; the end becomes 336 when the interval wraps and stays otherwise |
| Exploder.ExplodeOneMembers | lib/adjust.ts:62-72 | the units of an interval are exactly those it covers: `start..end-1`, or `0..end-1` and `start..335` when it wraps |
| Exploder.ExplodeInterval | lib/adjust.ts:62-72 | the two loops push exactly the units of the interval in order, and leave a wrapping interval with end 336 and any other interval unchanged |
| Exploder.ExplodeToUnits | lib/adjust.ts:59-75 | the units returned are those of every interval, interval after interval; each wrapping interval of the array now ends at 336 and no other field changes |
| Exploder.ExplodeAppend | lib/adjust.ts:59-75 | exploding keeps the order of the intervals |
| Exploder.ExplodeMembers | lib/adjust.ts:59-75 | a unit is exploded exactly when some interval covers it |
| Coalescer.NormalisedSet | lib/adjust.ts:91 | normalised units lie strictly between -336 and 336 |
| Coalescer.NormalisedSetReduces | lib/adjust.ts:91 | for units from -336 upward, normalising reduces each unit into the week |
| Coalescer.SortedUnitsSpec | lib/adjust.ts:91 | the set converted to a list and sorted is strictly ascending and holds exactly the set's members |
| Coalescer.AscendingUnique | lib/adjust.ts:91 | two strictly ascending lists with the same members are equal, so the sorted list is determined by the set |
| Coalescer.Absorb | lib/adjust.ts:95-102 | one step of the loop adds an interval exactly when the guard opens a new one, and the current interval then ends at `adjustUnitInUnits(time, 1)` |
| Coalescer.AbsorbKeepsEarlier | lib/adjust.ts:95-102 | the first step opens the interval from `time` to the unit after it; a later step leaves every earlier interval as it was, a new interval starts at `time`, and a joined one keeps its start |
| Coalescer.Sweep | lib/adjust.ts:93-104 | one `Absorb` per unit, in input order (`SweepSnoc`); its meaning on ascending units of the week is `SweepCorrect` |
| Coalescer.Coalesce | lib/adjust.ts:89-105 | the sweep of the sorted, de-duplicated, normalised units; its meaning is `CoalesceCorrect` |
| Coalescer.SweepLength | lib/adjust.ts:93-104 | the sweep gives at most one interval per unit, and none exactly when there are no units |
| Coalescer.SweepUnits | lib/adjust.ts:93-104 | the loop builds exactly the sweep of the units |
| Coalescer.CoalesceAvailability | lib/adjust.ts:89-105 | the method returns the sweep of the sorted, de-duplicated, normalised units |
| Coalescer.NextUnit | lib/adjust.ts:102 | the new end, `adjustUnitInUnits(time, 1)`, is the unit after `time`, wrapping from 335 to 0 |
| Coalescer.SweepCorrect | lib/adjust.ts:93-104 | on strictly ascending units of the week, the sweep gives non-empty intervals in the week, separated by gaps; their runs, in order, are exactly the input units; and the last run ends at the last unit |
| Coalescer.EndZeroGuardIdle | lib/adjust.ts:98 | on ascending units of the week the guard `lastInterval.end === 0` never changes the decision |
| Coalescer.CoalesceCorrect | lib/adjust.ts:89-105 | for units from -336 upward: the output is canonical; its runs are the sorted normalised units; a unit is covered exactly when some input unit reduces to it |
| Coalescer.CanonicalSeparated | lib/adjust.ts:93-104 | in the output, every run starts at least one missing unit after the end of any earlier run, so no two intervals touch |
| Coalescer.StartsAscending | lib/adjust.ts:93-104 | output starts are strictly ascending |
| Coalescer.EndAfterRun | lib/adjust.ts:102 | the end of a proper interval is the unit after `LastUnit`, so it is 0 exactly when `LastUnit` is 335; that `LastUnit` is the last unit of the interval's run in the output follows from `SweepCorrect`'s equation between the runs and the input units |
| Coalescer.SortedFullWeek | lib/adjust.ts:91 | the whole week sorts to `0..335` |
| Coalescer.SweepPrefix | lib/adjust.ts:93-104 | the units `0..k-1` sweep into the single interval from 0 to the unit after `k - 1` |
| Coalescer.CoalesceFullWeek | lib/adjust.ts:89-105 | the whole week coalesces to the single interval `{0, 0}` |
| Coalescer.WholeWeekInterval | lib/adjust.ts:89-105 | the interval `{0, 0}` appears in the output only when the week is whole |
| Coalescer.ExplodeCanonical | lib/adjust.ts:59-75 | canonical intervals other than `{0, 0}` explode into exactly their runs |
| Coalescer.ExplodeSweep | lib/adjust.ts:59-105 | short of the whole week, exploding the coalesced intervals gives back the sorted units |
| Coalescer.ExplodeSweepFullWeek | lib/adjust.ts:59-105 | the whole week, coalesced and exploded again, gives no units |
| Coalescer.CoalesceAcrossBoundary | lib/adjust.test.ts:59 | `[334, 335, 0, 1, 2]` coalesces to `[{0, 3}, {334, 0}]`: a run reaching 335 is not joined to a run starting at 0 |
| Coalescer.CoalesceDuplicate | lib/adjust.test.ts:55 | `[0, 0]` coalesces to `[{0, 1}]` |
| Stringify.StringifyUnit | lib/adjust.ts:107-115 | from -336 upward, a unit is written as a well-formed day-time `[MTWRFSU]\d\d:\d\d` (its value: `ParseStringifyUnit`) |
| Stringify.WriteDayTime | lib/adjust.ts:114 | a day letter with hour and minute below 100 fills the template as a well-formed day-time |
| Stringify.StringifyInterval | lib/adjust.ts:119 | for ends from -336 upward, an interval is written as `<daytime> <daytime>` (its value: `ParseStringifyInterval`) |
| Stringify.StringifyInWeek | lib/adjust.ts:108-115 | a unit of the week is written as its day letter, its hour and its minute |
| Stringify.StringifyReduces | lib/adjust.ts:109 | from -336 upward, a unit is written as its reduction into the week |
| Stringify.WriteTwoDigitFields | lib/adjust.ts:114 | hour and minute below 100 are written with two digits each |
| Stringify.ParseStringifyUnit | lib/adjust.ts:108-115 | parsing what `stringifyUnit` writes gives the unit reduced into the week |
| Stringify.StringifyParseDayTime | lib/adjust.ts:28-34 | a well-formed day-time with hour below 24 and minute 00 or 30 parses to a unit of the week that is written back as the same text |
| Stringify.StingifyAvailability | lib/adjust.ts:117-121 | the written text is empty exactly when there are no intervals |
| Stringify.ParseStringifyInterval | lib/adjust.ts:119 | a written interval parses back to its ends reduced into the week, and is a comma-free text that trimming leaves alone |
| Stringify.ParseStingifyAvailability | lib/adjust.ts:117-121 | a written availability parses back to its intervals, in order, with their ends reduced into the week |
| Adjust.AdjustTimeAv | lib/adjust.ts:133-140 | the result is a text exactly when the input parses and the offset is on the half-hour grid; a parse error is passed on unchanged |
| Adjust.CorrectTimeAv | lib/adjust.ts:144-147 | an error reading the timezone is the result |
| Adjust.ShiftZero | lib/adjust.ts:77-79 | moving units of the week by 0 leaves them in place |
| Adjust.ShiftShift | lib/adjust.ts:77-79 | two moves in a row are one move by the sum |
| Adjust.ShiftWholeWeek | lib/adjust.ts:77-79 | a move yields the whole week exactly when it is applied to the whole week |
| Adjust.NormalisedShift | lib/adjust.ts:85-91 | the normalised shifted units of the exploded intervals are the availability moved by the offset |
| Adjust.ReparseCoalesced | lib/adjust.ts:117-121 | written-out canonical intervals read back as themselves |
| Adjust.AdjustTimeAvMeaning | lib/adjust.ts:133-140 | the adjusted text reads back as canonical intervals; outside the whole week they explode to exactly the input's units moved by the offset, in ascending order; the whole week is written "M00:00 M00:00" |
| Adjust.WholeWeekText | lib/adjust.ts:117-121 | the interval `{0, 0}` is written "M00:00 M00:00" |
| Adjust.AdjustTimeAvAvailability | lib/adjust.ts:133-140 | short of the whole week, the adjusted text stands for the input's availability moved by the offset |
| Adjust.AvailabilityOfSorted | lib/adjust.ts:59-75 | intervals exploding to the sorted members of a set of week units stand for that set |
| Adjust.AdjustByZeroHours | lib/adjust.ts:133-140 | adjusting by 0 hours keeps the availability |
| Adjust.AdjustTwice | lib/adjust.ts:133-140 | adjusting twice moves the availability by the units of the first offset and then by those of the second (one move by their sum, by `ShiftShift`) |
| Adjust.CorrectTimeAvShift | lib/adjust.ts:123-147 | for a designator at the start with minutes a multiple of 15, `correctTimeAv` is `adjustTimeAv` by four units per designator hour, against its sign |
| Adjust.CorrectTimeAvUtc | lib/adjust.ts:123-147 | "UTC00:00" adjusts by zero hours |
| Samples.ParseDayTimeSamples | lib/adjust.test.ts:4-10 | "M00:00", "M01:00", "M15:00", "T00:00", "T01:00" and "U23:30" parse to 0, 2, 30, 48, 50 and 335 |
| Samples.ParseIntervalEmpty | lib/adjust.test.ts:18 | "M00:00 M00:00" parses to `{0, 0}` |
| Samples.ParseIntervalWrapping | lib/adjust.test.ts:22 | "U23:30 M00:00" parses to `{335, 0}` |
| Samples.AdjustUnitInHoursSamples | lib/adjust.test.ts:41-46 | (1, -1 h) gives 335, (336, 1 h) gives 2, (334, 1.5 h) gives 1 and (334, -1.5 h) gives 331 |
| Samples.StringifyWeekStart | lib/adjust.test.ts:68 | unit 0 is written "M00:00" |
| Samples.StringifyWeekLast | lib/adjust.test.ts:74 | unit 335 is written "U23:30" |
| Samples.StringifyPastWeek | lib/adjust.test.ts:75 | unit 336 is written "M00:00" |
| Samples.TimezoneSamples | lib/adjust.ts:123-131 | "UTC-01:00" reads 1, "UTC+01:30" reads -1.5, "UTC00:00" reads 0 and "GMT" is a malformed timezone |
| Samples.CorrectTimeAvForward | lib/adjust.test.ts:102 | "M00:00 M01:00" under "UTC-01:00" becomes "M02:00 M03:00" |
| Samples.CorrectTimeAvBackward | lib/adjust.test.ts:103 | "M00:00 M01:00" under "UTC+01:00" becomes "U22:00 U23:00" |
| Samples.CorrectTimeAvWrapping | lib/adjust.test.ts:101 | "U23:00 M01:00" under "UTC00:00" becomes "M00:00 M01:00, U23:00 M00:00": a wrapping interval is written back as two |
| Samples.CorrectTimeAvBoundary | lib/adjust.test.ts:105 | "M00:00 M03:00" under "UTC+01:00" becomes "M00:00 M01:00, U22:00 M00:00": the hour that crosses the start of the week becomes a second interval |

## Left out

- The `frontend/` directory is not part of this model. It holds the Airtable interface, the asynchronous record queries, the batched record updates and the `GlobalConfig` wrapper, which are all host I/O.
- Parse.ParseDayTime: minutes that are not a multiple of 30 give the error `FractionalUnit`, where the source goes on with a fractional unit; units are integers here.
- Units.AdjustUnitInHours: requires an hour offset on the half-hour grid, where the source would compute a fractional unit. The same holds for `AdjustUnitsInHours` and `HoursToUnits`.
- Adjust.AdjustTimeAv: an offset off the half-hour grid gives the error `FractionalOffset` instead of the fractional units the source would go on with.
- Parse.ParseTimezoneToOffsetInHours: the source slices `timezone[3..8]` by UTF-16 code unit, while the model indexes the text by code point. The two differ only when a character outside the Basic Multilingual Plane comes before index 9: `"😀BC-12:34 UTC+01:00"` is `NaN` in the source, because the emoji takes two code units, but `Ok(377/30)` in the model.
- Parse.ParseTimezoneToOffsetInHours: a non-digit at index 4, 5, 7 or 8 after an unanchored designator gives the error `NotANumber`, standing for the `NaN` the source computes and passes on.
- The regular-expression engine, `parseInt`, `toString`, `padStart`, `trim` and `split` are replaced by character-class predicates, digit arithmetic and recursive definitions. The message text of thrown errors is not modelled.
- Coalescer.CoalesceAvailability: the `Set` and `sort` internals are replaced by an enumeration of the set in ascending order. The loop's in-place update of the last interval's end is modelled on a sequence of interval values.
- Exploder.ExplodeToUnits: the intervals are values in an array. The aliasing between these objects and the caller's parsed list is not modelled.
- Stringify.StringifyUnit: the source computes the minute with floating-point arithmetic. The model uses the integer remainder, which gives the same 0 or 30 for integer units.
- Coalescer.CoalesceCorrect: requires every input unit to be at least -336. Below that the normalisation with JavaScript's `%` leaves negative units, which the model computes but this lemma does not describe.
- Adjust.AdjustTimeAvAvailability: requires the availability not to cover the whole week. A whole week is written as "M00:00 M00:00", which reads back as empty; `AdjustTimeAvMeaning` states that case. The same requirement holds for `AdjustByZeroHours` and `AdjustTwice`.
- Adjust.CorrectTimeAvShift: requires the designator at the start of the timezone and minutes that are a multiple of 15. Other designators are covered only by `ParseTimezoneToOffsetInHours` and `CorrectTimeAv`.
