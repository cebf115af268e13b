/**
 * The discrete weekly timeline of lib/adjust.ts: half-hour units on a circular week,
 * Monday 00:00 being unit 0, and the modular shift of a unit by an offset.
 */
module Units {

  /** Units per hour (half-hour resolution). */
  const UnitsInHour: int := 2

  /** Units in a week: the modulus of the timeline. */
  const UnitMaximum: int := 24 * 7 * UnitsInHour

  /** A span as the source stores it: a pair of units, `start > end` meaning a wrap. */
  datatype Interval = Interval(start: int, end: int)

  /** The units `lo, lo + 1, ..., hi - 1`, as a counting `for` loop visits them; empty when `hi <= lo`. */
  function Range(lo: int, hi: int): (r: seq<int>)
    ensures |r| == if hi <= lo then 0 else hi - lo
    decreases hi - lo
  {
    if hi <= lo then [] else Range(lo, hi - 1) + [hi - 1]
  }

  /** The `i`-th unit of a range. */
  lemma {:induction false} RangeAt(lo: int, hi: int, i: int)
    requires 0 <= i < hi - lo
    ensures Range(lo, hi)[i] == lo + i
    decreases hi - lo
  {
    if i < hi - lo - 1 {
      RangeAt(lo, hi - 1, i);
    }
  }

  lemma RangeMembers(lo: int, hi: int, u: int)
    ensures u in Range(lo, hi) <==> lo <= u < hi
  {
    if lo <= u < hi {
      RangeAt(lo, hi, u - lo);
    }
    if u in Range(lo, hi) {
      var i :| 0 <= i < |Range(lo, hi)| && Range(lo, hi)[i] == u;
      RangeAt(lo, hi, i);
    }
  }

  /** JavaScript's `%` on integers: the remainder truncates toward zero, so it takes the sign of `a`. */
  function JsRem(a: int, b: int): (r: int)
    requires b > 0
    ensures -b < r < b
    ensures a >= 0 ==> r == a % b
    ensures a < 0 ==> r <= 0
  {
    if a >= 0 then a % b else -((-a) % b)
  }

  /** The source's `adjustUnitInUnits`: `(time + offset + UnitMaximum) % UnitMaximum` with JavaScript's `%`. */
  function AdjustUnitInUnits(time: int, offsetInUnits: int): (r: int)
    ensures -UnitMaximum < r < UnitMaximum
    ensures (r - (time + offsetInUnits)) % UnitMaximum == 0
    ensures time + offsetInUnits + UnitMaximum >= 0 ==> r == (time + offsetInUnits) % UnitMaximum
  {
    JsRem(time + offsetInUnits + UnitMaximum, UnitMaximum)
  }

  /** An hour offset that moves units by a whole number of units. */
  predicate OnUnitGrid(offsetInHours: real) {
    (offsetInHours * UnitsInHour as real).Floor as real == offsetInHours * UnitsInHour as real
  }

  /** The number of units an hour offset on the grid stands for. */
  function HoursToUnits(offsetInHours: real): (units: int)
    requires OnUnitGrid(offsetInHours)
    ensures units as real == offsetInHours * 2.0
  {
    (offsetInHours * UnitsInHour as real).Floor
  }

  /** The source's `adjustUnitInHours`: the hour offset is first turned into units. */
  function AdjustUnitInHours(time: int, offsetInHours: real): (r: int)
    requires OnUnitGrid(offsetInHours)
    ensures -UnitMaximum < r < UnitMaximum
    ensures (r - (time + HoursToUnits(offsetInHours))) % UnitMaximum == 0
    ensures time + HoursToUnits(offsetInHours) + UnitMaximum >= 0
            ==> r == Reduce(time + HoursToUnits(offsetInHours))
  {
    AdjustUnitInUnits(time, HoursToUnits(offsetInHours))
  }

  /** The source's `adjustUnitsInHours`: every unit shifted, order and length kept. */
  function AdjustUnitsInHours(times: seq<int>, offsetInHours: real): (r: seq<int>)
    requires OnUnitGrid(offsetInHours)
    ensures |r| == |times|
    ensures forall k :: 0 <= k < |r| ==> r[k] == AdjustUnitInHours(times[k], offsetInHours)
  {
    seq(|times|, k requires 0 <= k < |times| => AdjustUnitInHours(times[k], offsetInHours))
  }

  /** The canonical reduction into `[0, UnitMaximum)`. */
  function Reduce(x: int): (r: int)
    ensures 0 <= r < UnitMaximum
  {
    x % UnitMaximum
  }

  /** Normalising a shifted unit a second time (as the coalescer does) always gives the true modular shift. */
  lemma {:induction false} RenormaliseAdjusted(time: int, offsetInUnits: int)
    ensures AdjustUnitInUnits(AdjustUnitInUnits(time, offsetInUnits), 0) == Reduce(time + offsetInUnits)
  {
    var r := AdjustUnitInUnits(time, offsetInUnits);
    assert 0 < r + UnitMaximum;
    assert (r + UnitMaximum) % UnitMaximum == (time + offsetInUnits) % UnitMaximum by {
      ModEqual(r + UnitMaximum, time + offsetInUnits);
    }
  }

  /** Two integers that differ by a multiple of the week reduce to the same unit. */
  lemma ModEqual(a: int, b: int)
    requires (a - b) % UnitMaximum == 0
    ensures a % UnitMaximum == b % UnitMaximum
  {
    var q := (a - b) / UnitMaximum;
    assert a == b + q * UnitMaximum;
  }

  /** Shifting a reduced unit reduces like shifting the unit itself. */
  lemma ReduceShift(x: int, d: int)
    ensures Reduce(Reduce(x) + d) == Reduce(x + d)
  {
    assert Reduce(x) + d - (x + d) == -(x / UnitMaximum) * UnitMaximum;
    ModEqual(Reduce(x) + d, x + d);
  }

  /** Two units that reduce alike after the same shift reduce alike. */
  lemma ReduceCancel(x: int, y: int, d: int)
    requires Reduce(x + d) == Reduce(y + d)
    ensures Reduce(x) == Reduce(y)
  {
    ReduceShift(x + d, -d);
    ReduceShift(y + d, -d);
  }

  /** A unit of the week is its own reduction. */
  lemma ReduceInWeek(x: int)
    requires 0 <= x < UnitMaximum
    ensures Reduce(x) == x
  {
  }

  /** Offset 0 is the identity on the week. */
  lemma AdjustByZero(time: int)
    requires 0 <= time < UnitMaximum
    ensures AdjustUnitInUnits(time, 0) == time
  {
  }
}
