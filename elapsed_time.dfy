/**
 * The elapsed-time helper of the summarisation script: given two instants as
 * integer millisecond timestamps (what `Date.getTime()` returns), it reports
 * the time between them as whole seconds, minutes, hours and days.
 *
 * Each unit is the previous one divided by its conversion factor and rounded
 * down (toward negative infinity), so the four fields are cumulative totals,
 * not the components of a clock reading: 90 minutes is reported as
 * 90 minutes and 1 hour, not as 1 hour and 30 minutes.
 */
module ElapsedTime {

  const MillisPerSecond: int := 1000
  const SecondsPerMinute: int := 60
  const MinutesPerHour: int := 60
  const HoursPerDay: int := 24

  const MillisPerMinute: int := MillisPerSecond * SecondsPerMinute
  const MillisPerHour: int := MillisPerMinute * MinutesPerHour
  const MillisPerDay: int := MillisPerHour * HoursPerDay

  /** The record `{ seconds, minutes, hours, days }` the helper returns. */
  datatype Elapsed = Elapsed(seconds: int, minutes: int, hours: int, days: int)

  /**
   * `Math.floor(x / d)` for an integer `x` and a positive integer divisor:
   * the unique `q` with `q * d <= x < (q + 1) * d`. Dafny's `/` on `int` is
   * Euclidean, which for a positive divisor rounds toward negative infinity
   * exactly as `Math.floor` does, negative dividends included.
   */
  function FloorDiv(x: int, d: int): (q: int)
    requires d > 0
    ensures q * d <= x < q * d + d
  {
    x / d
  }

  /** The time from `startDate` to `endDate`, both in milliseconds. */
  function GetTimeBetweenDates(startDate: int, endDate: int): (r: Elapsed)
    ensures r.seconds * MillisPerSecond <= endDate - startDate < (r.seconds + 1) * MillisPerSecond
    ensures r.minutes * SecondsPerMinute <= r.seconds < (r.minutes + 1) * SecondsPerMinute
    ensures r.hours * MinutesPerHour <= r.minutes < (r.hours + 1) * MinutesPerHour
    ensures r.days * HoursPerDay <= r.hours < (r.days + 1) * HoursPerDay
  {
    var seconds := FloorDiv(endDate - startDate, MillisPerSecond);
    var minutes := FloorDiv(seconds, SecondsPerMinute);
    var hours := FloorDiv(minutes, MinutesPerHour);
    var days := FloorDiv(hours, HoursPerDay);
    Elapsed(seconds, minutes, hours, days)
  }

  // ---------------------------------------------------------------------------
  // Floor division
  // ---------------------------------------------------------------------------

  /** Multiplying by a non-negative factor preserves `<=`. */
  lemma MulMonotone(a: int, b: int, d: int)
    requires a <= b && d >= 0
    ensures a * d <= b * d
  {
  }

  /** The bounds of `FloorDiv` determine its result. */
  lemma FloorDivUnique(x: int, d: int, q: int)
    requires d > 0
    requires q * d <= x < q * d + d
    ensures FloorDiv(x, d) == q
  {
    var r := FloorDiv(x, d);
    if r < q {
      MulMonotone(r + 1, q, d);
      assert false;
    } else if q < r {
      MulMonotone(q + 1, r, d);
      assert false;
    }
  }

  /** Rounding down twice is rounding down once by the product of the divisors. */
  lemma NestedFloorDiv(x: int, a: int, b: int)
    requires a > 0 && b > 0
    ensures FloorDiv(FloorDiv(x, a), b) == FloorDiv(x, a * b)
  {
    var q := FloorDiv(x, a);
    var p := FloorDiv(q, b);
    MulMonotone(p * b, q, a);
    MulMonotone(q + 1, p * b + b, a);
    assert p * b * a == p * (a * b);
    assert (p * b + b) * a == p * (a * b) + a * b;
    FloorDivUnique(x, a * b, p);
  }

  /** A larger dividend never gives a smaller quotient. */
  lemma FloorDivMonotone(x: int, y: int, d: int)
    requires d > 0 && x <= y
    ensures FloorDiv(x, d) <= FloorDiv(y, d)
  {
    var qx, qy := FloorDiv(x, d), FloorDiv(y, d);
    if qy < qx {
      MulMonotone(qy + 1, qx, d);
      assert false;
    }
  }

  /**
   * Dividing by a divisor of at least one keeps the sign and moves toward
   * zero: `0 <= q <= x` for `x >= 0`, and `x <= q < 0` for `x < 0`.
   */
  lemma FloorDivShrinks(x: int, d: int)
    requires d >= 1
    ensures x >= 0 ==> 0 <= FloorDiv(x, d) <= x
    ensures x < 0 ==> x <= FloorDiv(x, d) < 0
  {
    var q := FloorDiv(x, d);
    if x >= 0 {
      if q < 0 {
        MulMonotone(q + 1, 0, d);
        assert false;
      }
      MulMonotone(1, d, q);
    } else {
      if q >= 0 {
        MulMonotone(0, q, d);
        assert false;
      }
      if q < x {
        MulMonotone(1, d, -(q + 1));
        assert false;
      }
    }
  }

  // ---------------------------------------------------------------------------
  // Properties of the helper
  // ---------------------------------------------------------------------------

  /**
   * The fields are cumulative totals: each is the whole millisecond
   * difference rounded down to its own unit.
   */
  lemma CumulativeTotals(startDate: int, endDate: int)
    ensures var r := GetTimeBetweenDates(startDate, endDate);
      && r.seconds == FloorDiv(endDate - startDate, MillisPerSecond)
      && r.minutes == FloorDiv(endDate - startDate, MillisPerMinute)
      && r.hours == FloorDiv(endDate - startDate, MillisPerHour)
      && r.days == FloorDiv(endDate - startDate, MillisPerDay)
  {
    var d := endDate - startDate;
    NestedFloorDiv(d, MillisPerSecond, SecondsPerMinute);
    NestedFloorDiv(d, MillisPerMinute, MinutesPerHour);
    NestedFloorDiv(d, MillisPerHour, HoursPerDay);
  }

  /** Each field bounds the millisecond difference in its own unit. */
  lemma CumulativeBounds(startDate: int, endDate: int)
    ensures var r, d := GetTimeBetweenDates(startDate, endDate), endDate - startDate;
      && r.minutes * MillisPerMinute <= d < (r.minutes + 1) * MillisPerMinute
      && r.hours * MillisPerHour <= d < (r.hours + 1) * MillisPerHour
      && r.days * MillisPerDay <= d < (r.days + 1) * MillisPerDay
  {
    CumulativeTotals(startDate, endDate);
  }

  /**
   * Forward in time every field is non-negative and the coarser units never
   * exceed the finer ones; backward in time every field is negative and the
   * order is reversed. So the sign of any field tells the order of the dates.
   */
  lemma SignAndOrder(startDate: int, endDate: int)
    ensures var r := GetTimeBetweenDates(startDate, endDate);
      endDate >= startDate ==> 0 <= r.days <= r.hours <= r.minutes <= r.seconds
    ensures var r := GetTimeBetweenDates(startDate, endDate);
      endDate < startDate ==> r.seconds <= r.minutes <= r.hours <= r.days < 0
  {
    var r := GetTimeBetweenDates(startDate, endDate);
    FloorDivShrinks(endDate - startDate, MillisPerSecond);
    FloorDivShrinks(r.seconds, SecondsPerMinute);
    FloorDivShrinks(r.minutes, MinutesPerHour);
    FloorDivShrinks(r.hours, HoursPerDay);
  }

  /** With the start fixed, a later end never yields a smaller value in any field. */
  lemma MonotoneInEnd(startDate: int, endDate: int, laterEnd: int)
    requires endDate <= laterEnd
    ensures var r, s := GetTimeBetweenDates(startDate, endDate), GetTimeBetweenDates(startDate, laterEnd);
      r.seconds <= s.seconds && r.minutes <= s.minutes && r.hours <= s.hours && r.days <= s.days
  {
    var r, s := GetTimeBetweenDates(startDate, endDate), GetTimeBetweenDates(startDate, laterEnd);
    FloorDivMonotone(endDate - startDate, laterEnd - startDate, MillisPerSecond);
    FloorDivMonotone(r.seconds, s.seconds, SecondsPerMinute);
    FloorDivMonotone(r.minutes, s.minutes, MinutesPerHour);
    FloorDivMonotone(r.hours, s.hours, HoursPerDay);
  }

  /** With the end fixed, a later start never yields a larger value in any field. */
  lemma AntitoneInStart(startDate: int, laterStart: int, endDate: int)
    requires startDate <= laterStart
    ensures var r, s := GetTimeBetweenDates(startDate, endDate), GetTimeBetweenDates(laterStart, endDate);
      s.seconds <= r.seconds && s.minutes <= r.minutes && s.hours <= r.hours && s.days <= r.days
  {
    var r, s := GetTimeBetweenDates(startDate, endDate), GetTimeBetweenDates(laterStart, endDate);
    FloorDivMonotone(endDate - laterStart, endDate - startDate, MillisPerSecond);
    FloorDivMonotone(s.seconds, r.seconds, SecondsPerMinute);
    FloorDivMonotone(s.minutes, r.minutes, MinutesPerHour);
    FloorDivMonotone(s.hours, r.hours, HoursPerDay);
  }

  /** Only the difference of the two instants matters. */
  lemma ShiftInvariant(startDate: int, endDate: int, shift: int)
    ensures GetTimeBetweenDates(startDate + shift, endDate + shift) == GetTimeBetweenDates(startDate, endDate)
  {
  }

  /** All four fields are zero exactly when less than one second elapsed forward. */
  lemma ZeroExactlyBelowOneSecond(startDate: int, endDate: int)
    ensures GetTimeBetweenDates(startDate, endDate) == Elapsed(0, 0, 0, 0)
        <==> 0 <= endDate - startDate < MillisPerSecond
  {
    var d := endDate - startDate;
    if 0 <= d < MillisPerSecond {
      FloorDivUnique(d, MillisPerSecond, 0);
      FloorDivUnique(0, SecondsPerMinute, 0);
      FloorDivUnique(0, MinutesPerHour, 0);
      FloorDivUnique(0, HoursPerDay, 0);
    }
  }

  /** Field-by-field sum of two reports. */
  function Add(a: Elapsed, b: Elapsed): Elapsed
  {
    Elapsed(a.seconds + b.seconds, a.minutes + b.minutes, a.hours + b.hours, a.days + b.days)
  }

  /** Every field of `hi` is at least that of `lo` and exceeds it by at most `slack`. */
  predicate WithinSlack(lo: Elapsed, hi: Elapsed, slack: int)
  {
    && lo.seconds <= hi.seconds <= lo.seconds + slack
    && lo.minutes <= hi.minutes <= lo.minutes + slack
    && lo.hours <= hi.hours <= lo.hours + slack
    && lo.days <= hi.days <= lo.days + slack
  }

  /**
   * Splitting an interval at an intermediate instant: the two reports added
   * together never exceed the report for the whole interval, and fall short
   * of it by at most one unit in each field.
   */
  lemma SplitInterval(startDate: int, midDate: int, endDate: int)
    ensures WithinSlack(
      Add(GetTimeBetweenDates(startDate, midDate), GetTimeBetweenDates(midDate, endDate)),
      GetTimeBetweenDates(startDate, endDate), 1)
  {
    CumulativeTotals(startDate, midDate);
    CumulativeTotals(midDate, endDate);
    CumulativeTotals(startDate, endDate);
  }

  /**
   * One timed stage: the clock reading taken before it (`d1`) and the one
   * taken after it (`d2`).
   */
  datatype Stage = Stage(start: int, end: int)

  /** Every stage ends no earlier than it starts. */
  predicate Forward(stages: seq<Stage>)
  {
    forall i :: 0 <= i < |stages| ==> stages[i].start <= stages[i].end
  }

  /**
   * Stages timed one after another: no stage starts before the previous one
   * ended. The time between two stages is not timed, and a stage may end
   * before it starts (the wall clock can step back).
   */
  predicate Sequential(stages: seq<Stage>)
  {
    forall i :: 0 < i < |stages| ==> stages[i - 1].end <= stages[i].start
  }

  /** Every field of `a` is at most the same field of `b`. */
  predicate AtMost(a: Elapsed, b: Elapsed)
  {
    a.seconds <= b.seconds && a.minutes <= b.minutes && a.hours <= b.hours && a.days <= b.days
  }

  /** The reports of the stages, added field by field. */
  function StageSum(stages: seq<Stage>): (s: Elapsed)
    ensures Forward(stages) ==> 0 <= s.days <= s.hours <= s.minutes <= s.seconds
  {
    if stages == [] then Elapsed(0, 0, 0, 0)
    else
      var n := |stages| - 1;
      Add(StageSum(stages[..n]), GetTimeBetweenDates(stages[n].start, stages[n].end))
  }

  /**
   * For stages timed one after another, the stage reports added field by
   * field never exceed the report for the whole span, from the first stage's
   * start to the last stage's end.
   */
  lemma {:induction false} StagesWithinSpan(stages: seq<Stage>)
    requires |stages| >= 1 && Sequential(stages)
    ensures AtMost(StageSum(stages), GetTimeBetweenDates(stages[0].start, stages[|stages| - 1].end))
  {
    var n := |stages| - 1;
    if n > 0 {
      var prefix := stages[..n];
      assert Sequential(prefix);
      StagesWithinSpan(prefix);
      MonotoneInEnd(stages[0].start, stages[n - 1].end, stages[n].start);
      SplitInterval(stages[0].start, stages[n].start, stages[n].end);
    }
  }

  /**
   * When, in addition, no stage ends before it starts, every field of the
   * summed stage reports lies between zero and the same field of the report
   * for the whole span.
   */
  lemma ForwardStagesBracketed(stages: seq<Stage>)
    requires |stages| >= 1 && Sequential(stages) && Forward(stages)
    ensures var s, span := StageSum(stages), GetTimeBetweenDates(stages[0].start, stages[|stages| - 1].end);
      && 0 <= s.seconds <= span.seconds
      && 0 <= s.minutes <= span.minutes
      && 0 <= s.hours <= span.hours
      && 0 <= s.days <= span.days
  {
    StagesWithinSpan(stages);
  }

  /**
   * Example of cumulative totals: 90 minutes and 500 milliseconds are
   * 5400 seconds, 90 minutes, 1 hour and 0 days.
   */
  lemma NinetyMinutes()
    ensures GetTimeBetweenDates(1000, 1000 + 90 * 60000 + 500) == Elapsed(5400, 90, 1, 0)
  {
    FloorDivUnique(90 * 60000 + 500, MillisPerSecond, 5400);
    FloorDivUnique(5400, SecondsPerMinute, 90);
    FloorDivUnique(90, MinutesPerHour, 1);
    FloorDivUnique(1, HoursPerDay, 0);
  }

  /**
   * Example of rounding toward negative infinity: an end 1 ms before the
   * start gives -1 in every field, not 0.
   */
  lemma OneMillisecondBackward()
    ensures GetTimeBetweenDates(1, 0) == Elapsed(-1, -1, -1, -1)
  {
    FloorDivUnique(-1, MillisPerSecond, -1);
    FloorDivUnique(-1, SecondsPerMinute, -1);
    FloorDivUnique(-1, MinutesPerHour, -1);
    FloorDivUnique(-1, HoursPerDay, -1);
  }
}
