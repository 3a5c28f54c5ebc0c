/**
 * Time arithmetic: the nanosecond count behind Time and Duration, its split
 * into a message, the rounding modes, poll()'s timeout and Rate::sleep.
 */
module TimeMath {
  import opened Bytes
  import opened Messages

  const SECOND: nat := 1_000_000_000
  const MILLISECOND: nat := 1_000_000
  const MICROSECOND: nat := 1_000
  const INT_MAX: nat := 0x7fff_ffff

  // ----- C++ integer operations -----

  /** Division and remainder truncate toward zero. */
  function TruncDiv(a: int, b: int): int
    requires b > 0
  {
    if a >= 0 then a / b else -((-a) / b)
  }

  function TruncMod(a: int, b: int): int
    requires b > 0
  {
    a - b * TruncDiv(a, b)
  }

  lemma TruncDivBounds(a: int, b: int)
    requires b > 0
    ensures -b < TruncMod(a, b) < b
    ensures a >= 0 ==> TruncMod(a, b) >= 0
    ensures a <= 0 ==> TruncMod(a, b) <= 0
  {
    var m := if a >= 0 then a else -a;
    assert m == b * (m / b) + m % b;
    if a < 0 {
      assert b * TruncDiv(a, b) == -(b * (m / b));
    }
  }

  /** A narrowing conversion to int32_t. */
  function WrapI32(x: int): I32 {
    (x + I32_LIMIT) % U32_LIMIT - I32_LIMIT
  }

  // ----- Time::to_msg and Time(msg) -----

  function ToMsg(ns: int): (t: Stamp)
    ensures 0 - SECOND < t.nsec < SECOND && (ns >= 0 ==> t.nsec >= 0) && (ns <= 0 ==> t.nsec <= 0)
    ensures (t.sec * SECOND + t.nsec - ns) % (U32_LIMIT * SECOND) == 0
  {
    TruncDivBounds(ns, SECOND);
    Stamp(WrapI32(TruncDiv(ns, SECOND)), TruncMod(ns, SECOND))
  }

  function FromMsg(t: Stamp): int {
    t.sec * SECOND + t.nsec
  }

  /** Splitting and recombining is the identity exactly when the seconds fit in an int32_t, negative times included. */
  lemma SplitRecombine(ns: int)
    ensures FromMsg(ToMsg(ns)) == ns <==> -I32_LIMIT <= TruncDiv(ns, SECOND) < I32_LIMIT
  {
    TruncDivBounds(ns, SECOND);
  }

  // ----- rounding -----

  datatype RoundType = FLOOR | CEIL | NEAREST

  /** std::chrono::floor: duration_cast, stepped down when it overshoots. */
  function ChronoFloor(ns: int, unit: int): int
    requires unit > 0
  {
    var t := TruncDiv(ns, unit);
    if t * unit > ns then t - 1 else t
  }

  /** to_seconds, to_milliseconds and to_microseconds, by the length of the unit. */
  function ToUnits(ns: int, unit: int, mode: RoundType): int
    requires unit > 0
  {
    match mode
    case FLOOR => TruncDiv(ns, unit)
    case CEIL =>
      var t := TruncDiv(ns, unit);
      if t * unit < ns then t + 1 else t
    case NEAREST =>
      var t0 := ChronoFloor(ns, unit);
      var t1 := t0 + 1;
      var diff0, diff1 := ns - t0 * unit, t1 * unit - ns;
      if diff0 == diff1 then (if t0 % 2 == 1 then t1 else t0)
      else if diff0 < diff1 then t0 else t1
  }

  lemma ChronoFloorIsFloor(ns: int, unit: int)
    requires unit > 0
    ensures ChronoFloor(ns, unit) * unit <= ns < ChronoFloor(ns, unit) * unit + unit
  {
    TruncDivBounds(ns, unit);
    var t := TruncDiv(ns, unit);
    assert unit * t == t * unit;
    assert (t - 1) * unit == t * unit - unit;
  }

  /** FLOOR is a floor exactly for non-negative times and whole multiples of the unit: it truncates. */
  lemma FloorIsFloorIff(ns: int, unit: int)
    requires unit > 0
    ensures ToUnits(ns, unit, FLOOR) * unit <= ns < ToUnits(ns, unit, FLOOR) * unit + unit
      <==> ns >= 0 || TruncMod(ns, unit) == 0
  {
    TruncDivBounds(ns, unit);
    var t := TruncDiv(ns, unit);
    assert unit * t == t * unit;
  }

  /** CEIL is the least whole number of units that is not below the time, for negative times too. */
  lemma CeilIsCeiling(ns: int, unit: int)
    requires unit > 0
    ensures ToUnits(ns, unit, CEIL) * unit - unit < ns <= ToUnits(ns, unit, CEIL) * unit
  {
    TruncDivBounds(ns, unit);
    var t := TruncDiv(ns, unit);
    assert unit * t == t * unit;
    assert (t + 1) * unit == t * unit + unit;
  }

  /** NEAREST is at most half a unit away, and takes the even neighbour when it is exactly half. */
  lemma NearestIsNearest(ns: int, unit: int)
    requires unit > 0
    ensures var n := ToUnits(ns, unit, NEAREST);
            && -unit <= 2 * (n * unit - ns) <= unit
            && (2 * (n * unit - ns) == unit || 2 * (n * unit - ns) == -unit ==> n % 2 == 0)
  {
    ChronoFloorIsFloor(ns, unit);
    var t := ChronoFloor(ns, unit);
    assert (t + 1) * unit == t * unit + unit;
  }

  /** For a non-negative time the three modes bracket it. */
  lemma ModesBracket(ns: int, unit: int)
    requires unit > 0 && ns >= 0
    ensures ToUnits(ns, unit, FLOOR) * unit <= ns <= ToUnits(ns, unit, CEIL) * unit
    ensures ToUnits(ns, unit, NEAREST) in {ToUnits(ns, unit, FLOOR), ToUnits(ns, unit, CEIL)}
    ensures ToUnits(ns, unit, CEIL) - ToUnits(ns, unit, FLOOR) == if ns % unit == 0 then 0 else 1
  {
    var q := ns / unit;
    assert ns == q * unit + ns % unit;
    assert (q + 1) * unit == q * unit + unit;
  }

  // ----- the drive time stamp -----

  /** MBot::drive's utime. */
  function DriveUtime(t: Stamp): int {
    ToUnits(FromMsg(t), MICROSECOND, FLOOR)
  }

  /**
   * The stamp that the keyboard program takes reaches the motor board, truncated
   * to microseconds, exactly when its seconds fit in an int32_t.
   */
  lemma StampToUtime(ns: int)
    ensures DriveUtime(ToMsg(ns)) == TruncDiv(ns, MICROSECOND) <==> -I32_LIMIT <= TruncDiv(ns, SECOND) < I32_LIMIT
  {
    SplitRecombine(ns);
    TruncDivBounds(ns, SECOND);
    TruncDivBounds(ns, MICROSECOND);
    TruncDivBounds(FromMsg(ToMsg(ns)), MICROSECOND);
  }

  // ----- the poll timeout of File::wait_for_readable and wait_for_writable -----

  method PollTimeout(ns: int) returns (timeoutMs: int)
    ensures 0 <= timeoutMs <= INT_MAX
    ensures ns < 0 ==> timeoutMs == 0
    // never early and less than a millisecond late, unless it is clamped
    ensures ns >= 0 ==> (ns <= timeoutMs * MILLISECOND < ns + MILLISECOND <==> ns <= INT_MAX * MILLISECOND)
    ensures ns > INT_MAX * MILLISECOND ==> timeoutMs == INT_MAX
  {
    if ns < 0 {
      timeoutMs := 0;
    } else {
      var ms := ToUnits(ns, MILLISECOND, CEIL);
      CeilIsCeiling(ns, MILLISECOND);
      if ms > INT_MAX {
        timeoutMs := INT_MAX;
      } else {
        timeoutMs := ms;
      }
    }
  }

  // ----- Rate -----

  /** What the clock shows to one call of sleep: on entry, and how late sleep_until wakes up. */
  datatype Clock = Clock(entry: int, late: nat)

  class Rate {
    var period: int
    var start: int

    constructor (period: int, now: int)
      ensures this.period == (if period <= 1 then 1 else period) && start == now
    {
      this.period := if period <= 1 then 1 else period;
      start := now;
    }

    method Sleep(clock: Clock) returns (slept: bool)
      modifies this`start
      ensures slept <==> old(start) + period > clock.entry
      ensures start == if slept then old(start) + period + clock.late else clock.entry
      ensures start >= old(start) + period
    {
      if start + period > clock.entry {
        start := start + period + clock.late;
        return true;
      } else {
        start := clock.entry;
        return false;
      }
    }

    /** n rounds of a rate loop take at least n periods, whatever the loop body does to the clock. */
    method SleepTimes(clocks: seq<Clock>)
      modifies this`start
      ensures start >= old(start) + |clocks| * period
    {
      for i := 0 to |clocks|
        invariant start >= old(start) + i * period
      {
        var slept := Sleep(clocks[i]);
        assert (i + 1) * period == i * period + period;
      }
    }
  }
}
