/**
 * The time-to-travel arithmetic of the virtual cover: the range clamp, the
 * travel rates fixed at construction, the length of one simulated slice and
 * the effect of one tick on a scalar (position or tilt).
 * Percentages and rates are `real`: the floating-point rounding of the
 * source is not modelled.
 */
module Kinematics {

  /** Two readings closer than this are treated as equal (cover.py `EPS`). */
  const EPS: real := 0.000001

  /** The longest simulated slice, in milliseconds (`_TICK_MS`). */
  const TICK_MS: int := 100

  predicate InRange(x: real) {
    0.0 <= x <= 100.0
  }

  function Abs(x: real): real {
    if x < 0.0 then -x else x
  }

  function MinInt(a: int, b: int): int {
    if a <= b then a else b
  }

  function MaxInt(a: int, b: int): int {
    if a >= b then a else b
  }

  /** `max(0.0, min(100.0, x))`: pulls a percentage back into [0, 100]. */
  function ClampPercent(x: real): (r: real)
    ensures InRange(r)
    ensures InRange(x) ==> r == x
    ensures x < 0.0 ==> r == 0.0
    ensures x > 100.0 ==> r == 100.0
  {
    if 100.0 < x then 100.0 else if x < 0.0 then 0.0 else x
  }

  /**
   * Percent of travel per millisecond of motor run for the position:
   * 100 / (open_time_sec * 1000). A full 0..100 travel takes exactly the
   * configured time, and the configured range keeps the rate positive.
   */
  function PositionRate(openTimeSec: int): (r: real)
    requires 1 <= openTimeSec <= 3600
    ensures r * (openTimeSec * 1000) as real == 100.0
    ensures 1.0 / 36000.0 <= r <= 0.1
  {
    100.0 / (openTimeSec as real * 1000.0)
  }

  /** Percent of tilt per millisecond: 100 / tilt_time_ms. */
  function TiltRate(tiltTimeMs: int): (r: real)
    requires 100 <= tiltTimeMs <= 60000
    ensures r * tiltTimeMs as real == 100.0
    ensures 1.0 / 600.0 <= r <= 1.0
  {
    100.0 / tiltTimeMs as real
  }

  lemma MulStrict(a: real, b: real, c: real)
    requires 0.0 < c && a < b
    ensures a * c < b * c
  {
    assert (b - a) * c > 0.0;
  }

  /** `k * rate <= x` exactly when `k <= x / rate`. */
  lemma RatioBound(x: real, rate: real, k: real)
    requires 0.0 < rate
    ensures k * rate <= x <==> k <= x / rate
  {
    var q := x / rate;
    assert q * rate == x;
    if k < q {
      MulStrict(k, q, rate);
    } else if q < k {
      MulStrict(q, k, rate);
    }
  }

  /** Facts about `int(x / rate)` for a non-negative `x`. */
  lemma FloorOfRatio(x: real, rate: real)
    requires 0.0 <= x && 0.0 < rate
    ensures 0 <= (x / rate).Floor
    ensures (x / rate).Floor as real * rate <= x
    ensures x < rate <==> (x / rate).Floor == 0
    ensures TICK_MS as real * rate <= x ==> TICK_MS <= (x / rate).Floor
  {
    var m := (x / rate).Floor;
    RatioBound(x, rate, 0.0);
    RatioBound(x, rate, 1.0);
    RatioBound(x, rate, m as real);
    RatioBound(x, rate, TICK_MS as real);
  }

  /**
   * The length in milliseconds of the next slice when `need` percent are
   * still to travel: the whole milliseconds that fit before the target,
   * capped at one tick; a full tick when less than one millisecond of
   * travel is left (cover.py lines 365-366 and 405-406).
   */
  function SliceMillis(need: real, rate: real): (slice: int)
    requires 0.0 < rate
    ensures 1 <= slice <= TICK_MS
  {
    var millisToBoundary := (Abs(need) / rate).Floor;
    MaxInt(1, MinInt(TICK_MS, if millisToBoundary > 0 then millisToBoundary else TICK_MS))
  }

  /**
   * A slice never runs past the target while a millisecond of travel is
   * left, and below a full tick it is the largest whole number of
   * milliseconds that fits, so it lands less than one millisecond's travel
   * short of the target; with less than a millisecond left, or a full tick
   * or more, it is a full tick.
   */
  lemma SliceFits(need: real, rate: real)
    requires 0.0 < rate
    ensures rate <= Abs(need) ==> SliceMillis(need, rate) as real * rate <= Abs(need)
    ensures Abs(need) < rate ==> SliceMillis(need, rate) == TICK_MS
    ensures TICK_MS as real * rate <= Abs(need) ==> SliceMillis(need, rate) == TICK_MS
    ensures rate <= Abs(need) < TICK_MS as real * rate ==> Abs(need) < (SliceMillis(need, rate) + 1) as real * rate
  {
    var x := Abs(need);
    var millisToBoundary := (x / rate).Floor;
    FloorOfRatio(x, rate);
    var slice := SliceMillis(need, rate);
    if rate <= x {
      assert 1 <= millisToBoundary && slice <= millisToBoundary;
      if slice < millisToBoundary {
        MulStrict(slice as real, millisToBoundary as real, rate);
      }
      if x < TICK_MS as real * rate {
        RatioBound(x, rate, (millisToBoundary + 1) as real);
        assert millisToBoundary < TICK_MS by { RatioBound(x, rate, TICK_MS as real); }
        assert slice == millisToBoundary;
      }
    }
  }

  /** `1 if need > 0 else -1`. */
  function StepSign(need: real): real {
    if need > 0.0 then 1.0 else -1.0
  }

  /**
   * The value after the motor ran `slice` milliseconds toward `target`:
   * moved by rate * slice in the sign of the remaining travel, then clamped.
   */
  function MoveFor(value: real, target: real, rate: real, slice: int): (r: real)
    ensures InRange(r)
  {
    var travel := rate * slice as real;
    ClampPercent(if target - value > 0.0 then value + travel else value - travel)
  }

  /** The value after one tick toward `target`. */
  function TickValue(value: real, target: real, rate: real): (r: real)
    requires 0.0 < rate
    ensures InRange(r)
  {
    MoveFor(value, target, rate, SliceMillis(target - value, rate))
  }

  /** The value after `n` ticks toward `target`. */
  function Iterate(value: real, target: real, rate: real, n: nat): real
    requires 0.0 < rate
  {
    if n == 0 then value else TickValue(Iterate(value, target, rate, n - 1), target, rate)
  }

  /**
   * A move by a whole number of milliseconds that fits before the target
   * lands between the value and the target, at least one millisecond's
   * travel closer.
   */
  lemma ApproachStep(value: real, target: real, rate: real, slice: int)
    requires 0.0 < rate && InRange(value) && InRange(target)
    requires 1 <= slice && slice as real * rate <= Abs(target - value)
    ensures value < target ==> value < MoveFor(value, target, rate, slice) <= target
    ensures target < value ==> target <= MoveFor(value, target, rate, slice) < value
    ensures Abs(target - MoveFor(value, target, rate, slice)) <= Abs(target - value) - rate
  {
    var s := slice as real;
    var step := rate * s;
    assert step == s * rate <= Abs(target - value);
    if slice == 1 {
      assert step == rate;
    } else {
      MulStrict(1.0, s, rate);
    }
    var moved := if target - value > 0.0 then value + step else value - step;
    assert InRange(moved);
    assert MoveFor(value, target, rate, slice) == moved;
  }

  /**
   * While at least one millisecond of travel is left, a tick moves the value
   * toward the target by at least one millisecond's worth and never past it.
   */
  lemma TickApproaches(value: real, target: real, rate: real)
    requires 0.0 < rate && InRange(value) && InRange(target)
    requires rate <= Abs(target - value)
    ensures value < target ==> value < TickValue(value, target, rate) <= target
    ensures target < value ==> target <= TickValue(value, target, rate) < value
    ensures Abs(target - TickValue(value, target, rate)) <= Abs(target - value) - rate
  {
    SliceFits(target - value, rate);
    ApproachStep(value, target, rate, SliceMillis(target - value, rate));
  }

  /**
   * When less than one millisecond of travel is left, a tick runs the motor
   * for a full 100 ms and carries the value past the target (or onto the end
   * stop): the source does not land on such a target.
   */
  lemma TickOvershoots(value: real, target: real, rate: real)
    requires 0.0 < rate && InRange(target)
    requires 0.0 < Abs(target - value) < rate
    ensures SliceMillis(target - value, rate) == TICK_MS
    ensures value < target ==> target < TickValue(value, target, rate) || TickValue(value, target, rate) == 100.0
    ensures target < value ==> TickValue(value, target, rate) < target || TickValue(value, target, rate) == 0.0
  {
    SliceFits(target - value, rate);
  }

  /** Ticking `m` times and then `n` times is ticking `m + n` times. */
  lemma {:induction false} IterateSplit(value: real, target: real, rate: real, m: nat, n: nat)
    requires 0.0 < rate
    ensures Iterate(value, target, rate, m + n) == Iterate(Iterate(value, target, rate, m), target, rate, n)
  {
    if n > 0 {
      IterateSplit(value, target, rate, m, n - 1);
    }
  }

  /** The whole milliseconds of travel left drop by at least one per approaching tick. */
  lemma MillisLeftDrop(before: real, after: real, rate: real)
    requires 0.0 < rate && 0.0 <= after && after <= before - rate
    ensures (after / rate).Floor < (before / rate).Floor
  {
    var k := after / rate + 1.0;
    assert k * rate == after + rate;
    RatioBound(before, rate, k);
  }

  /**
   * Toward an end stop (0 or 100) the tick loop always lands exactly on the
   * target: it approaches while a millisecond of travel is left, and the one
   * overshooting tick after that is clamped onto the end stop.
   */
  lemma {:induction false} EndStopReached(value: real, target: real, rate: real)
    requires 0.0 < rate && InRange(value)
    requires target == 0.0 || target == 100.0
    ensures exists n: nat :: Iterate(value, target, rate, n) == target
    decreases (Abs(target - value) / rate).Floor
  {
    if value == target {
      assert Iterate(value, target, rate, 0) == target;
    } else if Abs(target - value) < rate {
      TickOvershoots(value, target, rate);
      assert Iterate(value, target, rate, 1) == target;
    } else {
      var next := TickValue(value, target, rate);
      TickApproaches(value, target, rate);
      FloorOfRatio(Abs(target - next), rate);
      MillisLeftDrop(Abs(target - value), Abs(target - next), rate);
      EndStopReached(next, target, rate);
      var n: nat :| Iterate(next, target, rate, n) == target;
      IterateSplit(value, target, rate, 1, n);
      assert Iterate(value, target, rate, 1 + n) == target;
    }
  }

  /** The four values of the cycle that starts half a millisecond short of `target`. */
  function CyclePoint(target: real, rate: real, j: nat): real {
    if j % 4 == 0 then target - rate / 2.0
    else if j % 4 == 1 then target + 99.5 * rate
    else if j % 4 == 2 then target + rate / 2.0
    else target - 99.5 * rate
  }

  /** The target sits far enough from both end stops for the cycle not to be clamped. */
  predicate CycleRoom(target: real, rate: real) {
    2.0 * EPS <= rate && 99.5 * rate <= target <= 100.0 - 99.5 * rate
  }

  /**
   * Half a millisecond short of an interior target, one tick overshoots by
   * 99.5 ms of travel, the next comes back 99 ms, the next overshoots again
   * and the fourth returns to the start: the tick loop cycles.
   */
  lemma TickCycle(target: real, rate: real, j: nat)
    requires CycleRoom(target, rate)
    ensures TickValue(CyclePoint(target, rate, j), target, rate) == CyclePoint(target, rate, j + 1)
  {
    var v := CyclePoint(target, rate, j);
    var need := target - v;
    assert (99.5 * rate) / rate == 99.5;
    var slice: int;
    if j % 4 == 0 || j % 4 == 2 {
      SliceFits(need, rate);
      slice := TICK_MS;
    } else {
      assert Abs(need) / rate == 99.5;
      slice := 99;
    }
    assert SliceMillis(need, rate) == slice;
    var moved := if need > 0.0 then v + rate * slice as real else v - rate * slice as real;
    assert InRange(moved);
    assert TickValue(v, target, rate) == moved;
    if j % 4 == 0 {
      assert (j + 1) % 4 == 1 && moved == target + 99.5 * rate;
    } else if j % 4 == 1 {
      assert (j + 1) % 4 == 2 && moved == target + rate / 2.0;
    } else if j % 4 == 2 {
      assert (j + 1) % 4 == 3 && moved == target - 99.5 * rate;
    } else {
      assert (j + 1) % 4 == 0 && moved == target - rate / 2.0;
    }
  }

  /**
   * From half a millisecond short of an interior target the
   * tick loop never comes within EPS of it, however many ticks it runs.
   */
  lemma {:induction false} NeverSettles(target: real, rate: real, n: nat)
    requires CycleRoom(target, rate)
    ensures Iterate(target - rate / 2.0, target, rate, n) == CyclePoint(target, rate, n)
    ensures EPS <= Abs(target - Iterate(target - rate / 2.0, target, rate, n))
  {
    var start := target - rate / 2.0;
    if n > 0 {
      NeverSettles(target, rate, n - 1);
      TickCycle(target, rate, n - 1);
      assert Iterate(start, target, rate, n) == TickValue(CyclePoint(target, rate, n - 1), target, rate);
    }
    CycleStaysAway(target, rate, n);
  }

  /** Every point of the cycle is at least half a millisecond's travel from the target. */
  lemma CycleStaysAway(target: real, rate: real, j: nat)
    requires CycleRoom(target, rate)
    ensures EPS <= rate / 2.0 <= Abs(target - CyclePoint(target, rate, j))
  {
  }

  /**
   * With tilt_time_ms = 750, a tilt run from 0 toward 51 reaches 51 - 1/15
   * after four ticks (382 ms are exactly 0.5 ms short) and then cycles:
   * it never settles.
   */
  lemma TiltToFiftyOneNeverSettles(n: nat)
    ensures EPS <= Abs(51.0 - Iterate(0.0, 51.0, TiltRate(750), n))
  {
    var rate := TiltRate(750);
    assert rate == 2.0 / 15.0;
    FiftyOneFirstTicks(rate);
    if n == 0 {
    } else if n == 1 {
    } else if n == 2 {
    } else if n == 3 {
    } else {
      IterateSplit(0.0, 51.0, rate, 4, n - 4);
      NeverSettles(51.0, rate, n - 4);
      assert Iterate(0.0, 51.0, rate, n) == Iterate(51.0 - rate / 2.0, 51.0, rate, n - 4);
    }
  }

  /** The first four ticks of a tilt run from 0 toward 51 at 2/15 % per ms. */
  lemma FiftyOneFirstTicks(rate: real)
    requires rate == 2.0 / 15.0
    ensures Iterate(0.0, 51.0, rate, 1) == 40.0 / 3.0
    ensures Iterate(0.0, 51.0, rate, 2) == 80.0 / 3.0
    ensures Iterate(0.0, 51.0, rate, 3) == 40.0
    ensures Iterate(0.0, 51.0, rate, 4) == 51.0 - rate / 2.0
  {
    SliceFits(51.0, rate);
    assert TickValue(0.0, 51.0, rate) == 40.0 / 3.0;
    SliceFits(51.0 - 40.0 / 3.0, rate);
    assert TickValue(40.0 / 3.0, 51.0, rate) == 80.0 / 3.0;
    SliceFits(51.0 - 80.0 / 3.0, rate);
    assert TickValue(80.0 / 3.0, 51.0, rate) == 40.0;
    assert SliceMillis(11.0, rate) == 82 by {
      assert 11.0 / rate == 82.5;
    }
    assert TickValue(40.0, 51.0, rate) == 51.0 - rate / 2.0;
  }
}
