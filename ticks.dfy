/**
 * MicroPython's tick arithmetic (`time.ticks_add`, `time.ticks_diff`).
 *
 * A tick count is a value of a free-running counter that wraps around after
 * TICKS_PERIOD ticks. Differences between two readings are taken modulo the
 * period and read back as a signed value in [-TICKS_PERIOD/2, TICKS_PERIOD/2),
 * so that an elapsed time of less than half a period is recovered exactly even
 * when the counter overflowed in between.
 */
module Ticks {

  /** The period of the tick counter: 2^30 on MicroPython's 32-bit ports. */
  const TICKS_PERIOD: int := 0x4000_0000

  /** Half the period: the largest magnitude a tick difference can report. */
  const TICKS_HALF: int := TICKS_PERIOD / 2

  /** The largest tick value, the mask of MicroPython's `& TICKS_MAX`. */
  const TICKS_MAX: int := TICKS_PERIOD - 1

  /** A reading of the tick counter. */
  type Tick = t: int | 0 <= t < TICKS_PERIOD

  /** A signed tick difference, as `ticks_diff` reports it. */
  predicate InDiffRange(d: int) {
    -TICKS_HALF <= d < TICKS_HALF
  }

  /** `ticks_add(t, delta)`: the tick reading `delta` ticks after `t`, wrapped. */
  function TicksAdd(t: Tick, delta: int): Tick {
    (t + delta) % TICKS_PERIOD
  }

  /** Shifting by whole periods does not change a value already below the period. */
  lemma {:induction false} ModOfShifted(x: int, k: int)
    requires 0 <= x < TICKS_PERIOD
    ensures (x + k * TICKS_PERIOD) % TICKS_PERIOD == x
  {
    var y := x + k * TICKS_PERIOD;
    var q, r := y / TICKS_PERIOD, y % TICKS_PERIOD;
    assert y == q * TICKS_PERIOD + r && 0 <= r < TICKS_PERIOD;
    assert r - x == (k - q) * TICKS_PERIOD;
  }

  /**
   * `ticks_diff(t1, t2)`: the signed number of ticks from `t2` to `t1`.
   * It is the one value in [-TICKS_PERIOD/2, TICKS_PERIOD/2) that, added to
   * `t2` with wrap-around, gives back `t1`.
   */
  function TicksDiff(t1: Tick, t2: Tick): (d: int)
    ensures InDiffRange(d)
    ensures TicksAdd(t2, d) == t1
  {
    var x := t1 - t2 + TICKS_HALF;
    var d := x % TICKS_PERIOD - TICKS_HALF;
    ModOfShifted(t1, -(x / TICKS_PERIOD));
    d
  }

  /**
   * Wrap-around safety: a reading taken `e` ticks after `t`, for any `e` of
   * magnitude below half a period, is reported as exactly `e` ticks later,
   * however the counter overflowed in between.
   */
  lemma {:induction false} TicksDiffOfAdd(t: Tick, e: int)
    requires InDiffRange(e)
    ensures TicksDiff(TicksAdd(t, e), t) == e
  {
    var t1 := TicksAdd(t, e);
    var q := (t + e) / TICKS_PERIOD;
    assert t1 == t + e - q * TICKS_PERIOD;
    ModOfShifted(e + TICKS_HALF, -q);
  }

  /** `ticks_diff` is determined by its two defining properties. */
  lemma {:induction false} TicksDiffUnique(t1: Tick, t2: Tick, d: int)
    requires InDiffRange(d) && TicksAdd(t2, d) == t1
    ensures TicksDiff(t1, t2) == d
  {
    TicksDiffOfAdd(t2, d);
  }

  /** Without an overflow in between, `ticks_diff` is plain subtraction. */
  lemma {:induction false} TicksDiffNoWrap(t1: Tick, t2: Tick)
    requires t2 <= t1 < t2 + TICKS_HALF
    ensures TicksDiff(t1, t2) == t1 - t2
  {
    TicksDiffOfAdd(t2, t1 - t2);
  }

  /** A reading compared with itself is zero ticks apart. */
  lemma TicksDiffSelf(t: Tick)
    ensures TicksDiff(t, t) == 0
  {
    TicksDiffOfAdd(t, 0);
  }
}
