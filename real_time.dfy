/** The arithmetic of real_time_sleep and the busy_wait loop of
    devices/timer.c. Integers are unbounded: the 64-bit products of the
    source are assumed not to overflow. */
module RealTime {
  import opened Arithmetic

  function Abs(x: int): nat {
    if x < 0 then -x else x
  }

  /** C's `/` on signed integers: the quotient truncated toward zero (Dafny's
      own `/` is Euclidean, which differs for negative operands). */
  function CDiv(a: int, b: int): (q: int)
    requires b != 0
    ensures Abs(q) * Abs(b) <= Abs(a) < (Abs(q) + 1) * Abs(b)
    ensures (a >= 0) == (b > 0) ==> q >= 0
    ensures (a >= 0) != (b > 0) ==> q <= 0
  {
    var m := Abs(a) / Abs(b);
    DivBounds(Abs(a), Abs(b));
    if (a < 0) == (b < 0) then m else -m
  }

  /** The truncated quotient is positive exactly when the operands have the
      same sign and the divisor is not larger in magnitude. */
  lemma CDivPositive(a: int, b: int)
    requires b != 0
    ensures CDiv(a, b) > 0 <==> Abs(b) <= Abs(a) && (a < 0) == (b < 0)
  {
    var q := CDiv(a, b);
    if Abs(b) <= Abs(a) && (a < 0) == (b < 0) {
      assert Abs(b) < (Abs(q) + 1) * Abs(b);
    } else if (a < 0) == (b < 0) {
      assert Abs(q) * Abs(b) < Abs(b);
    }
  }

  lemma DivBounds(a: nat, b: nat)
    requires b > 0
    ensures (a / b) * b <= a < (a / b + 1) * b
  {
    assert a == (a / b) * b + a % b;
  }

  /** What real_time_sleep does: block for whole ticks through timer_sleep,
      spin in busy_wait for a number of loops, or stop on the failed
      ASSERT (denom % 1000 == 0). */
  datatype Delay = Block(ticks: int) | Spin(loops: int) | AssertFailure

  /** The dispatch of real_time_sleep(num, denom) with TIMER_FREQ = freq and
      the calibrated loopsPerTick: `num * freq / denom` whole ticks when that
      is positive, otherwise `loopsPerTick * num / 1000 * freq / (denom / 1000)`
      busy-wait loops, all divisions truncating as in C. */
  function RealTimeSleep(num: int, denom: int, freq: int, loopsPerTick: int): (d: Delay)
    requires denom != 0
    ensures d.Block? <==> Abs(denom) <= Abs(num * freq) && (num * freq < 0) == (denom < 0)
    ensures d.Block? ==> d.ticks * Abs(denom) <= Abs(num * freq) < (d.ticks + 1) * Abs(denom)
    ensures d.Spin? ==> denom % 1000 == 0
    ensures d.AssertFailure? ==> denom % 1000 != 0
  {
    var whole := CDiv(num * freq, denom);
    CDivPositive(num * freq, denom);
    if whole > 0 then Block(whole)
    else if denom % 1000 != 0 then AssertFailure
    else
      // denom is a nonzero multiple of 1000, so denom / 1000 is not zero
      assert Abs(denom) >= 1000;
      Spin(CDiv(CDiv(loopsPerTick * num, 1000) * freq, CDiv(denom, 1000)))
  }

  /** A request of at least one whole tick blocks, for the requested time
      rounded down to whole ticks; a shorter one never blocks. */
  lemma WholeTicksBlock(num: int, denom: int, freq: int, loopsPerTick: int)
    requires denom > 0
    ensures var d := RealTimeSleep(num, denom, freq, loopsPerTick);
      && (d.Block? <==> num * freq >= denom)
      && (d.Block? ==> d.ticks * denom <= num * freq < (d.ticks + 1) * denom)
  {
    var a := num * freq;
    var whole := CDiv(a, denom);
    if a >= denom {
      // Abs(a) < (Abs(whole) + 1) * denom with Abs(a) >= denom forces whole >= 1
      assert denom < (Abs(whole) + 1) * denom;
      assert whole >= 0;
    } else if a >= 0 {
      assert Abs(whole) * denom < denom;
      assert Abs(whole) < 1;
    }
  }

  /** A sub-tick request spins fewer loops than one tick takes: with a
      positive calibration the busy-wait count is below loopsPerTick. */
  lemma SubTickSpinsUnderOneTick(num: int, denom: int, freq: int, loopsPerTick: int)
    requires denom > 0 && denom % 1000 == 0
    requires num >= 0 && freq > 0 && loopsPerTick >= 0
    requires num * freq < denom
    ensures var d := RealTimeSleep(num, denom, freq, loopsPerTick);
      && d.Spin?
      && 0 <= d.loops <= loopsPerTick
      && (loopsPerTick > 0 ==> d.loops < loopsPerTick)
  {
    WholeTicksBlock(num, denom, freq, loopsPerTick);
    var scaled := CDiv(loopsPerTick * num, 1000);
    var unit := CDiv(denom, 1000);
    ScaledBound(num, denom, freq, loopsPerTick, scaled);
    UnitExact(denom, unit);
    var top := scaled * freq;
    var loops := CDiv(top, unit);
    if loopsPerTick > 0 {
      QuotientBelow(top, unit, loopsPerTick, loops);
    }
  }

  /** The loop count scaled by 1000 stays below loopsPerTick * denom ticks'
      worth when num * freq < denom. */
  lemma ScaledBound(num: int, denom: int, freq: int, loopsPerTick: int, scaled: int)
    requires num >= 0 && freq > 0 && loopsPerTick >= 0 && num * freq < denom
    requires scaled == CDiv(loopsPerTick * num, 1000)
    ensures 0 <= scaled * freq
    ensures loopsPerTick > 0 ==> scaled * freq * 1000 < loopsPerTick * denom
    ensures loopsPerTick == 0 ==> scaled == 0
  {
    assert 0 <= loopsPerTick * num;
    assert 0 <= scaled && scaled * 1000 <= loopsPerTick * num;
    MulMonotone(0, scaled, freq);
    if loopsPerTick > 0 {
      MulMonotone(scaled * 1000, loopsPerTick * num, freq);
      assert scaled * freq * 1000 == (scaled * 1000) * freq;
      assert loopsPerTick * num * freq == loopsPerTick * (num * freq);
      assert loopsPerTick * (num * freq) < loopsPerTick * denom;
    }
  }

  /** A positive multiple of 1000 divides exactly. */
  lemma UnitExact(denom: int, unit: int)
    requires denom > 0 && denom % 1000 == 0 && unit == CDiv(denom, 1000)
    ensures 0 < unit && unit * 1000 == denom
  {
  }

  /** top < bound * unit, spread over a multiple of 1000, bounds the quotient. */
  lemma QuotientBelow(top: nat, unit: nat, bound: nat, q: nat)
    requires unit > 0 && top * 1000 < bound * (unit * 1000) && q * unit <= top
    ensures q < bound
  {
    assert top < bound * unit;
    if q >= bound {
      MulMonotone(bound, q, unit);
    }
  }

  /** A zero or negative request never blocks and spins no loops. */
  lemma NonPositiveRequestSpinsNothing(num: int, denom: int, freq: int, loopsPerTick: int)
    requires denom > 0 && denom % 1000 == 0
    requires num <= 0 && freq > 0 && loopsPerTick >= 0
    ensures var d := RealTimeSleep(num, denom, freq, loopsPerTick);
      d.Spin? && d.loops <= 0
  {
    WholeTicksBlock(num, denom, freq, loopsPerTick);
    assert num * freq <= 0;
    var scaled := CDiv(loopsPerTick * num, 1000);
    assert loopsPerTick * num <= 0;
    assert scaled <= 0;
    assert scaled * freq <= 0;
  }

  /** The millisecond, microsecond and nanosecond wrappers pass denominators
      10^3, 10^6 and 10^9, which never trip the ASSERT. */
  lemma WrapperDenominatorsNeverFail(num: int, freq: int, loopsPerTick: int)
    ensures !RealTimeSleep(num, 1000, freq, loopsPerTick).AssertFailure?
    ensures !RealTimeSleep(num, 1000 * 1000, freq, loopsPerTick).AssertFailure?
    ensures !RealTimeSleep(num, 1000 * 1000 * 1000, freq, loopsPerTick).AssertFailure?
  {
  }

  /** At 100 Hz, usleep(500) is half a tick and spins, while usleep(10000) is
      one tick and blocks for one tick. */
  lemma MicrosecondDispatchAt100Hz(loopsPerTick: int)
    ensures RealTimeSleep(500, 1000 * 1000, 100, loopsPerTick).Spin?
    ensures RealTimeSleep(10000, 1000 * 1000, 100, loopsPerTick) == Block(1)
  {
  }

  /** busy_wait: the loop tests the counter, then decrements it, and runs its
      body while the tested value was positive. Returns the number of
      iterations run. */
  method BusyWait(loops: int) returns (iterations: nat)
    ensures iterations == if loops > 0 then loops else 0
  {
    var n := loops;
    iterations := 0;
    while n > 0
      invariant loops > 0 ==> 0 <= n && iterations + n == loops
      invariant loops <= 0 ==> n == loops && iterations == 0
    {
      n := n - 1;
      iterations := iterations + 1;
    }
  }
}
