/** The state of devices/timer.c and the operations that change it: the tick
    counter, the calibrated loops_per_tick and the sleep queue. Each method
    runs atomically, as the source ensures by masking interrupts. Thread ids
    stand for thread_current(), and the `unblocked` log records the calls of
    thread_unblock in order. */
module Timer {
  import opened SleepQueue
  import Calibration
  import RealTime
  import Pit

  class Timer {
    /** TIMER_FREQ, in ticks per second. */
    const freq: int
    /** The count timer_init loads into the 8254. */
    const divisor: Pit.Uint16
    /** Timer ticks since boot. */
    var ticks: int
    /** Busy-wait loops per tick, measured by Calibrate. */
    var loopsPerTick: bv32
    /** sleeping_list: the blocked sleepers, earliest wake tick first. */
    var sleeping: seq<Sleeper>
    /** Every entry passed to thread_unblock by the tick handler, in order. */
    var unblocked: seq<Sleeper>

    /** The queue is sorted and holds each thread once; every sleeper is
        still in the future; every woken sleeper was due, and sleepers were
        woken in ascending order of wake tick. */
    ghost predicate Valid()
      reads this
    {
      && Pit.ValidFreq(freq)
      && Sorted(sleeping)
      && DistinctThreads(sleeping)
      && (forall i :: 0 <= i < |sleeping| ==> sleeping[i].wakeTick > ticks)
      && Sorted(unblocked)
      && (forall i :: 0 <= i < |unblocked| ==> unblocked[i].wakeTick <= ticks)
    }

    /** timer_init: computes the 8254 divisor and starts with an empty sleep
        queue (ticks and loops_per_tick are zero-initialised statics). */
    constructor (freq: int)
      requires Pit.ValidFreq(freq)
      ensures Valid()
      ensures this.freq == freq && divisor == Pit.Divisor(freq)
      ensures ticks == 0 && loopsPerTick == 0 && sleeping == [] && unblocked == []
    {
      this.freq := freq;
      divisor := Pit.Divisor(freq);
      ticks := 0;
      loopsPerTick := 0;
      sleeping := [];
      unblocked := [];
    }

    /** timer_elapsed: the ticks since the earlier reading `since`. */
    function Elapsed(since: int): (d: int)
      reads this
      ensures since + d == ticks
    {
      ticks - since
    }

    /** timer_sleep(n) called by thread `current`, which is running and so
        not asleep. A non-positive n returns at once; otherwise the thread is
        queued with wake tick start + n, behind every sleeper that wakes no
        later, and blocks. */
    method Sleep(current: ThreadId, n: int)
      requires Valid() && !Asleep(sleeping, current)
      modifies this`sleeping
      ensures Valid()
      ensures n <= 0 ==> sleeping == old(sleeping)
      ensures n > 0 ==> sleeping == InsertOrdered(old(sleeping), Sleeper(current, ticks + n))
      ensures n > 0 <==> Asleep(sleeping, current)
    {
      var start := ticks;
      if n <= 0 {
        return;
      }
      var me := Sleeper(current, start + n);
      InsertOrderedKeepsQueue(sleeping, me, ticks);
      sleeping := InsertOrdered(sleeping, me);
      // thread_block(): the thread stays blocked until Tick unblocks it
    }

    /** timer_interrupt: advances ticks by one, then unblocks the longest
        due prefix of the queue, in queue order, and stops at the first
        sleeper that is not due. */
    method Tick()
      requires Valid()
      modifies this`ticks, this`sleeping, this`unblocked
      ensures Valid()
      ensures ticks == old(ticks) + 1
      ensures var k := DueCount(old(sleeping), ticks);
        sleeping == old(sleeping)[k..] && unblocked == old(unblocked) + old(sleeping)[..k]
      ensures forall i :: |old(unblocked)| <= i < |unblocked| ==> unblocked[i].wakeTick == ticks
      ensures sleeping == [] || sleeping[0].wakeTick > ticks
    {
      ticks := ticks + 1;
      // thread_tick(): scheduler accounting, outside this model
      ghost var k := 0;
      while sleeping != []
        modifies this`sleeping, this`unblocked
        invariant k <= |old(sleeping)| && sleeping == old(sleeping)[k..]
        invariant unblocked == old(unblocked) + old(sleeping)[..k]
        invariant forall j :: 0 <= j < k ==> old(sleeping)[j].wakeTick <= ticks
        decreases |sleeping|
      {
        var t := sleeping[0];
        if t.wakeTick <= ticks {
          sleeping := sleeping[1..];
          unblocked := unblocked + [t];
          k := k + 1;
        } else {
          break;
        }
      }
      DueCountIsFirstNotDue(old(sleeping), ticks, k);
      DrainRest(old(sleeping), ticks);
      DrainedDueNow(old(sleeping), ticks);
      forall j | |old(unblocked)| <= j < |unblocked|
        ensures unblocked[j].wakeTick == ticks
      {
        assert unblocked[j] == old(sleeping)[j - |old(unblocked)|];
      }
    }

    /** timer_calibrate, with too_many_loops as the oracle tooMany. The
        doubling phase keeps loops_per_tick a power of two from 2^10 up and
        stops only when the oracle reports the doubled count as too many; if
        the bit is shifted out instead, the ASSERT stops the kernel and ok is
        false. Otherwise the refinement leaves loops_per_tick with the coarse
        bit 2^k and exactly the accepted bits among the nine below it. */
    method Calibrate(tooMany: bv32 -> bool) returns (ok: bool)
      modifies this`loopsPerTick
      ensures ok <==> Calibration.Coarse(tooMany, 10).Some?
      ensures ok ==> var high := Calibration.Pow2(Calibration.Coarse(tooMany, 10).value);
        && Calibration.Refined(tooMany, high, high >> 10, loopsPerTick)
        && high <= loopsPerTick && Calibration.Half(loopsPerTick) < high
      ensures !ok ==> loopsPerTick == 0
    {
      loopsPerTick := 1 << 10;
      ghost var k: bv8 := 10;
      while !tooMany(loopsPerTick << 1)
        invariant 10 <= k <= 31 && loopsPerTick == Calibration.Pow2(k)
        invariant Calibration.Coarse(tooMany, k) == Calibration.Coarse(tooMany, 10)
        decreases 31 - k
      {
        if k == 31 {
          Calibration.Pow2TopOverflows();
        } else {
          Calibration.Pow2Double(k);
          Calibration.Pow2NonZero(k + 1);
        }
        loopsPerTick := loopsPerTick << 1;
        if loopsPerTick == 0 {
          // the only bit was shifted out: ASSERT (loops_per_tick != 0) fails
          return false;
        }
        k := k + 1;
      }
      assert Calibration.Coarse(tooMany, k) == Calibration.Some(k);
      Refine(tooMany, k);
      ok := true;
    }

    /** The refinement loop of timer_calibrate, from loops_per_tick = 2^k:
        each bit from 2^(k-1) down to, but not including, 2^k >> 10 is or-ed
        in when the oracle accepts it added to 2^k alone. */
    method Refine(tooMany: bv32 -> bool, ghost k: bv8)
      requires 10 <= k <= 31 && loopsPerTick == Calibration.Pow2(k)
      modifies this`loopsPerTick
      ensures Calibration.Refined(tooMany, Calibration.Pow2(k), Calibration.Pow2(k) >> 10, loopsPerTick)
      ensures Calibration.Pow2(k) <= loopsPerTick && Calibration.Half(loopsPerTick) < Calibration.Pow2(k)
    {
      var highBit := loopsPerTick;
      Calibration.RefineBounds(k);
      Calibration.RefineStart(tooMany, highBit);
      var testBit := highBit >> 1;
      while testBit != highBit >> 10
        invariant Calibration.IsPow2(testBit) && highBit >> 10 <= testBit < highBit
        invariant Calibration.Refined(tooMany, highBit, testBit, loopsPerTick)
        decreases testBit
      {
        Calibration.HalvePow2(testBit, highBit >> 10);
        if !tooMany(highBit | testBit) {
          Calibration.RefineAccept(tooMany, highBit, testBit, loopsPerTick);
          loopsPerTick := loopsPerTick | testBit;
        } else {
          Calibration.RefineReject(tooMany, highBit, testBit, loopsPerTick);
        }
        testBit := testBit >> 1;
      }
      Calibration.RefinedRange(tooMany, highBit, highBit >> 10, loopsPerTick);
    }

    /** real_time_sleep(num, denom) called by thread `current`: blocks for
        the whole ticks through Sleep when there is at least one, and
        otherwise busy-waits the scaled loop count (or stops on the failed
        ASSERT). */
    method RealTimeSleep(current: ThreadId, num: int, denom: int) returns (d: RealTime.Delay, spun: nat)
      requires Valid() && !Asleep(sleeping, current) && denom != 0
      modifies this`sleeping
      ensures Valid()
      ensures d == RealTime.RealTimeSleep(num, denom, freq, loopsPerTick as int)
      ensures d.Block? ==> d.ticks > 0 && sleeping == InsertOrdered(old(sleeping), Sleeper(current, ticks + d.ticks))
      ensures !d.Block? ==> sleeping == old(sleeping)
      ensures spun == if d.Spin? && d.loops > 0 then d.loops else 0
    {
      d := RealTime.RealTimeSleep(num, denom, freq, loopsPerTick as int);
      spun := 0;
      match d {
        case Block(n) =>
          Sleep(current, n);
        case Spin(loops) =>
          spun := RealTime.BusyWait(loops);
        case AssertFailure =>
      }
    }

    /** timer_msleep: real_time_sleep with denominator 1000. */
    method MSleep(current: ThreadId, ms: int) returns (d: RealTime.Delay, spun: nat)
      requires Valid() && !Asleep(sleeping, current)
      modifies this`sleeping
      ensures Valid()
      ensures d == RealTime.RealTimeSleep(ms, 1000, freq, loopsPerTick as int) && !d.AssertFailure?
      ensures d.Block? ==> sleeping == InsertOrdered(old(sleeping), Sleeper(current, ticks + d.ticks))
      ensures !d.Block? ==> sleeping == old(sleeping)
      ensures spun == if d.Spin? && d.loops > 0 then d.loops else 0
    {
      RealTime.WrapperDenominatorsNeverFail(ms, freq, loopsPerTick as int);
      d, spun := RealTimeSleep(current, ms, 1000);
    }

    /** timer_usleep: real_time_sleep with denominator 1000 * 1000. */
    method USleep(current: ThreadId, us: int) returns (d: RealTime.Delay, spun: nat)
      requires Valid() && !Asleep(sleeping, current)
      modifies this`sleeping
      ensures Valid()
      ensures d == RealTime.RealTimeSleep(us, 1000 * 1000, freq, loopsPerTick as int) && !d.AssertFailure?
      ensures d.Block? ==> sleeping == InsertOrdered(old(sleeping), Sleeper(current, ticks + d.ticks))
      ensures !d.Block? ==> sleeping == old(sleeping)
      ensures spun == if d.Spin? && d.loops > 0 then d.loops else 0
    {
      RealTime.WrapperDenominatorsNeverFail(us, freq, loopsPerTick as int);
      d, spun := RealTimeSleep(current, us, 1000 * 1000);
    }

    /** timer_nsleep: real_time_sleep with denominator 1000 * 1000 * 1000. */
    method NSleep(current: ThreadId, ns: int) returns (d: RealTime.Delay, spun: nat)
      requires Valid() && !Asleep(sleeping, current)
      modifies this`sleeping
      ensures Valid()
      ensures d == RealTime.RealTimeSleep(ns, 1000 * 1000 * 1000, freq, loopsPerTick as int) && !d.AssertFailure?
      ensures d.Block? ==> sleeping == InsertOrdered(old(sleeping), Sleeper(current, ticks + d.ticks))
      ensures !d.Block? ==> sleeping == old(sleeping)
      ensures spun == if d.Spin? && d.loops > 0 then d.loops else 0
    {
      RealTime.WrapperDenominatorsNeverFail(ns, freq, loopsPerTick as int);
      d, spun := RealTimeSleep(current, ns, 1000 * 1000 * 1000);
    }
  }
}
