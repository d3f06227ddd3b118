# Pintos kernel timer, modelled in Dafny

This project models the bookkeeping core of the Pintos timer driver,
`devices/timer.c`. It covers:

- the sleep queue that `timer_sleep` fills and the tick handler drains;
- the whole-tick versus busy-wait dispatch of `real_time_sleep`, with its
  millisecond, microsecond and nanosecond wrappers;
- the two-phase search of `timer_calibrate` for `loops_per_tick`;
- the `busy_wait` loop;
- the 8254 divisor arithmetic of `timer_init`.

Modules:

- `SleepQueue` (sleep_queue.dfy): the sleep queue as a sequence of
  `Sleeper(thread, wakeTick)` values.
  - `list_insert_ordered` with the strict comparator `wake_up_cmp` is
    `InsertOrdered`. It inserts the new entry before the first entry that
    wakes strictly later.
  - The part of the queue the tick handler unblocks is `DueCount`.
  - Lemmas prove that insertion keeps the queue sorted and duplicate-free,
    that ties stay FIFO, and that draining removes exactly the due entries.
- `Calibration` (calibration.dfy): the calibration search over 32-bit
  `unsigned` values, as `bv32`.
  - `too_many_loops` is an arbitrary oracle `tooMany: bv32 -> bool`.
  - `Coarse` gives the outcome of the doubling phase.
  - `Refined` says, one single bit at a time, what the refinement phase
    leaves in `loops_per_tick`.
- `RealTime` (real_time.dfy): the arithmetic of `real_time_sleep`, with C's
  truncating division written out as `CDiv`, and the `busy_wait` loop.
- `Arithmetic` (arithmetic.dfy): monotonicity of multiplication, used by
  the two modules below.
- `Pit` (pit.dfy): the divisor loaded into counter 0 of the 8254 and its
  two-byte split.
- `Timer` (timer.dfy): class `Timer`, holding the driver's state.
  - Fields: `ticks`, `loopsPerTick`, the sleep queue `sleeping`,
    `TIMER_FREQ` as `freq`, and the divisor.
  - A log `unblocked` stands for the calls of `thread_unblock`.
  - Methods: `Sleep`, `Tick`, `Calibrate`, `Refine`, `RealTimeSleep`,
    `MSleep`, `USleep`, `NSleep`.
  - `Valid()` is the invariant every method preserves:
    - the queue is sorted, holds each thread once, and every sleeper wakes
      in the future;
    - every unblocked sleeper was due, and sleepers were unblocked in
      ascending order of wake tick.

Where the code and its comments disagree, the model follows the code.

- The refinement loop of `timer_calibrate` tests the nine bits
  `high_bit >> 1` down to `high_bit >> 9`; the comment at line 117 says
  eight. Each test is `high_bit | test_bit`: each bit against the coarse bit
  alone, not together with the bits accepted so far.
- The code does not promise that `too_many_loops(loops_per_tick)` is false
  afterwards, even for a monotone oracle `tooMany(n) <==> n >= T`.
  - Take `T = high + high / 2 + 1`.
  - Every test `high | b` with `b <= high / 2` is then accepted, so all nine
    bits are set.
  - The result is `2 * high - high / 512`, which is at least `T`.

  The model states only what the loops guarantee.

## Model

| member | source | states |
|---|---|---|
| SleepQueue.WakeUpLess | devices/timer.c:144-149 | `wake_up_cmp` is strict: two sleepers with equal wake ticks never compare less |
| SleepQueue.WakeUpLessStrictOrder | devices/timer.c:144-149 | `wake_up_cmp` is a strict weak order (irreflexive, asymmetric, transitive); two sleepers are incomparable exactly when their wake ticks are equal |
| SleepQueue.InsertIndex | devices/timer.c:144-149 | the position `list_insert_ordered` picks: no entry before it wakes strictly later than the new one, and the entry at it, if any, does |
| SleepQueue.InsertIndexIsFirstLater | devices/timer.c:161 | the first-strictly-later position is unique: any index with that property is InsertIndex |
| SleepQueue.InsertOrdered | devices/timer.c:161 | `list_insert_ordered(&sleeping_list, &t->elem, wake_up_cmp, NULL)`: the list grows by exactly one entry |
| SleepQueue.InsertOrderedMultiset | devices/timer.c:161 | insertion adds exactly the new entry and loses none |
| SleepQueue.InsertOrderedPlacement | devices/timer.c:144-161 | on a sorted list, the new entry lands at InsertIndex, after every entry waking no later (ties FIFO) and before every later one; the other entries keep their order; the result is sorted |
| SleepQueue.InsertOrderedSorted | devices/timer.c:161 | inserting into a sorted list keeps it sorted by wake tick |
| SleepQueue.InsertOrderedDistinct | devices/timer.c:158-161 | inserting a thread that is not queued keeps thread ids distinct; afterwards exactly the old threads plus the new one are queued |
| SleepQueue.InsertOrderedAfter | devices/timer.c:159-161 | if all entries and the new one wake after `now`, so do all entries after insertion |
| SleepQueue.InsertOrderedKeepsQueue | devices/timer.c:152-164 | insertion keeps the queue sorted, duplicate-free and in the future, and queues the caller |
| SleepQueue.EqualWakeTicksStayFifo | devices/timer.c:144-149 | two sleepers with equal wake ticks, inserted one after the other, end up in insertion order |
| SleepQueue.DueCount | devices/timer.c:199-213 | the length of the longest prefix whose wake ticks are all at most `now`; the entry after it is not due |
| SleepQueue.DueCountIsFirstNotDue | devices/timer.c:200-212 | a scan that stops at the first entry not yet due stops exactly at DueCount |
| SleepQueue.DueCountExact | devices/timer.c:204-211 | on a sorted list an entry is drained if and only if its wake tick is at most `now` (so `wake_tick == ticks` is released and `ticks + 1` is not); the rest stays sorted |
| SleepQueue.DrainRest | devices/timer.c:199-213 | what the drain leaves is sorted, duplicate-free, and has nothing due |
| SleepQueue.DrainedDueNow | devices/timer.c:196-207 | if nothing was due before the increment, every drained sleeper has wake tick exactly `ticks` |
| Timer.Timer.constructor | devices/timer.c:88-99 | `timer_init`: divisor from Pit.Divisor, empty sleep queue, ticks and loops_per_tick zero, invariant established |
| Timer.Timer.Elapsed | devices/timer.c:138-141 | `timer_elapsed(then)`: `then` plus the result is the current tick count |
| Timer.Timer.Sleep | devices/timer.c:151-164 | `timer_sleep(n)`: if `n <= 0`, the queue is unchanged; otherwise the caller is inserted with wake tick `start + n`; the invariant is kept; the caller is queued if and only if `n > 0` |
| Timer.Timer.Tick | devices/timer.c:193-214 | `timer_interrupt`: ticks goes up by exactly one; the maximal due prefix is removed and appended to the unblocked log in queue order; the suffix is unchanged; the new head is not due; each unblocked sleeper's wake tick equals the new tick count; the invariant is kept |
| Timer.Timer.Calibrate | devices/timer.c:102-124 | `timer_calibrate`: fails (the ASSERT) exactly when doubling from 2^10 never meets a "too many" answer. Otherwise loops_per_tick is the refined value for the coarse bit 2^k, and lies in [2^k, 2^(k+1)). Failure leaves 0 |
| Timer.Timer.Refine | devices/timer.c:117-121 | the refinement loop from 2^k: the result has bit 2^k, has each bit 2^(k-1)..2^(k-9) exactly when the oracle accepts it added to 2^k, and has no other bit; so 2^k <= result < 2^(k+1) |
| Timer.Timer.RealTimeSleep | devices/timer.c:248-271 | `real_time_sleep`: takes the path the dispatch function gives; blocks through Sleep for that many ticks, busy-waits that many loops, or stops on the ASSERT; the invariant is kept |
| Timer.Timer.MSleep | devices/timer.c:169-172 | `timer_msleep`: real_time_sleep with denominator 1000, never the ASSERT path; blocks through Sleep for the whole ticks, or busy-waits exactly the dispatched loop count when positive and no loops otherwise; the invariant is kept |
| Timer.Timer.USleep | devices/timer.c:175-178 | `timer_usleep`: real_time_sleep with denominator 10^6, never the ASSERT path; blocks through Sleep for the whole ticks, or busy-waits exactly the dispatched loop count when positive and no loops otherwise; the invariant is kept |
| Timer.Timer.NSleep | devices/timer.c:181-184 | `timer_nsleep`: real_time_sleep with denominator 10^9, never the ASSERT path; blocks through Sleep for the whole ticks, or busy-waits exactly the dispatched loop count when positive and no loops otherwise; the invariant is kept |
| Calibration.Coarse | devices/timer.c:111-115 | the doubling phase from 2^k: Some(j) exactly when j is the first exponent whose doubled value the oracle calls too many; None (the ASSERT) exactly when no exponent up to 31 gets that answer |
| Calibration.Pow2TopOverflows | devices/timer.c:113-114 | doubling 2^31 in 32 bits gives 0, the case the ASSERT catches |
| Calibration.RefineBounds | devices/timer.c:118-119 | for a coarse bit 2^k (k >= 10), the first test bit and the stop bit are single bits, and the stop bit is below the first test bit |
| Calibration.HalvePow2 | devices/timer.c:119 | `test_bit >>= 1` stays a single bit, not below the stop bit, while the loop runs |
| Calibration.RefineStart | devices/timer.c:118 | before the first test, `loops_per_tick == high_bit` is the refined value with nothing tested |
| Calibration.RefineAccept | devices/timer.c:120-121 | an accepted test bit or-ed in extends the refined value by that bit |
| Calibration.RefineReject | devices/timer.c:120 | a rejected test bit leaves a value that is the refined value one bit further down |
| Calibration.RefinedUnique | devices/timer.c:117-121 | the per-bit description fixes the value: two values refined for the same oracle, coarse bit and floor are equal |
| Calibration.NineBits | devices/timer.c:117-119 | the single bits strictly between 2^k >> 10 and 2^k are exactly 2^(k-9)..2^(k-1): nine bits |
| Calibration.RefinedBitAt | devices/timer.c:117-121 | bit j of the calibrated value is set if and only if j = k, or k-9 <= j < k and the oracle accepts 2^k with bit j added |
| Calibration.RefinedRange | devices/timer.c:117-121 | the refined value keeps the coarse bit as its top bit: high <= value < 2 * high |
| RealTime.RealTimeSleep | devices/timer.c:256-270 | the dispatch of `real_time_sleep`: blocks if and only if the request is at least one tick in magnitude and not negative, for the request rounded toward zero to whole ticks; the spin path needs `denom % 1000 == 0`, and the ASSERT fails only when it does not hold |
| RealTime.CDivPositive | devices/timer.c:256-259 | the truncated quotient `num * TIMER_FREQ / denom` is positive exactly when the operands have the same sign and the divisor is not larger in magnitude |
| RealTime.CDiv | devices/timer.c:256 | C's signed `/`: the quotient's magnitude is the floor of the magnitudes' quotient, with the sign of the operands' product |
| RealTime.WholeTicksBlock | devices/timer.c:256-263 | real_time_sleep blocks if and only if `num * freq >= denom`, for `num * freq / denom` ticks, rounded down |
| RealTime.SubTickSpinsUnderOneTick | devices/timer.c:264-270 | a sub-tick request spins between 0 and loopsPerTick loops, and fewer than loopsPerTick when that is positive |
| RealTime.NonPositiveRequestSpinsNothing | devices/timer.c:256-270 | a zero or negative request never blocks and busy-waits for a non-positive count, so busy_wait runs no iterations |
| RealTime.WrapperDenominatorsNeverFail | devices/timer.c:169-184 | denominators 10^3, 10^6 and 10^9 never reach the `denom % 1000 == 0` ASSERT failure |
| RealTime.MicrosecondDispatchAt100Hz | devices/timer.c:175-178 | at 100 Hz `timer_usleep(500)` busy-waits and `timer_usleep(10000)` blocks for one tick |
| RealTime.BusyWait | devices/timer.c:241-245 | `busy_wait(loops)` runs its body `loops` times when positive, and not at all otherwise |
| Pit.Divisor | devices/timer.c:91 | the count `(1193180 + freq / 2) / freq` fits in a uint16_t for 19 <= freq <= 1000, so nothing is truncated; count * freq is the nearest multiple to 1193180 (rounded to nearest); the count is at least 1193 |
| Pit.Lsb | devices/timer.c:94 | `count & 0xff` is the byte that differs from count by a multiple of 256 |
| Pit.Msb | devices/timer.c:95 | `count >> 8` is the number of whole 256s in count |
| Pit.SplitThenLatch | devices/timer.c:94-95 | writing `count & 0xff` then `count >> 8` loads exactly `count` |
| Pit.LatchThenSplit | devices/timer.c:94-95 | splitting a latched count returns the two bytes written |

## Left out

- The port writes `outb` and the interrupt registration `intr_register_ext` in `timer_init` are I/O. The model keeps only the divisor and the byte split.
- Interrupt masking (`intr_disable`, `intr_set_level`), `barrier()` and the `intr_get_level () == INTR_ON` assertions are left out. Each method of `Timer` runs atomically.
  - `timer_sleep` reads the start tick before it disables interrupts. A tick arriving between the two is not modelled.
- `too_many_loops` is a parameter `tooMany`, an arbitrary function of the loop count. Its timing behaviour, spinning on `ticks` around `busy_wait`, is not modelled. So the model does not say that the calibrated count is close to one tick of real time.
- `thread_current`, `thread_block`, `thread_unblock` and `thread_tick` belong to the scheduler, which is not part of this model.
  - The calling thread is a `ThreadId` parameter.
  - `thread_unblock` appends to the `unblocked` log.
  - Blocking itself and `thread_tick`'s accounting are not modelled.
- The list library `lib/kernel/list.c` is not part of this model. `list_insert_ordered` is the function `InsertOrdered`, and the drain loop works on the sequence directly.
- `printf` in `timer_calibrate` and `timer_print_stats` is output only and is left out.
- `devices/timer.h` is not part of this model. `TIMER_FREQ` is a constructor parameter, restricted to the range 19..1000 that the `#error` lines enforce.
- `timer_ticks` is not a separate member. Its reads under masked interrupts are direct reads of the field `ticks`.
- RealTime.RealTimeSleep: integers are unbounded, so 64-bit overflow of `num * TIMER_FREQ` and `loops_per_tick * num` is not modelled. The source does not handle it either.
- Timer.Timer.Sleep: the wake tick `start + n` is unbounded, so the signed 64-bit overflow of `t->wake_tick = start + ticks` for a huge `n` is not modelled. That overflow is undefined behaviour in C and would usually give a negative wake tick, released at the next tick. The invariant that every sleeper wakes in the future relies on it not happening.
- Timer.Timer.Tick: `ticks` is unbounded, so 64-bit wrap-around of the tick counter is not modelled.
- Timer.Timer.Sleep: the caller must not already be asleep. A running thread is never in the sleep queue, and the model cannot express this otherwise.
- Timer.Timer.Calibrate: the refinement is a separate method, `Refine`, which updates the same field. The `ASSERT (loops_per_tick != 0)` failure is the result `ok == false`, with `loops_per_tick` left at 0.
