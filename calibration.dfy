/** Specification of the busy-wait calibration search of timer_calibrate.
    `loops_per_tick` is an `unsigned` (32 bits), so it is a bv32 here, and the
    measurement too_many_loops is an uninterpreted oracle `tooMany`: any
    function from a loop count to "that many loops crossed a tick boundary".
    The doubling phase is specified on bit positions (bv8 values below 32);
    the refinement is specified bit by bit, on the single-bit values the loop
    walks through. */
module Calibration {

  datatype Option<T> = None | Some(value: T)

  /** The 32-bit value with only bit k set (`1u << k`). */
  function Pow2(k: bv8): bv32
    requires k < 32
  {
    1 << k
  }

  /** Outcome of the doubling phase started at 2^k: the exponent at which the
      oracle first reports too many loops for the doubled count, or None when
      the doubling shifts the only bit out of the word (the ASSERT that
      loops_per_tick is not zero fails). */
  function Coarse(tooMany: bv32 -> bool, k: bv8): (r: Option<bv8>)
    requires 10 <= k <= 31
    decreases 31 - k
    ensures r.Some? ==> k <= r.value <= 31 && tooMany(Pow2(r.value) << 1)
    ensures r.Some? ==> forall j: bv8 :: k <= j < r.value ==> !tooMany(Pow2(j) << 1)
    ensures r.None? <==> forall j: bv8 :: k <= j <= 31 ==> !tooMany(Pow2(j) << 1)
  {
    if tooMany(Pow2(k) << 1) then Some(k)
    else if k == 31 then None
    else Coarse(tooMany, k + 1)
  }

  lemma Pow2Double(k: bv8)
    requires k < 31
    ensures Pow2(k) << 1 == Pow2(k + 1)
  {
  }

  lemma Pow2NonZero(k: bv8)
    requires k < 32
    ensures Pow2(k) != 0
  {
  }

  lemma Pow2TopOverflows()
    ensures Pow2(31) << 1 == 0
  {
  }

  /** x has exactly one bit set. */
  predicate IsPow2(x: bv32) {
    x != 0 && x & (x - 1) == 0
  }

  /** The single bit b is set in x. */
  predicate Bit(x: bv32, b: bv32) {
    x & b != 0
  }

  /** The bit the refinement tests after x: `x >> 1`. */
  function Half(x: bv32): bv32 {
    x >> 1
  }

  /** The refinement's result so far, for the coarse bit high with every bit
      above floor tested: acc has the bit high, has each single bit strictly
      between floor and high exactly when the oracle accepts `high | b`, and
      has no other bit. A bv32 is fixed by its single bits, so this fixes acc
      (RefinedUnique). */
  ghost predicate Refined(tooMany: bv32 -> bool, high: bv32, floor: bv32, acc: bv32) {
    forall b: bv32 {:trigger Bit(acc, b)} :: IsPow2(b) ==>
      (Bit(acc, b) <==> b == high || (floor < b < high && !tooMany(high | b)))
  }

  lemma Pow2IsPow2(k: bv8)
    requires k < 32
    ensures IsPow2(Pow2(k))
  {
  }

  lemma Pow2Shift10(k: bv8)
    requires 10 <= k < 32
    ensures Pow2(k) >> 10 == Pow2(k - 10)
  {
  }

  /** For a coarse result 2^k the loop's first and last test bits are single
      bits, the last below the first. */
  lemma RefineBounds(k: bv8)
    requires 10 <= k <= 31
    ensures IsPow2(Pow2(k)) && IsPow2(Pow2(k) >> 10) && Pow2(k) >> 10 < Half(Pow2(k))
  {
    Pow2IsPow2(k);
    Pow2Shift10(k);
    Pow2IsPow2(k - 10);
  }

  /** Between two single bits stop < test, test >> 1 is again a single bit,
      not below stop and below test. */
  lemma HalvePow2(test: bv32, stop: bv32)
    requires IsPow2(test) && IsPow2(stop) && stop < test
    ensures IsPow2(Half(test)) && stop <= Half(test) < test
  {
  }

  lemma SingleBitsMeet(x: bv32, b: bv32)
    requires IsPow2(x) && IsPow2(b)
    ensures Bit(x, b) <==> x == b
  {
  }

  /** No single bit lies strictly between high >> 1 and high. */
  lemma NoBitBetween(high: bv32, b: bv32)
    requires IsPow2(high) && IsPow2(b)
    ensures !(Half(high) < b < high)
  {
  }

  lemma StartBitAt(tooMany: bv32 -> bool, high: bv32, b: bv32)
    requires IsPow2(high) && IsPow2(b)
    ensures Bit(high, b) <==> b == high || (Half(high) < b < high && !tooMany(high | b))
  {
    SingleBitsMeet(high, b);
    NoBitBetween(high, b);
  }

  /** Before the first test, loops_per_tick = high_bit is the refined value
      with nothing below high tested. */
  lemma RefineStart(tooMany: bv32 -> bool, high: bv32)
    requires IsPow2(high)
    ensures Refined(tooMany, high, Half(high), high)
  {
    forall b: bv32 | IsPow2(b)
      ensures Bit(high, b) <==> b == high || (Half(high) < b < high && !tooMany(high | b))
    {
      StartBitAt(tooMany, high, b);
    }
  }

  /** Moving the floor from test to test >> 1 brings exactly the bit test
      into range. */
  lemma BetweenStep(test: bv32, high: bv32, b: bv32)
    requires IsPow2(test) && IsPow2(b) && test < high && b != test
    ensures Half(test) < b < high <==> test < b < high
  {
  }

  lemma OrBit(x: bv32, y: bv32, b: bv32)
    ensures Bit(x | y, b) <==> Bit(x, b) || Bit(y, b)
  {
    OrBitRaw(x, y, b);
  }

  lemma OrBitRaw(x: bv32, y: bv32, b: bv32)
    ensures (x | y) & b != 0 <==> x & b != 0 || y & b != 0
  {
  }

  lemma OrSingleBit(acc: bv32, test: bv32, b: bv32)
    requires IsPow2(test) && IsPow2(b)
    ensures Bit(acc | test, b) <==> Bit(acc, b) || b == test
  {
    OrBit(acc, test, b);
    SingleBitsMeet(test, b);
  }

  /** The accepted test bit is set and now in range. */
  lemma AcceptSame(high: bv32, test: bv32, acc: bv32)
    requires IsPow2(high) && IsPow2(test) && test < high
    ensures Bit(acc | test, test)
    ensures Half(test) < test < high
  {
  }

  /** Any other single bit keeps its value and its place in or out of range. */
  lemma AcceptOther(high: bv32, test: bv32, acc: bv32, b: bv32)
    requires IsPow2(high) && IsPow2(test) && IsPow2(b) && test < high && b != test
    ensures Bit(acc | test, b) == Bit(acc, b)
    ensures Half(test) < b < high <==> test < b < high
  {
    OrSingleBit(acc, test, b);
    BetweenStep(test, high, b);
  }

  lemma AcceptBitAt(tooMany: bv32 -> bool, high: bv32, test: bv32, acc: bv32, b: bv32)
    requires IsPow2(high) && IsPow2(test) && test < high && IsPow2(b)
    requires Refined(tooMany, high, test, acc) && !tooMany(high | test)
    ensures Bit(acc | test, b) <==> b == high || (Half(test) < b < high && !tooMany(high | b))
  {
    if b == test {
      AcceptSame(high, test, acc);
    } else {
      AcceptOther(high, test, acc, b);
    }
  }

  /** An iteration whose test the oracle accepts: or-ing the test bit in
      extends the refined value by one bit. */
  lemma RefineAccept(tooMany: bv32 -> bool, high: bv32, test: bv32, acc: bv32)
    requires IsPow2(high) && IsPow2(test) && test < high
    requires Refined(tooMany, high, test, acc) && !tooMany(high | test)
    ensures Refined(tooMany, high, Half(test), acc | test)
  {
    forall b: bv32 | IsPow2(b)
      ensures Bit(acc | test, b) <==> b == high || (Half(test) < b < high && !tooMany(high | b))
    {
      AcceptBitAt(tooMany, high, test, acc, b);
    }
  }

  lemma RejectBitAt(tooMany: bv32 -> bool, high: bv32, test: bv32, acc: bv32, b: bv32)
    requires IsPow2(high) && IsPow2(test) && test < high && IsPow2(b)
    requires Refined(tooMany, high, test, acc) && tooMany(high | test)
    ensures Bit(acc, b) <==> b == high || (Half(test) < b < high && !tooMany(high | b))
  {
    if b != test {
      BetweenStep(test, high, b);
    }
  }

  /** An iteration whose test the oracle rejects: leaving the value alone
      extends the refined value by one (clear) bit. */
  lemma RefineReject(tooMany: bv32 -> bool, high: bv32, test: bv32, acc: bv32)
    requires IsPow2(high) && IsPow2(test) && test < high
    requires Refined(tooMany, high, test, acc) && tooMany(high | test)
    ensures Refined(tooMany, high, Half(test), acc)
  {
    forall b: bv32 | IsPow2(b)
      ensures Bit(acc, b) <==> b == high || (Half(test) < b < high && !tooMany(high | b))
    {
      RejectBitAt(tooMany, high, test, acc, b);
    }
  }

  /** The lowest set bit of a nonzero d, `d & -d`, is a single bit of d. */
  lemma LowestBit(d: bv32)
    requires d != 0
    ensures IsPow2(d & (0 - d)) && Bit(d, d & (0 - d))
  {
  }

  lemma DiffBit(x: bv32, y: bv32, b: bv32)
    requires IsPow2(b) && Bit(x ^ y, b)
    ensures Bit(x, b) != Bit(y, b)
  {
  }

  /** Two values with the same single bits are equal: the lowest bit of
      their difference would tell them apart. */
  lemma SameBitsSameValue(x: bv32, y: bv32)
    requires forall b: bv32 {:trigger Bit(x, b)} :: IsPow2(b) ==> (Bit(x, b) <==> Bit(y, b))
    ensures x == y
  {
    if x != y {
      var b := DiffWitness(x, y);
    }
  }

  /** Two different values differ in some single bit: the lowest bit of
      x ^ y. */
  lemma DiffWitness(x: bv32, y: bv32) returns (b: bv32)
    requires x != y
    ensures IsPow2(b) && Bit(x, b) != Bit(y, b)
  {
    b := (x ^ y) & (0 - (x ^ y));
    LowestBit(x ^ y);
    DiffBit(x, y, b);
  }

  /** Refined pins the value down completely. */
  lemma RefinedUnique(tooMany: bv32 -> bool, high: bv32, floor: bv32, x: bv32, y: bv32)
    requires Refined(tooMany, high, floor, x) && Refined(tooMany, high, floor, y)
    ensures x == y
  {
    forall b: bv32 | IsPow2(b)
      ensures Bit(x, b) <==> Bit(y, b)
    {
      assert Bit(x, b) <==> b == high || (floor < b < high && !tooMany(high | b));
    }
    SameBitsSameValue(x, y);
  }

  /** For the coarse bit 2^k, the single bits strictly between 2^k >> 10 and
      2^k are the nine bits k-9 .. k-1 (the source's comment says eight). */
  lemma NineBits(k: bv8, j: bv8)
    requires 10 <= k <= 31 && j < 32
    ensures Pow2(k) >> 10 < Pow2(j) < Pow2(k) <==> k - 9 <= j < k
  {
  }

  lemma Pow2Injective(i: bv8, j: bv8)
    requires i < 32 && j < 32
    ensures Pow2(i) == Pow2(j) <==> i == j
  {
  }

  /** The refinement read by bit position: bit j of the calibrated value is
      set exactly when j is k, or j is one of the nine positions k-9 .. k-1
      and the oracle accepts 2^k with bit j added. */
  lemma RefinedBitAt(tooMany: bv32 -> bool, k: bv8, acc: bv32, j: bv8)
    requires 10 <= k <= 31 && j < 32
    requires Refined(tooMany, Pow2(k), Pow2(k) >> 10, acc)
    ensures Bit(acc, Pow2(j)) <==> j == k || (k - 9 <= j < k && !tooMany(Pow2(k) | Pow2(j)))
  {
    Pow2IsPow2(j);
    NineBits(k, j);
    Pow2Injective(j, k);
  }

  /** The single bits of y = acc with every bit up to high cleared are bits
      of acc above high. */
  lemma ClearedBitAbove(high: bv32, acc: bv32, b: bv32)
    requires IsPow2(high) && IsPow2(b)
    requires Bit(acc & !(high | (high - 1)), b)
    ensures Bit(acc, b) && high < b
  {
  }

  /** acc with no single bit above high has only bits up to high. */
  lemma NoBitAbove(high: bv32, acc: bv32)
    requires IsPow2(high)
    requires forall b: bv32 {:trigger Bit(acc, b)} :: IsPow2(b) && high < b ==> !Bit(acc, b)
    ensures acc & !(high | (high - 1)) == 0
  {
    var y := acc & !(high | (high - 1));
    if y != 0 {
      LowestBit(y);
      ClearedBitAbove(high, acc, y & (0 - y));
    }
  }

  /** A value that has the bit high and no bit above it lies in
      [high, 2 * high). */
  lemma TopBitRange(high: bv32, acc: bv32)
    requires IsPow2(high) && Bit(acc, high) && acc & !(high | (high - 1)) == 0
    ensures high <= acc && Half(acc) < high
  {
  }

  /** The refined value keeps the coarse bit as its top bit:
      high <= acc < 2 * high. */
  lemma RefinedRange(tooMany: bv32 -> bool, high: bv32, floor: bv32, acc: bv32)
    requires IsPow2(high) && Refined(tooMany, high, floor, acc)
    ensures high <= acc && Half(acc) < high
  {
    forall b: bv32 | IsPow2(b) && high < b
      ensures !Bit(acc, b)
    {
    }
    assert Bit(acc, high);
    NoBitAbove(high, acc);
    TopBitRange(high, acc);
  }
}
