/** The divisor arithmetic of timer_init: the 8254 programmable interval
    timer divides its input clock by a 16-bit count, loaded low byte first.
    Counts and bytes are non-negative integers below 2^16 and 2^8; on such
    values `& 0xff` is the remainder modulo 256 and `>> 8` the quotient by
    256. */
module Pit {
  import opened Arithmetic

  type Uint8 = x: int | 0 <= x < 0x100
  type Uint16 = x: int | 0 <= x < 0x1_0000

  /** Input clock of the 8254, in Hz. */
  const InputFrequency := 1193180

  /** The compile-time range the source enforces for TIMER_FREQ. */
  predicate ValidFreq(freq: int) {
    19 <= freq <= 1000
  }

  /** The count loaded into counter 0: the input clock divided by freq,
      rounded to nearest, stored in a uint16_t (which keeps the value modulo
      2^16). For every supported frequency the quotient fits, so nothing is
      lost, count * freq is within freq / 2 of the input clock, and the count
      is never zero. */
  function Divisor(freq: int): (count: Uint16)
    requires ValidFreq(freq)
    ensures count == (InputFrequency + freq / 2) / freq
    ensures count * freq <= InputFrequency + freq / 2 < (count + 1) * freq
    ensures 1193 <= count
  {
    var q := (InputFrequency + freq / 2) / freq;
    DivisorFits(freq, q);
    q % 0x1_0000
  }

  lemma DivisorFits(freq: int, q: int)
    requires ValidFreq(freq) && q == (InputFrequency + freq / 2) / freq
    ensures q * freq <= InputFrequency + freq / 2 < (q + 1) * freq
    ensures 1193 <= q < 0x1_0000
  {
    var n := InputFrequency + freq / 2;
    assert n == q * freq + n % freq;
    assert q >= 0;
    assert q * 19 <= q * freq by {
      MulMonotone(19, freq, q);
    }
    assert (q + 1) * freq <= (q + 1) * 1000 by {
      MulMonotone(freq, 1000, q + 1);
    }
  }

  /** The byte written first: `count & 0xff`. */
  function Lsb(count: Uint16): (lsb: Uint8)
    ensures (count - lsb) % 0x100 == 0
  {
    count % 0x100
  }

  /** The byte written second: `count >> 8`. */
  function Msb(count: Uint16): (msb: Uint8)
    ensures msb * 0x100 <= count < (msb + 1) * 0x100
  {
    count / 0x100
  }

  /** How the 8254 assembles the two bytes it receives into its count. */
  function Latch(lsb: Uint8, msb: Uint8): Uint16 {
    msb * 0x100 + lsb
  }

  /** Writing the two bytes loads exactly the count:
      (count >> 8) * 256 + (count & 0xff) == count. */
  lemma SplitThenLatch(count: Uint16)
    ensures Latch(Lsb(count), Msb(count)) == count
  {
  }

  /** And splitting a latched count gives back its two bytes. */
  lemma LatchThenSplit(lsb: Uint8, msb: Uint8)
    ensures Lsb(Latch(lsb, msb)) == lsb && Msb(Latch(lsb, msb)) == msb
  {
  }
}
