/** Facts about integer multiplication shared by the divisor and the
    real-time arithmetic. */
module Arithmetic {

  /** Multiplying by a non-negative factor, on either side, keeps order. */
  lemma MulMonotone(x: int, y: int, c: int)
    requires x <= y && c >= 0
    ensures c * x <= c * y && x * c <= y * c
  {
  }
}
