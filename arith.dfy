/** Integer facts shared by the progress buckets and the band-sequential row buffer. */
module Arithmetic {
  /** Multiplying by a non-negative factor keeps the order. */
  lemma MulMonotone(x: int, a: int, b: int)
    requires 0 <= x && a <= b
    ensures x * a <= x * b
  {
  }
}
