/** Integer facts shared by the binomial, geometry and residue proofs. */
module Arith {

  /** Multiplying by a non-negative factor preserves order. */
  lemma MulMonotonic(a: int, b: int, m: int)
    requires m >= 0 && a <= b
    ensures a * m <= b * m
  {
    assert b * m - a * m == (b - a) * m;
  }
}
