/** Multiplication, where the solver wants it said. */
module Arithmetic {

  lemma MulMonotonic(x: int, y: int, k: nat)
    requires x <= y
    ensures x * k <= y * k
  {
  }
}
