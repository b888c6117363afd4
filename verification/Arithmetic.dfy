/** The one fact about products that the solver does not find by itself. */
module Arithmetic {
  lemma MulMonotone(a: int, b: int, c: int)
    requires a <= b && c >= 0
    ensures a * c <= b * c
  {
  }
}
