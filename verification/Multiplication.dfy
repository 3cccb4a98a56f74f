/** Products of natural numbers, kept apart from everything that uses them. */
module Multiplication {
  lemma MulLe(a: nat, b: nat, p: nat)
    requires a <= b
    ensures a * p <= b * p
  {
  }
}
