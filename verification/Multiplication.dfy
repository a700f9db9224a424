/** The two facts about products that the proofs need spelled out. */
module Multiplication {

  lemma MulMonotone(x: int, y: int, w: nat)
    requires x <= y
    ensures x * w <= y * w
  {
  }

  lemma MulStep(x: int, w: int)
    ensures (x + 1) * w == x * w + w
  {
  }
}
