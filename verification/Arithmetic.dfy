/** Powers of two, and quotients fixed by their bounds. */
module Arithmetic {

  function Pow2(n: nat): (p: nat)
    ensures p > 0
  {
    if n == 0 then 1 else 2 * Pow2(n - 1)
  }

  lemma {:induction false} Pow2Monotone(a: nat, b: nat)
    requires a <= b
    ensures Pow2(a) <= Pow2(b)
    decreases b - a
  {
    if a < b {
      Pow2Monotone(a, b - 1);
    }
  }

  lemma QuotientIs(v: nat, d: nat, q: nat, r: nat)
    requires v == q * d + r && r < d
    ensures v / d == q && v % d == r
  {
    assert v == (v / d) * d + v % d;
    assert (v / d - q) * d == r - v % d;
    SmallMultiple(v / d - q, d);
  }

  lemma SmallMultiple(x: int, d: nat)
    requires x * d < d && x * d + d > 0
    ensures x == 0
  {
  }

  lemma NonNegative(x: int, d: nat)
    requires x * d + d > 0
    ensures x >= 0
  {
  }
}
