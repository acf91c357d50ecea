/** Small facts about multiplication and division that the solver does not find by itself. */
module Arith {

  lemma MulStep(i: nat, k: nat)
    ensures (i + 1) * k == i * k + k
  {
  }

  lemma MulMono(a: nat, b: nat, k: nat)
    requires a <= b
    ensures a * k <= b * k
  {
    assert b * k == a * k + (b - a) * k;
  }

  lemma Distribute(d: int, a: int, b: int)
    ensures d * (a - b) == d * a - d * b
  {
  }

  lemma MulAtLeast(d: nat, x: int)
    requires x >= 1
    ensures d * x >= d
  {
  }

  /** Quotient and remainder are unique. */
  lemma DivUnique(n: int, d: nat, q: int, r: int)
    requires d > 0 && n == d * q + r && 0 <= r < d
    ensures n / d == q && n % d == r
  {
    var q' := n / d;
    var r' := n % d;
    assert n == d * q' + r' && 0 <= r' < d;
    Distribute(d, q, q');
    assert d * (q - q') == r' - r;
    if q - q' >= 1 {
      MulAtLeast(d, q - q');
    } else if q - q' <= -1 {
      MulAtLeast(d, q' - q);
      Distribute(d, q', q);
    }
  }

  lemma DivOfMul(d: nat, k: nat)
    requires d > 0
    ensures d * k / d == k
  {
    DivUnique(d * k, d, k, 0);
  }

  lemma DivBound(n: nat, d: nat)
    requires d > 0
    ensures d * (n / d) <= n
  {
  }
}
