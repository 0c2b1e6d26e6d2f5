/** Small facts about integer multiplication and Euclidean division. */
module Arith {

  lemma MulMonotone(d: int, a: int, b: int)
    requires d > 0 && a <= b
    ensures d * a <= d * b
  {
    assert d * b - d * a == d * (b - a);
  }

  /** A multiple of `d` strictly between `-d` and `d` is zero. */
  lemma SmallMultiple(d: int, k: int)
    requires d > 0 && -d < d * k < d
    ensures k == 0
  {
    if k >= 1 {
      MulMonotone(d, 1, k);
    } else if k <= -1 {
      MulMonotone(d, k, -1);
    }
  }

  /** Euclidean quotient and remainder are unique. */
  lemma DivModUnique(n: int, d: int, q: int, r: int)
    requires d > 0 && n == d * q + r && 0 <= r < d
    ensures n / d == q && n % d == r
  {
    var q0, r0 := n / d, n % d;
    assert n == d * q0 + r0 && 0 <= r0 < d;
    assert d * (q - q0) == r0 - r;
    SmallMultiple(d, q - q0);
  }
}
