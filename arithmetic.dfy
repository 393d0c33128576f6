/** Facts about integer division used to read shifts and masks as
    quotients and remainders by powers of two. */
module Arithmetic {

  lemma MulAtLeast(a: int, d: int)
    requires 1 <= a && 0 < d
    ensures d <= a * d
    decreases a
  {
    if a > 1 {
      MulAtLeast(a - 1, d);
      assert a * d == (a - 1) * d + d;
    }
  }

  /** Quotient and remainder are determined by any decomposition
      x == q * d + r with 0 <= r < d. */
  lemma DivModOf(x: int, d: int, q: int, r: int)
    requires 0 < d && 0 <= r < d && x == q * d + r
    ensures x / d == q && x % d == r
  {
    var q', r' := x / d, x % d;
    assert x == q' * d + r';
    assert (q - q') * d == r' - r by {
      assert (q - q') * d == q * d - q' * d;
    }
    if q > q' {
      MulAtLeast(q - q', d);
    } else if q < q' {
      MulAtLeast(q' - q, d);
    }
  }
}
