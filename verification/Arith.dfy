/** Facts about products and quotients that the other modules share. */
module Arith {
  lemma MulMono(a: int, b: int, p: int)
    requires a <= b && 0 <= p
    ensures a * p <= b * p
  {
    assert (b - a) * p >= 0;
    assert (b - a) * p == b * p - a * p;
  }

  lemma Distribute(a: int, b: int, p: int)
    ensures (a + b) * p == a * p + b * p
  {
  }

  /** Quotient and remainder are determined by the number they are taken from. */
  lemma SameQuotient(x: int, u: int, y: int, v: int, p: int)
    requires 0 <= u < p && 0 <= v < p && u + x * p == v + y * p
    ensures x == y && u == v
  {
    if x < y {
      MulMono(x + 1, y, p);
      Distribute(x, 1, p);
    } else if y < x {
      MulMono(y + 1, x, p);
      Distribute(y, 1, p);
    }
  }
}
