/** Facts about integer division that the solver does not find on its own. */
module Arith {

  lemma MulGrows(k: int, d: int)
    requires k >= 1 && d > 0
    ensures k * d >= d
  {
  }

  lemma MulStep(q: int, q': int, d: int)
    requires q < q' && d > 0
    ensures q' * d >= q * d + d
  {
    MulGrows(q' - q, d);
    assert (q' - q) * d == q' * d - q * d;
  }

  lemma QuotientUnique(q: int, r: int, q': int, r': int, d: int)
    requires d > 0 && 0 <= r < d && 0 <= r' < d && q * d + r == q' * d + r'
    ensures q == q' && r == r'
  {
    if q' > q {
      MulStep(q, q', d);
    } else if q' < q {
      MulStep(q', q, d);
    }
  }

  /** Division with remainder is unique. */
  lemma DivUnique(x: int, d: int, q: int, r: int)
    requires d > 0 && 0 <= r < d && x == q * d + r
    ensures x / d == q && x % d == r
  {
    QuotientUnique(q, r, x / d, x % d, d);
  }

  lemma ModStep(x: int, d: int)
    requires d > 0
    ensures 0 <= x < d ==> x % d == x
    ensures (x - d) % d == x % d
  {
    if 0 <= x < d {
      DivUnique(x, d, 0, x);
    }
    var q := x / d;
    assert x == q * d + x % d;
    assert (q - 1) * d == q * d - d;
    DivUnique(x - d, d, q - 1, x % d);
  }

  lemma DivMonotone(x: int, y: int, d: int)
    requires d > 0 && x <= y
    ensures x / d <= y / d
  {
    var qx, rx, qy, ry := x / d, x % d, y / d, y % d;
    assert x == qx * d + rx && y == qy * d + ry;
    if qx > qy {
      MulStep(qy, qx, d);
    }
  }
}
