/** Facts about products and quotients that the solver needs spelled out. */
module Arithmetic {
  lemma QuotientRemainder(p: nat, w: nat, c: nat, m: nat)
    requires m < w && p == c * w + m
    ensures p / w == c && p % w == m
  {
    var x, y := p / w, p % w;
    assert p == x * w + y;
    if x < c {
      MulBound(x, c, w);
    } else if c < x {
      MulBound(c, x, w);
    }
  }

  lemma MulBound(a: int, b: int, w: nat)
    requires a < b
    ensures a * w + w <= b * w
  {
    assert b * w == a * w + (b - a) * w;
    assert (b - a) * w == w + (b - a - 1) * w;
  }
}
