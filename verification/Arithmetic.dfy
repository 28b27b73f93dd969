/** Facts about products and quotients that the solver needs one at a time. */
module Arithmetic {
  lemma Distribute(b: nat, x: nat, y: nat)
    ensures b * (x + y) == b * x + b * y
  {
  }

  lemma Associate(b: nat, q: nat, x: nat)
    ensures b * (q * x) == b * q * x
  {
  }

  lemma Grow(b: nat, x: nat, y: nat)
    requires x <= y
    ensures b * x <= b * y
  {
  }

  /** Quotient and remainder are what multiplies back. */
  lemma UniqueRemainder(v: nat, d: nat, x: nat, r: nat)
    requires r < d && v == d * x + r
    ensures v % d == r && v / d == x
  {
    var p, s := v / d, v % d;
    assert d * p + s == d * x + r;
    if p < x {
      Distribute(d, p, 1);
      Grow(d, p + 1, x);
    } else if x < p {
      Distribute(d, x, 1);
      Grow(d, x + 1, p);
    }
  }
}
