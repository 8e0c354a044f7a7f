/** Facts about multiples that the solver does not find by itself. */
module Arithmetic {

  lemma MulBig(p: nat, d: int)
    requires p > 0 && d != 0
    ensures d * p >= p || d * p <= -(p as int)
  {
    if d > 0 { assert d * p >= 1 * p; } else { assert d * p <= -1 * p; }
  }

  /** A multiple of `p` and a number below it are told apart in their sum. */
  lemma Digits(a: nat, x: nat, b: nat, y: nat, p: nat)
    requires x < p && y < p && a * p + x == b * p + y
    ensures a == b && x == y
  {
    var d := a - b;
    assert d * p == y - x;
    if d != 0 { MulBig(p, d); }
  }

  lemma DoubleTimes(h: nat, q: nat)
    ensures h * (2 * q) == 2 * (h * q)
  {}
}
