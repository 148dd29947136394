/** Multiplication and division, where the solver needs help. */
module Arithmetic {

  lemma {:induction false} ProductMonotone(a: nat, b: nat, d: nat)
    requires a <= b
    ensures a * d <= b * d && d * a <= d * b
  {
    if a == b {
    } else {
      ProductMonotone(a, b - 1, d);
      assert b * d == (b - 1) * d + d;
    }
  }

  /** Quotient and remainder are determined. */
  lemma DivisionUnique(x: nat, d: nat, q: nat, r: nat)
    requires r < d && x == d * q + r
    ensures x / d == q && x % d == r
  {
    var e := x / d - q;
    assert x == d * (x / d) + x % d;
    assert d * e == r - x % d;
    if e >= 1 {
      ProductMonotone(1, e, d);
    }
  }

  lemma QuotientBound(k: nat, x: nat, d: nat)
    requires d > 0 && k * d <= x
    ensures k <= x / d
  {
    var q := x / d;
    assert x < q * d + d;
    if k > q {
      ProductMonotone(q + 1, k, d);
    }
  }

  lemma Distribute(a: nat, b: nat, t: nat, u: nat)
    ensures a * (b * t + u) == (a * b) * t + a * u
  {
    assert a * (b * t) == (a * b) * t;
  }

  lemma RemaindersFit(a: nat, b: nat, r: nat, u: nat)
    requires r < a && u < b
    ensures a * u + r < a * b
  {
    ProductMonotone(u + 1, b, a);
    assert a * (u + 1) == a * u + a;
  }

  /** Division by a product is division twice. */
  lemma DivideTwice(x: nat, a: nat, b: nat)
    requires a > 0 && b > 0
    ensures a * b > 0 && x / (a * b) == (x / a) / b
  {
    var q, r := DivMod(x, a);
    var t, u := DivMod(q, b);
    Distribute(a, b, t, u);
    RemaindersFit(a, b, r, u);
    DivisionUnique(x, a * b, t, a * u + r);
  }

  lemma DivMod(x: nat, d: nat) returns (q: nat, r: nat)
    requires d > 0
    ensures x == d * q + r && r < d && q == x / d && r == x % d
  {
    q, r := x / d, x % d;
  }
}
