/** Order and division facts for products of variables. */
module Arithmetic {
  lemma {:induction false} MulOrder(d: nat, a: int, b: int)
    ensures a <= b ==> d * a <= d * b
    ensures a < b ==> d * a + d <= d * b
  {
    assert d * b == d * a + d * (b - a);
    if a < b { assert d * (b - a) == d + d * (b - a - 1); }
  }

  lemma {:induction false} QuotientBounds(x: int, d: nat)
    requires d > 0
    ensures d * (x / d) <= x < d * (x / d) + d
  {
  }

  lemma {:induction false} Quotient(x: int, d: nat, q: int)
    requires d > 0 && d * q <= x < d * q + d
    ensures x / d == q
  {
    var r := x / d;
    QuotientBounds(x, d);
    MulOrder(d, r, q);
    MulOrder(d, q, r);
  }

  lemma {:induction false} QuotientMonotone(x: int, y: int, d: nat)
    requires d > 0 && x <= y
    ensures x / d <= y / d
  {
    var a, b := x / d, y / d;
    QuotientBounds(x, d);
    QuotientBounds(y, d);
    MulOrder(d, b, a);
  }

  /** Lowering the dividend by no more than `e` divisors lowers the quotient by at most `e`. */
  lemma {:induction false} QuotientDrop(x: int, k: nat, d: nat, e: nat)
    requires d > 0 && k <= d * e
    ensures x / d - e <= (x - k) / d <= x / d
  {
    var q := x / d;
    QuotientBounds(x, d);
    Distribute(d, q, e);
    Quotient(x - d * e, d, q - e);
    QuotientMonotone(x - d * e, x - k, d);
    QuotientMonotone(x - k, x, d);
  }

  lemma {:induction false} Distribute(d: nat, a: int, k: int)
    ensures d * (a - k) == d * a - d * k && d * k == k * d
  {
  }

  lemma {:induction false} Remainder(x: int, d: nat, q: int, r: int)
    requires d > 0 && x == d * q + r && 0 <= r < d
    ensures x % d == r
  {
    Quotient(x, d, q);
  }
}
