/** Division and multiplication by variables, where the solver needs to be led. */
module Arithmetic {

  lemma MulGrows(d: int, a: int, b: int)
    requires d > 0
    ensures a < b ==> d * a + d <= d * b
  {
    if a < b {
      var k: nat := b - a - 1;
      MulNonnegative(d, k);
      assert d * b == d * a + d + d * k by { assert b == a + 1 + k; }
    }
  }

  lemma {:induction false} MulNonnegative(d: int, k: nat)
    requires d >= 0
    ensures d * k >= 0
  {
    if k > 0 {
      MulNonnegative(d, k - 1);
      assert d * k == d * (k - 1) + d;
    }
  }

  lemma QuotientIsUnique(n: int, d: int, q: int)
    requires d > 0
    ensures q == n / d <==> d * q <= n < d * q + d
  {
    var r := n / d;
    assert d * r <= n < d * r + d;
    MulGrows(d, q, r);
    MulGrows(d, r, q);
  }

  /** A quotient and remainder that fit are the quotient and the remainder. */
  lemma DivisionIsUnique(x: int, d: int, q: int, r: int)
    requires d > 0 && x == d * q + r && 0 <= r < d
    ensures x / d == q && x % d == r
  {
    QuotientIsUnique(x, d, q);
  }

  lemma SameRemainder(x: int, d: int, k: int)
    requires d > 0
    ensures (x + d * k) % d == x % d
  {
    var q, r := x / d, x % d;
    assert x + d * k == d * (q + k) + r by { assert d * (q + k) == d * q + d * k; }
    DivisionIsUnique(x + d * k, d, q + k, r);
  }

  /** Remainders of sums depend on the remainders only. */
  lemma SumRemainder(x: int, y: int, d: int)
    requires d > 0
    ensures (x % d + y) % d == (x + y) % d
  {
    var q := x / d;
    assert x + y == (x % d + y) + d * q;
    SameRemainder(x % d + y, d, q);
  }

  /** A remainder by a multiple of `p` keeps the remainder by `p`. */
  lemma NestedRemainder(x: int, n: int, p: int)
    requires 0 < p && 0 < n && n % p == 0
    ensures x % n % p == x % p
  {
    var q, k := x / n, n / p;
    assert n * q == p * (k * q) by { assert n == p * k; }
    assert x == x % n + p * (k * q);
    SameRemainder(x % n, p, k * q);
  }

  /** Whole pages: from any place the end of its page is still within the multiple. */
  lemma PageEnd(a: int, n: int, p: int)
    requires 0 < p && 0 <= a < n && n % p == 0
    ensures a - a % p + p <= n
  {
    var q, k := a / p, n / p;
    assert a == p * q + a % p && n == p * k;
    if k < q {
      MulGrows(p, k, q);
    }
    MulGrows(p, q, k);
  }
}
