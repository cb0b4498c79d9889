/** Facts about products and quotients that the solver needs spelled out. */
module Arithmetic {

  lemma MulLess(p: int, a: int, b: int)
    requires p >= 0 && a <= b
    ensures p * a <= p * b
  {
  }

  lemma Distribute(p: int, x: int, a: int)
    ensures p * (x + a) == p * x + p * a && p * (x - a) == p * x - p * a
  {
  }

  lemma MulSign(p: int, x: int)
    requires p > 0
    ensures x >= 1 ==> p * x >= p
    ensures x <= 0 ==> p * x <= 0
  {
  }

  /** Quotient and remainder are unique. */
  lemma ModUnique(x: int, m: int, q: int, r: int)
    requires m > 0 && 0 <= r < m && x == m * q + r
    ensures x % m == r && x / m == q
  {
    var q', r' := x / m, x % m;
    assert m * q' + r' == x;
    if q' > q {
      MulLess(m, q + 1, q');
      Distribute(m, q, 1);
    } else if q' < q {
      MulLess(m, q' + 1, q);
      Distribute(m, q', 1);
    }
  }

  lemma MultipleOf(x: int, m: int)
    requires m > 0
    ensures (x - x % m) % m == 0
  {
    ModUnique(x - x % m, m, x / m, 0);
  }

  lemma QuotientSign(x: int, m: int)
    requires x >= 0 && m > 0
    ensures x / m >= 0
  {
  }

  lemma QuotientBound(t: int, s: int, k: int)
    requires 0 <= t <= s * k && s > 0
    ensures 0 <= t / s <= k
  {
    var q := t / s;
    assert s * q <= t;
    if q > k {
      MulLess(s, k + 1, q);
      Distribute(s, k, 1);
    }
  }
}
