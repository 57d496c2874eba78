/** Division by a variable, from multiplication. */
module Division {
  lemma MulAtLeast(x: int, d: nat)
    requires x >= 1
    ensures x * d >= d
  {
    assert x * d == (x - 1) * d + d;
    assert (x - 1) * d >= 0;
  }

  lemma DivIdentity(n: nat, d: nat)
    requires d > 0
    ensures n == (n / d) * d + n % d && 0 <= n % d < d
  {}

  /** Quotient and remainder are unique. */
  lemma DivOf(n: nat, q: nat, d: nat, r: nat)
    requires n == q * d + r && r < d
    ensures n / d == q && n % d == r
  {
    DivIdentity(n, d);
    SameParts(n / d, q, d, n % d, r);
  }

  lemma SameParts(a: nat, q: nat, d: nat, m: nat, r: nat)
    requires a * d + m == q * d + r && m < d && r < d
    ensures a == q && m == r
  {
    assert (a - q) * d == a * d - q * d;
    if a > q {
      MulAtLeast(a - q, d);
    } else if q > a {
      MulAtLeast(q - a, d);
    }
  }

  /** Going on from a multiple of d by at most d. */
  lemma NextUnit(n: nat, k: nat, d: nat)
    requires d > 0 && n % d == 0 && k <= d
    ensures (n + k) % d == if k == d then 0 else k
    ensures (n + k) / d == if k == d then n / d + 1 else n / d
  {
    var q := n / d;
    DivIdentity(n, d);
    if k == d {
      assert (q + 1) * d == q * d + d;
      DivOf(n + k, q + 1, d, 0);
    } else {
      DivOf(n + k, q, d, k);
    }
  }

  /** A multiple of a multiple. */
  lemma MultipleOf(n: nat, m: nat, k: nat)
    requires 0 < k && 0 < m && n % m == 0 && m % k == 0
    ensures n % k == 0
  {
    var p, q := n / m, m / k;
    DivIdentity(n, m);
    DivIdentity(m, k);
    assert n == p * (q * k) == (p * q) * k;
    DivOf(n, p * q, k, 0);
  }

  /** The way the C code rounds up to a multiple. */
  function RoundUp(n: nat, unit: nat): nat
    requires unit > 0
  {
    (n + unit - 1) / unit * unit
  }

  /** Rounding up gives the least multiple that is not smaller. */
  lemma RoundUpLeast(n: nat, unit: nat)
    requires unit > 0
    ensures n <= RoundUp(n, unit) < n + unit
    ensures RoundUp(n, unit) % unit == 0
    ensures forall m: nat :: n <= m && m % unit == 0 ==> RoundUp(n, unit) <= m
  {
    var q := (n + unit - 1) / unit;
    DivIdentity(n + unit - 1, unit);
    DivOf(q * unit, q, unit, 0);
    forall m: nat | n <= m && m % unit == 0
      ensures q * unit <= m
    {
      DivIdentity(m, unit);
      MulOrder(q - 1, m / unit, unit);
      MulOrder(m / unit, q, unit);
      assert (q - 1) * unit == q * unit - unit;
    }
  }

  lemma MulOrder(a: int, b: int, d: nat)
    requires d > 0
    ensures a * d < b * d <==> a < b
  {
    assert (b - a) * d == b * d - a * d;
    if a < b {
      MulAtLeast(b - a, d);
    } else {
      assert (a - b) * d >= 0;
    }
  }
}
