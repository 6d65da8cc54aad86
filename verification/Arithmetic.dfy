/** Division with remainder, for variable divisors. */
module Arithmetic {
  lemma {:induction false} MulAtLeast(a: int, n: int)
    requires a >= 1 && n >= 0
    ensures a * n >= n
  {
    assert a * n == (a - 1) * n + n;
  }

  /** A remainder in range is the remainder. */
  lemma ModUnique(x: int, q: int, n: int, r: int)
    requires 0 <= r < n && x == q * n + r
    ensures x % n == r && x / n == q
  {
    var (d, e) := (x / n, x % n);
    assert x == d * n + e;
    assert (d - q) * n == r - e;
    if d > q {
      MulAtLeast(d - q, n);
    } else if d < q {
      assert (q - d) * n == e - r;
      MulAtLeast(q - d, n);
    }
  }

  lemma ModAdds(x: int, q: int, n: int)
    requires n > 0
    ensures (x + q * n) % n == x % n
  {
    assert x + q * n == (x / n + q) * n + x % n;
    ModUnique(x + q * n, x / n + q, n, x % n);
  }

  lemma ModOfMultiple(x: nat, m: nat, n: nat)
    requires m > 0 && n > 0
    ensures m * n > 0 && x % (m * n) % n == x % n
  {
    MulAtLeast(m, n);
    var (d, e) := (x / (m * n), x % (m * n));
    assert x == e + (d * m) * n by { assert d * (m * n) == (d * m) * n; }
    ModAdds(e, d * m, n);
  }

  /** Stepping a remainder: one more, wrapping to zero. */
  lemma ModNext(x: nat, n: nat)
    requires n > 0
    ensures (x + 1) % n == if x % n + 1 >= n then 0 else x % n + 1
  {
    var q := x / n;
    assert x == q * n + x % n;
    if x % n + 1 >= n {
      assert x + 1 == (q + 1) * n + 0;
      ModUnique(x + 1, q + 1, n, 0);
    } else {
      ModUnique(x + 1, q, n, x % n + 1);
    }
  }
}
