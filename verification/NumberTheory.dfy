/** Powers, congruences, Euclid's lemma, Fermat's little theorem and the uniqueness half of the Chinese remainder
    theorem: the mathematics behind RSA with the Chinese remainder theorem (section 5.1.2 of RFC 8017). */
module NumberTheory {
  import opened Arithmetic

  function Pow(b: int, e: nat): int {
    if e == 0 then 1 else b * Pow(b, e - 1)
  }

  ghost predicate Prime(p: int) {
    p >= 2 && forall d {:trigger p % d} :: 2 <= d < p ==> p % d != 0
  }

  // ---- Congruences ----

  lemma ModMul(a: int, b: int, m: int)
    requires m > 0
    ensures (a % m * b) % m == (a * b) % m
  {
    assert a * b == a % m * b + (a / m * b) * m by {
      assert a == a / m * m + a % m;
    }
    ModAdds(a % m * b, a / m * b, m);
  }

  lemma ModMulBoth(a: int, b: int, c: int, d: int, m: int)
    requires m > 0 && a % m == c % m && b % m == d % m
    ensures (a * b) % m == (c * d) % m
  {
    ModMul(a, b, m);
    ModMul(c, b, m);
    ModMul(b, c, m);
    ModMul(d, c, m);
    assert b * c == c * b && d * c == c * d;
  }

  lemma ModSum(a: int, b: int, m: int)
    requires m > 0
    ensures (a % m + b) % m == (a + b) % m
  {
    assert a + b == a % m + b + a / m * m;
    ModAdds(a % m + b, a / m, m);
  }

  lemma DifferenceDivides(a: int, b: int, m: int)
    requires m > 0
    ensures (a - b) % m == 0 <==> a % m == b % m
  {
    if (a - b) % m == 0 {
      assert a == b + (a - b) / m * m;
      ModAdds(b, (a - b) / m, m);
    }
    if a % m == b % m {
      assert a - b == (a / m - b / m) * m + 0 by {
        assert a == a / m * m + a % m && b == b / m * m + b % m;
      }
      ModUnique(a - b, a / m - b / m, m, 0);
    }
  }

  lemma ModTwice(x: int, m: int)
    requires m > 0
    ensures x % m % m == x % m
  {
    SmallMod(x % m, m);
  }

  lemma SmallMod(x: int, m: int)
    requires 0 <= x < m
    ensures x % m == x
  {
    ModUnique(x, 0, m, x);
  }

  lemma MultipleIsZero(q: int, m: int)
    requires m > 0
    ensures q * m % m == 0 && m * q % m == 0
  {
    ModUnique(q * m, q, m, 0);
  }

  // ---- Powers ----

  lemma {:induction false} PowAdds(b: int, x: nat, y: nat)
    ensures Pow(b, x + y) == Pow(b, x) * Pow(b, y)
  {
    if x > 0 {
      PowAdds(b, x - 1, y);
      assert b * (Pow(b, x - 1) * Pow(b, y)) == b * Pow(b, x - 1) * Pow(b, y);
    }
  }

  lemma {:induction false} PowOfPow(b: int, x: nat, y: nat)
    ensures x * y >= 0 && Pow(Pow(b, x), y) == Pow(b, x * y)
  {
    if y > 0 {
      PowOfPow(b, x, y - 1);
      assert x * y == x + x * (y - 1);
      PowAdds(b, x, x * (y - 1));
    }
  }

  lemma {:induction false} PowMod(b: int, e: nat, m: int)
    requires m > 0
    ensures Pow(b % m, e) % m == Pow(b, e) % m
  {
    if e > 0 {
      PowMod(b, e - 1, m);
      ModTwice(b, m);
      ModMulBoth(b % m, Pow(b % m, e - 1), b, Pow(b, e - 1), m);
    }
  }

  lemma {:induction false} PowOne(e: nat)
    ensures Pow(1, e) == 1
  {
    if e > 0 {
      PowOne(e - 1);
    }
  }

  // ---- Euclid's lemma ----

  /** A prime dividing a product divides a factor. */
  lemma {:induction false} Euclid(p: int, a: int, b: int)
    requires Prime(p) && a * b % p == 0
    ensures a % p == 0 || b % p == 0
  {
    ModMul(a, b, p);
    if a % p != 0 {
      EuclidReduced(p, a % p, b);
    }
  }

  lemma {:induction false} EuclidReduced(p: int, r: int, b: int)
    requires Prime(p) && 0 < r < p && r * b % p == 0
    ensures b % p == 0
    decreases r
  {
    if r > 1 {
      var (q, s, t) := (p / r, p % r, r * b / p);
      RemainderTimes(p, r, q, s, b, t);
      MultipleIsZero(b - q * t, p);
      EuclidReduced(p, s, b);
    }
  }

  lemma RemainderTimes(p: int, r: int, q: int, s: int, b: int, t: int)
    requires p == q * r + s && r * b == t * p
    ensures s * b == (b - q * t) * p
  {
    assert s * b == p * b - q * r * b;
    assert q * r * b == q * (r * b) == q * t * p by {
      assert q * (t * p) == q * t * p;
    }
    assert (b - q * t) * p == b * p - q * t * p;
  }

  // ---- Fermat's little theorem, by the binomial expansion of (a + 1)^p ----

  function Choose(n: nat, k: nat): nat {
    if k == 0 then 1 else if n == 0 then 0 else Choose(n - 1, k - 1) + Choose(n - 1, k)
  }

  lemma {:induction false} ChooseAbove(n: nat, k: nat)
    requires k > n
    ensures Choose(n, k) == 0
  {
    if n > 0 {
      ChooseAbove(n - 1, k - 1);
      ChooseAbove(n - 1, k);
    }
  }

  lemma {:induction false} ChooseAll(n: nat)
    ensures Choose(n, n) == 1
  {
    if n > 0 {
      ChooseAll(n - 1);
      ChooseAbove(n - 1, n);
    }
  }

  /** k * C(n, k) == n * C(n - 1, k - 1). */
  lemma {:induction false} ChooseAbsorbs(n: nat, k: nat)
    requires 1 <= k <= n
    ensures k * Choose(n, k) == n * Choose(n - 1, k - 1)
  {
    var (m, j) := (n - 1, k - 1);
    assert Choose(n, k) == Choose(m, j) + Choose(m, k);
    if k == n {
      ChooseAll(n);
      ChooseAll(m);
    } else if k == 1 {
      ChooseAbsorbs(m, 1);
      assert Choose(m, 0) == 1 && Choose(m - 1, 0) == 1;
    } else {
      ChooseAbsorbs(m, k);
      ChooseAbsorbs(m, j);
      assert Choose(m, j) == Choose(m - 1, j - 1) + Choose(m - 1, j);
      AbsorbStep(m, k, Choose(m, j), Choose(m, k), Choose(m - 1, j - 1), Choose(m - 1, j));
    }
  }

  lemma AbsorbStep(m: int, k: int, c: int, d: int, e: int, f: int)
    requires k * d == m * f && (k - 1) * c == m * e && c == e + f
    ensures k * (c + d) == (m + 1) * c
  {
    assert k * (c + d) == (k - 1) * c + c + k * d;
    assert m * e + m * f == m * (e + f);
  }

  lemma PrimeDividesChoose(p: nat, k: nat)
    requires Prime(p) && 1 <= k < p
    ensures Choose(p, k) % p == 0
  {
    hide Choose, Prime;
    ChooseAbsorbs(p, k);
    MultipleIsZero(Choose(p - 1, k - 1), p);
    SmallMod(k, p);
    Euclid(p, k, Choose(p, k));
  }

  /** The first k terms of the binomial expansion of (a + 1)^n. */
  function Binomial(n: nat, k: nat, a: int): int {
    if k == 0 then 0 else Binomial(n, k - 1, a) + Choose(n, k - 1) * Pow(a, k - 1)
  }

  lemma {:induction false} BinomialStep(n: nat, k: nat, a: int)
    ensures Binomial(n + 1, k + 1, a) == Binomial(n, k + 1, a) + a * Binomial(n, k, a)
  {
    if k == 0 {
      assert Binomial(n + 1, 1, a) == Binomial(n + 1, 0, a) + Choose(n + 1, 0) * Pow(a, 0);
      assert Binomial(n, 1, a) == Binomial(n, 0, a) + Choose(n, 0) * Pow(a, 0);
    } else {
      BinomialStep(n, k - 1, a);
      var (c, d, x) := (Choose(n, k - 1), Choose(n, k), Pow(a, k - 1));
      assert Choose(n + 1, k) == c + d && Pow(a, k) == a * x;
      assert Binomial(n + 1, k + 1, a) == Binomial(n + 1, k, a) + (c + d) * (a * x);
      assert Binomial(n, k + 1, a) == Binomial(n, k, a) + d * (a * x);
      assert Binomial(n, k, a) == Binomial(n, k - 1, a) + c * x;
      Regroup(Binomial(n, k - 1, a), a, c, d, x);
    }
  }

  lemma Regroup(b: int, a: int, c: int, d: int, x: int)
    ensures a * b + (c + d) * (a * x) == d * (a * x) + a * (b + c * x)
  {
    assert a * (b + c * x) == a * b + a * (c * x);
    assert a * (c * x) == c * (a * x);
  }

  lemma FirstTerm(n: nat, a: int)
    ensures Binomial(n, 1, a) == 1
  {
    assert Binomial(n, 1, a) == Binomial(n, 0, a) + Choose(n, 0) * Pow(a, 0);
  }

  lemma LastTerm(n: nat, a: int)
    ensures Binomial(n, n + 2, a) == Binomial(n, n + 1, a)
  {
    ChooseAbove(n, n + 1);
    assert 0 * Pow(a, n + 1) == 0;
  }

  lemma {:induction false} BinomialTheorem(n: nat, a: int)
    ensures Binomial(n, n + 1, a) == Pow(a + 1, n)
  {
    assert n > 0 ==> Pow(a + 1, n) == (a + 1) * Pow(a + 1, n - 1);
    assert Pow(a + 1, 0) == 1;
    hide Pow, Binomial, Choose;
    if n == 0 {
      FirstTerm(0, a);
    } else {
      BinomialTheorem(n - 1, a);
      BinomialStep(n - 1, n, a);
      LastTerm(n - 1, a);
      var b := Pow(a + 1, n - 1);
      assert (a + 1) * b == b + a * b;
    }
  }

  lemma ZeroTerm(b: int, c: int, x: int, p: int)
    requires p > 0 && c % p == 0
    ensures (b + c * x) % p == b % p
  {
    assert c * x == (c / p * x) * p by { assert c == c / p * p; }
    ModAdds(b, c / p * x, p);
  }

  /** Modulo a prime every term but the first and last vanishes. */
  lemma {:induction false} BinomialModPrime(p: nat, k: nat, a: int)
    requires Prime(p) && 1 <= k <= p
    ensures Binomial(p, k, a) % p == 1
  {
    hide Pow, Choose, Prime;
    PrimeAboveOne(p);
    SmallMod(1, p);
    if k == 1 {
      FirstTerm(p, a);
    } else {
      var (b, c, x) := (Binomial(p, k - 1, a), Choose(p, k - 1), Pow(a, k - 1));
      BinomialModPrime(p, k - 1, a);
      PrimeDividesChoose(p, k - 1);
      ZeroTerm(b, c, x, p);
    }
  }

  lemma FermatStep(p: nat, a: nat)
    requires Prime(p) && Pow(a, p) % p == a % p
    ensures Pow(a + 1, p) % p == (a + 1) % p
  {
    BinomialTheorem(p, a);
    BinomialModPrime(p, p, a);
    ChooseAll(p);
    assert Binomial(p, p + 1, a) == Binomial(p, p, a) + 1 * Pow(a, p);
    ModSum(Binomial(p, p, a), Pow(a, p), p);
    ModSum(Pow(a, p), 1, p);
    ModSum(a, 1, p);
  }

  lemma {:induction false} Fermat(p: nat, a: nat)
    requires Prime(p)
    ensures Pow(a, p) % p == a % p
  {
    if a == 0 {
      assert Pow(0, p) == 0 * Pow(0, p - 1);
    } else {
      Fermat(p, a - 1);
      FermatStep(p, a - 1);
    }
  }

  lemma Cancel(p: nat, a: int, x: int)
    requires Prime(p) && a % p != 0 && a * x % p == a % p
    ensures x % p == 1
  {
    hide Prime;
    PrimeAboveOne(p);
    DifferenceDivides(a * x, a, p);
    assert a * x - a == a * (x - 1);
    Euclid(p, a, x - 1);
    DifferenceDivides(x, 1, p);
    SmallMod(1, p);
  }

  lemma PrimeAboveOne(p: int)
    requires Prime(p)
    ensures p >= 2
  {
  }

  lemma FermatUnit(p: nat, a: nat)
    requires Prime(p) && a % p != 0
    ensures Pow(a, p - 1) % p == 1
  {
    Fermat(p, a);
    var x := Pow(a, p - 1);
    assert Pow(a, p) == a * x;
    Cancel(p, a, x);
  }

  /** Exponents may be reduced modulo p - 1 as long as the reduced one stays positive. */
  lemma ExponentReduces(p: nat, a: nat, x: nat, y: nat)
    requires Prime(p) && x > 0 && y > 0 && x % (p - 1) == y % (p - 1)
    ensures Pow(a, x) % p == Pow(a, y) % p
  {
    if a % p == 0 {
      ZeroPower(p, a, x);
      ZeroPower(p, a, y);
    } else {
      UnitExponent(p, a, x);
      UnitExponent(p, a, y);
    }
  }

  lemma ZeroPower(p: nat, a: nat, x: nat)
    requires p > 0 && a % p == 0 && x > 0
    ensures Pow(a, x) % p == 0
  {
    assert Pow(a, x) == a * Pow(a, x - 1);
    hide Pow;
    ZeroFactor(p, a, Pow(a, x - 1));
  }

  lemma ZeroFactor(p: nat, a: int, b: int)
    requires p > 0 && a % p == 0
    ensures a * b % p == 0
  {
    ModMul(a, b, p);
    SmallMod(0, p);
    assert 0 * b == 0;
  }

  lemma UnitExponent(p: nat, a: nat, x: nat)
    requires Prime(p) && a % p != 0
    ensures Pow(a, x) % p == Pow(a, x % (p - 1)) % p
  {
    FermatUnit(p, a);
    UnitPeriod(a, p - 1, x, p);
  }

  lemma UnitPeriod(a: nat, n: nat, x: nat, p: nat)
    requires p > 1 && n > 0 && Pow(a, n) % p == 1
    ensures Pow(a, x) % p == Pow(a, x % n) % p
  {
    hide Pow;
    var (q, r) := (x / n, x % n);
    assert x == n * q + r;
    UnitPower(a, n, q, p);
    PowAdds(a, n * q, r);
    SmallMod(1, p);
    ModMulBoth(Pow(a, n * q), Pow(a, r), 1, Pow(a, r), p);
  }

  lemma UnitPower(a: nat, n: nat, q: nat, p: nat)
    requires p > 1 && Pow(a, n) % p == 1
    ensures n * q >= 0 && Pow(a, n * q) % p == 1
  {
    hide Pow;
    PowOfPow(a, n, q);
    PowMod(Pow(a, n), q, p);
    PowOne(q);
    SmallMod(1, p);
  }

  // ---- Chinese remainder, uniqueness ----

  lemma DistinctPrimesCoprime(p: nat, q: nat)
    requires Prime(p) && Prime(q) && p != q
    ensures p % q != 0
  {
    if p < q {
      SmallMod(p, q);
    }
  }

  /** Two numbers below p * q with equal remainders modulo both distinct primes are equal. */
  lemma ChineseUnique(p: nat, q: nat, x: nat, y: nat)
    requires Prime(p) && Prime(q) && p != q && x < p * q && y < p * q
    requires x % p == y % p && x % q == y % q
    ensures x == y
  {
    if x > y {
      ChineseOrdered(p, q, x, y);
    } else if y > x {
      ChineseOrdered(p, q, y, x);
    }
  }

  lemma BothDivide(p: nat, q: nat, d: nat) returns (u: int)
    requires Prime(p) && Prime(q) && p != q && d % p == 0 && d % q == 0
    ensures d == u * (p * q)
  {
    var t := d / p;
    assert d == p * t;
    DistinctPrimesCoprime(p, q);
    Euclid(q, p, t);
    u := t / q;
    assert t == q * u;
    assert p * (q * u) == u * (p * q);
  }

  lemma ChineseOrdered(p: nat, q: nat, x: nat, y: nat)
    requires Prime(p) && Prime(q) && p != q && y < x < p * q
    ensures !(x % p == y % p && x % q == y % q)
  {
    if x % p == y % p && x % q == y % q {
      var d := x - y;
      DifferenceDivides(x, y, p);
      DifferenceDivides(x, y, q);
      var u := BothDivide(p, q, d);
      MulAtLeast(if u >= 1 then u else 1 - u, p * q);
    }
  }
}
