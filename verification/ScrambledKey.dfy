/** pkg/crypto/scrambled_key.go: RSA decryption by the Chinese remainder theorem, the scrambled modulus sent to the peer
    and the round-robin key pool. math/big is modelled by unbounded integers. */
module ScrambledKey {
  import opened Arithmetic
  import opened NumberTheory
  import opened Words
  import opened Wrappers

  const RSA_MODULUS_SIZE := 128

  // ---- Big-endian numbers ----

  function FromBytes(s: seq<byte>): nat {
    if s == [] then 0 else 0x100 * FromBytes(s[..|s| - 1]) + s[|s| - 1]
  }

  /** n can be written in len bytes; FillBytes panics otherwise. */
  ghost predicate Fits(n: nat, len: nat) {
    n < Pow(0x100, len)
  }

  /** FillBytes: n in exactly len bytes, left-padded with zeros. */
  function ToBytes(n: nat, len: nat): (s: seq<byte>)
    requires Fits(n, len)
    ensures |s| == len
  {
    assert len > 0 ==> Pow(0x100, len) == 0x100 * Pow(0x100, len - 1);
    if len == 0 then [] else ToBytes(n / 0x100, len - 1) + [n % 0x100]
  }

  lemma {:induction false} ToThenFrom(n: nat, len: nat)
    requires Fits(n, len)
    ensures FromBytes(ToBytes(n, len)) == n
  {
    if len > 0 {
      assert Pow(0x100, len) == 0x100 * Pow(0x100, len - 1);
      ToThenFrom(n / 0x100, len - 1);
      assert ToBytes(n, len)[..len - 1] == ToBytes(n / 0x100, len - 1);
    }
  }

  lemma {:induction false} FromThenTo(s: seq<byte>)
    ensures Fits(FromBytes(s), |s|) && ToBytes(FromBytes(s), |s|) == s
  {
    if s != [] {
      var init := s[..|s| - 1];
      FromThenTo(init);
      var n: nat := FromBytes(init);
      assert Pow(0x100, |s|) == 0x100 * Pow(0x100, |init|);
      assert (0x100 * n + s[|s| - 1]) / 0x100 == n;
      assert s == init + [s[|s| - 1]];
    }
  }

  /** The first byte is the most significant. */
  lemma {:induction false} MostSignificantFirst(b: byte, s: seq<byte>)
    ensures FromBytes([b] + s) == b * Pow(0x100, |s|) + FromBytes(s)
  {
    if s == [] {
      assert [b] + s == [b] && [b][..0] == [];
      assert FromBytes([b]) == 0x100 * FromBytes([b][..0]) + b;
    } else {
      var (init, last) := (s[..|s| - 1], s[|s| - 1]);
      MostSignificantFirst(b, init);
      assert ([b] + s)[..|s|] == [b] + init;
      assert Pow(0x100, |s|) == 0x100 * Pow(0x100, |init|);
      assert 0x100 * (b * Pow(0x100, |init|)) == b * Pow(0x100, |s|);
    }
  }

  // ---- RSA ----

  /** An RSA private key with its precomputed CRT values. */
  datatype PrivateKey = PrivateKey(p: nat, q: nat, d: nat, e: nat, dp: nat, dq: nat, qinv: nat)

  ghost predicate Usable(k: PrivateKey) {
    && Prime(k.p) && Prime(k.q) && k.p != k.q && k.p > 2 && k.q > 2
    && k.d * k.e % (k.p - 1) == 1 && k.d * k.e % (k.q - 1) == 1
    && k.dp == k.d % (k.p - 1) && k.dq == k.d % (k.q - 1)
    && k.qinv * k.q % k.p == 1
    && Fits(k.p * k.q, RSA_MODULUS_SIZE)
  }

  /** There are such keys, toy ones included. */
  lemma SmallKey()
    ensures Usable(PrivateKey(5, 7, 5, 5, 1, 5, 3))
  {
    hide Pow;
    assert Prime(5) && Prime(7);
    PowerAbove(0x100, RSA_MODULUS_SIZE);
  }

  lemma {:induction false} PowerAbove(b: nat, e: nat)
    requires b >= 2
    ensures Pow(b, e) > e
  {
    if e > 0 {
      PowerAbove(b, e - 1);
      MulMonotone(2, b, Pow(b, e - 1));
    } else {
      assert Pow(b, 0) == 1;
    }
  }

  /** The big.Int temporaries of one decryption; they come from a pool, so they hold anything. */
  class RsaScratch {
    var c: int
    var m1: int
    var m2: int
    var h: int
    var m: int
  }

  lemma ReducedExponentPositive(d: nat, e: nat, n: nat)
    requires n >= 2 && d * e % n == 1
    ensures d > 0 && e > 0 && d % n > 0
  {
    ModMul(d, e, n);
    if d % n == 0 {
      assert 0 * e == 0;
      SmallMod(0, n);
    }
  }

  /** Modulo one prime, the short exponent gives the power of the whole one. */
  lemma HalfPower(c: nat, p: nat, d: nat, e: nat)
    requires Prime(p) && p > 2 && d * e % (p - 1) == 1
    ensures Pow(c, d % (p - 1)) % p == Pow(c, d) % p
  {
    hide Prime, Pow;
    ReducedExponentPositive(d, e, p - 1);
    ModTwice(d, p - 1);
    ExponentReduces(p, c, d % (p - 1), d);
  }

  /** Garner's recombination: the result is below p * q and has the two given remainders. */
  lemma Recombined(p: nat, q: nat, qinv: nat, m1: nat, m2: nat, g: int)
    requires p > 0 && m1 < p && m2 < q && qinv * q % p == 1
    requires g % p == (m1 - m2) % p
    ensures var h := g * qinv % p;
            0 <= h * q + m2 < p * q && (h * q + m2) % p == m1 && (h * q + m2) % q == m2
  {
    var h := g * qinv % p;
    assert h * q + m2 < p * q by {
      assert (h + 1) * q == h * q + q;
      MulMonotone(h + 1, p, q);
    }
    ModUnique(h * q + m2, h, q, m2);
    Unscaled(p, q, qinv, g);
    ModSum(h * q, m2, p);
    ModSum(g, m2, p);
    ModSum(m1 - m2, m2, p);
    SmallMod(m1, p);
  }

  lemma MulMonotone(a: int, b: int, n: nat)
    requires a <= b
    ensures a * n <= b * n
  {
    assert (b - a) * n >= 0;
  }

  lemma Unscaled(p: nat, q: nat, qinv: nat, g: int)
    requires p > 0 && qinv * q % p == 1
    ensures (g * qinv % p) * q % p == g % p
  {
    Reordered(g, qinv, q);
    UnitFactor(p, g * qinv, q, qinv * q, g);
  }

  lemma Reordered(a: int, b: int, c: int)
    ensures (a * b) * c == (b * c) * a
  {
  }

  /** A factor that is one modulo p may be dropped. */
  lemma UnitFactor(p: nat, x: int, q: int, u: int, g: int)
    requires p > 0 && x * q == u * g && u % p == 1
    ensures (x % p) * q % p == g % p
  {
    ModMul(x, q, p);
    ModMul(u, g, p);
    assert 1 * g == g;
  }

  lemma CrtIsPower(k: PrivateKey, c: nat, m: nat)
    requires Usable(k) && m < k.p * k.q
    requires m % k.p == Pow(c, k.dp) % k.p && m % k.q == Pow(c, k.dq) % k.q
    ensures m == Pow(c, k.d) % (k.p * k.q)
  {
    hide Prime, Pow, Fits;
    var (p, q, x) := (k.p, k.q, Pow(c, k.d));
    HalfPower(c, p, k.d, k.e);
    HalfPower(c, q, k.d, k.e);
    PowNonNegative(c, k.d);
    ModOfMultiple(x, q, p);
    ModOfMultiple(x, p, q);
    assert p * q == q * p;
    ChineseUnique(p, q, m, x % (p * q));
  }

  lemma {:induction false} PowNonNegative(b: nat, e: nat)
    ensures Pow(b, e) >= 0
  {
    if e > 0 {
      PowNonNegative(b, e - 1);
    }
  }

  lemma FitsBelow(m: nat, n: nat)
    requires m < n && Fits(n, RSA_MODULUS_SIZE)
    ensures Fits(m, RSA_MODULUS_SIZE)
  {
  }

  /** What RSADecrypt promises: plain modular exponentiation, in exactly 128 bytes. */
  ghost function Decrypted(k: PrivateKey, ciphertext: seq<byte>): (r: Result<seq<byte>>)
    requires Usable(k)
  {
    if |ciphertext| != RSA_MODULUS_SIZE then Failure("crypto: invalid ciphertext size")
    else
      PowNonNegative(FromBytes(ciphertext), k.d);
      FitsBelow(Pow(FromBytes(ciphertext), k.d) % (k.p * k.q), k.p * k.q);
      Success(ToBytes(Pow(FromBytes(ciphertext), k.d) % (k.p * k.q), RSA_MODULUS_SIZE))
  }

  method RSADecrypt(k: PrivateKey, ciphertext: seq<byte>, s: RsaScratch) returns (r: Result<seq<byte>>)
    requires Usable(k)
    modifies s
    ensures r == Decrypted(k, ciphertext)
  {
    hide Prime, Pow, Fits;
    if |ciphertext| != RSA_MODULUS_SIZE {
      return Failure("crypto: invalid ciphertext size");
    }
    s.c := FromBytes(ciphertext);
    s.m1 := Pow(s.c, k.dp) % k.p;
    s.m2 := Pow(s.c, k.dq) % k.q;

    s.h := s.m1 - s.m2;
    if s.h < 0 {
      s.h := s.h + k.p;
    }
    DifferenceShift(s.m1 - s.m2, k.p);
    ghost var g := s.h;
    s.h := s.h * k.qinv;
    s.h := s.h % k.p;
    Recombined(k.p, k.q, k.qinv, s.m1, s.m2, g);

    s.m := s.h * k.q;
    s.m := s.m + s.m2;
    ModTwice(Pow(s.c, k.dp), k.p);
    ModTwice(Pow(s.c, k.dq), k.q);
    CrtIsPower(k, s.c, s.m);
    FitsBelow(s.m, k.p * k.q);
    return Success(ToBytes(s.m, RSA_MODULUS_SIZE));
  }

  lemma DifferenceShift(x: int, p: nat)
    requires p > 0
    ensures (x + p) % p == x % p
  {
    ModAdds(x, 1, p);
  }

  /** Decryption inverts encryption: every message below the modulus comes back. */
  lemma DecryptsEncrypted(k: PrivateKey, m: nat)
    requires Usable(k) && m < k.p * k.q
    ensures Pow(m, k.e) >= 0 && Fits(Pow(m, k.e) % (k.p * k.q), RSA_MODULUS_SIZE) && Fits(m, RSA_MODULUS_SIZE)
    ensures var c := ToBytes(Pow(m, k.e) % (k.p * k.q), RSA_MODULUS_SIZE);
            Decrypted(k, c) == Success(ToBytes(m, RSA_MODULUS_SIZE)) && FromBytes(ToBytes(m, RSA_MODULUS_SIZE)) == m
  {
    hide Prime, Pow;
    var (n, x) := (k.p * k.q, Pow(m, k.e));
    PowNonNegative(m, k.e);
    FitsBelow(x % n, n);
    FitsBelow(m, n);
    ToThenFrom(x % n, RSA_MODULUS_SIZE);
    ToThenFrom(m, RSA_MODULUS_SIZE);
    PowMod(x, k.d, n);
    PowOfPow(m, k.e, k.d);
    RootOfPower(k, m);
  }

  lemma RootOfPower(k: PrivateKey, m: nat)
    requires Usable(k) && m < k.p * k.q
    ensures k.e * k.d >= 0 && Pow(m, k.e * k.d) % (k.p * k.q) == m
  {
    hide Prime, Pow, Fits;
    var (p, q) := (k.p, k.q);
    var t: nat := k.d * k.e;
    assert t == k.e * k.d;
    var y := Pow(m, t);
    PowNonNegative(m, t);
    ResidueKept(p, m, t);
    ResidueKept(q, m, t);
    ModOfMultiple(y, q, p);
    ModOfMultiple(y, p, q);
    assert p * q == q * p;
    ChineseUnique(p, q, y % (p * q), m);
  }

  lemma ResidueKept(p: nat, m: nat, t: nat)
    requires Prime(p) && p > 2 && t % (p - 1) == 1
    ensures Pow(m, t) % p == m % p
  {
    hide Prime;
    SmallMod(1, p - 1);
    SmallMod(0, p - 1);
    ExponentReduces(p, m, t, 1);
    assert Pow(m, 1) == m * Pow(m, 0) == m;
  }

  // ---- The scrambled modulus ----

  /** n elements from a on exchanged with the n elements from b on. */
  function SwapRun(s: seq<byte>, a: nat, b: nat, n: nat): (r: seq<byte>)
    requires a + n <= b && b + n <= |s|
  {
    seq(|s|, i requires 0 <= i < |s| =>
      if a <= i < a + n then s[b + i - a] else if b <= i < b + n then s[a + i - b] else s[i])
  }

  /** The n bytes from `to` on masked with the n bytes from `from` on. */
  function XorRun(s: seq<byte>, to: nat, from: nat, n: nat): (r: seq<byte>)
    requires to + n <= |s| && from + n <= |s|
  {
    seq(|s|, i requires 0 <= i < |s| => if to <= i < to + n then Xor8(s[i], s[from + i - to]) else s[i])
  }

  /** The four passes of fillAndScrambleModulus. */
  ghost function Scramble(s: seq<byte>): (r: seq<byte>)
    requires |s| == RSA_MODULUS_SIZE
    ensures |r| == RSA_MODULUS_SIZE
  {
    XorRun(XorRun(XorRun(SwapRun(s, 0, 77, 4), 0, 64, 64), 13, 52, 4), 64, 0, 64)
  }

  /** The peer's side: the same passes, last one first. */
  ghost function Unscramble(s: seq<byte>): (r: seq<byte>)
    requires |s| == RSA_MODULUS_SIZE
    ensures |r| == RSA_MODULUS_SIZE
  {
    SwapRun(XorRun(XorRun(XorRun(s, 64, 0, 64), 13, 52, 4), 0, 64, 64), 0, 77, 4)
  }

  lemma SwapRunTwice(s: seq<byte>, a: nat, b: nat, n: nat)
    requires a + n <= b && b + n <= |s|
    ensures SwapRun(SwapRun(s, a, b, n), a, b, n) == s
  {
  }

  lemma XorRunTwice(s: seq<byte>, to: nat, from: nat, n: nat)
    requires to + n <= |s| && from + n <= |s|
    requires to + n <= from || from + n <= to
    ensures XorRun(XorRun(s, to, from, n), to, from, n) == s
  {
    var r := XorRun(s, to, from, n);
    forall i | to <= i < to + n
      ensures Xor8(r[i], r[from + i - to]) == s[i]
    {
      XorCancels(s[i], s[from + i - to]);
    }
  }

  /** Scrambling is a bijection on 128-byte blocks and Unscramble is its inverse. */
  lemma ScrambleRoundTrip(s: seq<byte>)
    requires |s| == RSA_MODULUS_SIZE
    ensures Unscramble(Scramble(s)) == s && Scramble(Unscramble(s)) == s
  {
    hide SwapRun, XorRun;
    RunLengths();
    var a := SwapRun(s, 0, 77, 4);
    var b := XorRun(a, 0, 64, 64);
    var c := XorRun(b, 13, 52, 4);
    SwapRunTwice(s, 0, 77, 4);
    XorRunTwice(a, 0, 64, 64);
    XorRunTwice(b, 13, 52, 4);
    XorRunTwice(c, 64, 0, 64);

    var c' := XorRun(s, 64, 0, 64);
    var b' := XorRun(c', 13, 52, 4);
    var a' := XorRun(b', 0, 64, 64);
    XorRunTwice(s, 64, 0, 64);
    XorRunTwice(c', 13, 52, 4);
    XorRunTwice(b', 0, 64, 64);
    SwapRunTwice(a', 0, 77, 4);
  }

  lemma RunLengths()
    ensures forall s: seq<byte>, a: nat, b: nat, n: nat {:trigger SwapRun(s, a, b, n)} ::
              a + n <= b && b + n <= |s| ==> |SwapRun(s, a, b, n)| == |s|
    ensures forall s: seq<byte>, a: nat, b: nat, n: nat {:trigger XorRun(s, a, b, n)} ::
              a + n <= |s| && b + n <= |s| ==> |XorRun(s, a, b, n)| == |s|
  {
  }

  /** Where each byte of the modulus m ends up in either half, and under which masks. */
  lemma ScrambledBytes(m: seq<byte>, i: nat)
    requires |m| == 128 && i < 64
    ensures var r := Scramble(m);
            if i < 4 then r[i] == Xor8(m[77 + i], m[64 + i]) && r[64 + i] == m[77 + i]
            else if 13 <= i < 17 then
              var mask := Xor8(m[39 + i], m[103 + i]);
              r[i] == Xor8(Xor8(m[i], m[i - 13]), mask) && r[64 + i] == Xor8(m[i], mask)
            else r[i] == Xor8(m[i], m[64 + i]) && r[64 + i] == m[i]
  {
    hide Xor8;
    var w := SwapRun(m, 0, 77, 4);
    var a := XorRun(w, 0, 64, 64);
    var b := XorRun(a, 13, 52, 4);
    var r := XorRun(b, 64, 0, 64);
    assert a[i] == Xor8(w[i], w[64 + i]) && b[64 + i] == a[64 + i] == w[64 + i];
    assert r[i] == b[i] && r[64 + i] == Xor8(w[64 + i], b[i]);
    if 13 <= i < 17 {
      assert a[39 + i] == Xor8(m[39 + i], m[103 + i]) && b[i] == Xor8(a[i], a[39 + i]);
      MaskThrough(m[i - 13], m[i], a[39 + i]);
    } else {
      MaskTwice(w[64 + i], w[i]);
    }
  }

  lemma MaskTwice(x: byte, y: byte)
    ensures Xor8(x, Xor8(y, x)) == y
  {
    XorCommutes(x, Xor(y, x));
    XorCancels(y, x);
  }

  lemma MaskThrough(x: byte, y: byte, z: byte)
    ensures Xor8(x, Xor8(Xor8(y, x), z)) == Xor8(y, z)
  {
    XorAssociates(x, Xor(y, x), z);
    MaskTwice(x, y);
  }

  /** The peer recovers the modulus from the scrambled bytes. */
  lemma PeerRecoversModulus(n: nat)
    requires Fits(n, RSA_MODULUS_SIZE)
    ensures FromBytes(Unscramble(Scramble(ToBytes(n, RSA_MODULUS_SIZE)))) == n
  {
    hide Scramble, Unscramble;
    ScrambleRoundTrip(ToBytes(n, RSA_MODULUS_SIZE));
    ToThenFrom(n, RSA_MODULUS_SIZE);
  }

  method FillAndScrambleModulus(dst: array<byte>, modulus: nat)
    requires dst.Length == 128 && Fits(modulus, 128)
    modifies dst
    ensures dst[..] == Scramble(ToBytes(modulus, RSA_MODULUS_SIZE))
  {
    hide SwapRun, XorRun, ToBytes, Fits;
    var bytes := ToBytes(modulus, RSA_MODULUS_SIZE);
    forall i | 0 <= i < RSA_MODULUS_SIZE {
      dst[i] := bytes[i];
    }
    assert dst[..] == bytes;
    SwapInPlace(dst, 0, 77, 4);
    XorInPlace(dst, 0, 64, 64);
    XorInPlace(dst, 13, 52, 4);
    XorInPlace(dst, 64, 0, 64);
  }

  method SwapInPlace(dst: array<byte>, a: nat, b: nat, n: nat)
    requires a + n <= b && b + n <= dst.Length
    modifies dst
    ensures dst[..] == SwapRun(old(dst[..]), a, b, n)
  {
    for i := 0 to n
      invariant forall x :: a <= x < a + i ==> dst[x] == old(dst[b + x - a])
      invariant forall x :: b <= x < b + i ==> dst[x] == old(dst[a + x - b])
      invariant forall x :: 0 <= x < dst.Length && !(a <= x < a + i) && !(b <= x < b + i) ==> dst[x] == old(dst[x])
    {
      dst[a + i], dst[b + i] := dst[b + i], dst[a + i];
    }
  }

  method XorInPlace(dst: array<byte>, to: nat, from: nat, n: nat)
    requires to + n <= dst.Length && from + n <= dst.Length
    requires to + n <= from || from + n <= to
    modifies dst
    ensures dst[..] == XorRun(old(dst[..]), to, from, n)
  {
    hide Xor8;
    for i := 0 to n
      invariant forall x :: to <= x < to + i ==> dst[x] == Xor8(old(dst[x]), old(dst[from + x - to]))
      invariant forall x :: 0 <= x < dst.Length && !(to <= x < to + i) ==> dst[x] == old(dst[x])
    {
      dst[to + i] := Xor8(dst[to + i], dst[from + i]);
    }
  }

  // ---- The key pool ----

  const COUNTER_RANGE := 0x1_0000_0000

  /** The pool index handed out by the j-th call after the counter read `start`. */
  function Pick(start: uint32, size: nat, j: nat): (i: nat)
    requires size > 0
    ensures i < size
  {
    (start + 1 + j) % COUNTER_RANGE % size
  }

  class KeyPool<K> {
    const keys: seq<K>
    var rsaIdx: uint32

    constructor (keys: seq<K>)
      ensures this.keys == keys && rsaIdx == 0
    {
      this.keys := keys;
      rsaIdx := 0;
    }

    method GetScrambledKey() returns (r: Result<K>)
      modifies this
      ensures keys == [] ==> r.Failure? && rsaIdx == old(rsaIdx)
      ensures keys != [] ==> rsaIdx == (old(rsaIdx) + 1) % 0x1_0000_0000 && r == Success(keys[rsaIdx % |keys|])
      ensures keys != [] ==> r == Success(keys[Pick(old(rsaIdx), |keys|, 0)])
      ensures keys != [] ==> forall j: nat :: Pick(rsaIdx, |keys|, j) == Pick(old(rsaIdx), |keys|, j + 1)
    {
      var poolLen := |keys|;
      if poolLen == 0 {
        return Failure("crypto: rsa pool is not initialized");
      }
      rsaIdx := (rsaIdx + 1) % COUNTER_RANGE;
      forall j: nat
        ensures Pick(rsaIdx, poolLen, j) == Pick(old(rsaIdx), poolLen, j + 1)
      {
        ModSum(old(rsaIdx) + 1, 1 + j, COUNTER_RANGE);
      }
      r := Success(keys[rsaIdx % poolLen]);
    }
  }

  /** `size` consecutive calls hand out every key, and none twice. */
  ghost predicate EachKeyOnce(start: uint32, size: nat)
    requires size > 0
  {
    && (forall i, j :: 0 <= i < j < size ==> Pick(start, size, i) != Pick(start, size, j))
    && (forall k :: 0 <= k < size ==> Reached(start, size, k))
  }

  ghost predicate Reached(start: uint32, size: nat, k: nat)
    requires size > 0
  {
    exists j: nat :: j < size && Pick(start, size, j) == k
  }

  /** Round robin is exact from every counter value, wraparound included, just when the pool size divides 2^32. */
  lemma RoundRobinExact(size: nat)
    requires size > 0
    ensures (forall start: uint32 :: EachKeyOnce(start, size)) <==> 0x1_0000_0000 % size == 0
  {
    if COUNTER_RANGE % size == 0 {
      forall start: uint32
        ensures EachKeyOnce(start, size)
      {
        DividingSizeExact(start, size);
      }
    } else {
      var start := WraparoundRepeats(size);
      assert !EachKeyOnce(start, size);
    }
  }

  lemma DividingSizeExact(start: uint32, size: nat)
    requires size > 0 && COUNTER_RANGE % size == 0
    ensures EachKeyOnce(start, size)
  {
    hide Pick;
    forall i, j | 0 <= i < j < size
      ensures Pick(start, size, i) != Pick(start, size, j)
    {
      PickIsMod(start, size, i);
      PickIsMod(start, size, j);
      DifferenceDivides(start + 1 + j, start + 1 + i, size);
      SmallMod(j - i, size);
    }
    forall k | 0 <= k < size
      ensures Reached(start, size, k)
    {
      var j := (k - (start + 1)) % size;
      PickIsMod(start, size, j);
      ModSum(k - (start + 1), start + 1, size);
      SmallMod(k, size);
    }
  }

  lemma PickIsMod(start: uint32, size: nat, j: nat)
    requires size > 0 && COUNTER_RANGE % size == 0
    ensures Pick(start, size, j) == (start + 1 + j) % size
  {
    ModOfMultiple(start + 1 + j, COUNTER_RANGE / size, size);
    assert COUNTER_RANGE / size * size == COUNTER_RANGE;
  }

  /** Otherwise the counter wraps in the middle of a round and the first key comes twice. */
  lemma WraparoundRepeats(size: nat) returns (start: uint32)
    requires size > 0 && COUNTER_RANGE % size != 0
    ensures Pick(start, size, 0) == 0 && Pick(start, size, COUNTER_RANGE % size) == 0
  {
    var r := COUNTER_RANGE % size;
    start := COUNTER_RANGE - r - 1 + (if r == COUNTER_RANGE then COUNTER_RANGE else 0);
    SmallMod(0, size);
    if r != COUNTER_RANGE {
      assert COUNTER_RANGE - r == COUNTER_RANGE / size * size + 0;
      ModUnique(COUNTER_RANGE - r, COUNTER_RANGE / size, size, 0);
    }
  }
}
