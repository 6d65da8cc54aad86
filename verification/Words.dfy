/** Bytes, fixed-width words, bitwise operations and little-endian packing. */
module Words {
  type byte = x: int | 0 <= x < 0x100
  type uint16 = x: int | 0 <= x < 0x1_0000
  type uint32 = x: int | 0 <= x < 0x1_0000_0000
  type uint64 = x: int | 0 <= x < 0x1_0000_0000_0000_0000
  type int16 = x: int | -0x8000 <= x < 0x8000
  type int32 = x: int | -0x8000_0000 <= x < 0x8000_0000
  type int64 = x: int | -0x8000_0000_0000_0000 <= x < 0x8000_0000_0000_0000

  /** A Go slice: positions lo..hi of a backing array. */
  datatype Slice = Slice(arr: array<byte>, lo: nat, hi: nat) {
    ghost predicate Valid() {
      lo <= hi <= arr.Length
    }

    function Len(): int {
      hi - lo
    }

    ghost function View(): (s: seq<byte>)
      requires Valid()
      reads arr
    {
      arr[..][lo..hi]
    }

    /** The rest of the backing array is as it was when it held `was`. */
    ghost predicate RestIs(was: seq<byte>)
      requires Valid() && |was| == arr.Length
      reads arr
    {
      arr[..][..lo] == was[..lo] && arr[..][hi..] == was[hi..]
    }
  }

  function Pow2(n: nat): (p: nat)
    ensures p >= 1
  {
    if n == 0 then 1 else 2 * Pow2(n - 1)
  }

  function Parity(d: nat, e: nat): nat { if d == e then 0 else 1 }

  /** Bitwise exclusive or, digit by digit. */
  function Xor(a: nat, b: nat): nat {
    if a == 0 && b == 0 then 0 else Parity(a % 2, b % 2) + 2 * Xor(a / 2, b / 2)
  }

  /** Bitwise or, digit by digit. */
  function Or(a: nat, b: nat): nat {
    if a == 0 && b == 0 then 0 else (if a % 2 + b % 2 > 0 then 1 else 0) + 2 * Or(a / 2, b / 2)
  }

  lemma {:induction false} XorBound(a: nat, b: nat, n: nat)
    requires a < Pow2(n) && b < Pow2(n)
    ensures Xor(a, b) < Pow2(n)
  {
    if n > 0 {
      XorBound(a / 2, b / 2, n - 1);
    }
  }

  lemma {:induction false} XorZero(a: nat)
    ensures Xor(a, 0) == a
  {
    if a > 0 {
      XorZero(a / 2);
    }
  }

  lemma {:induction false} XorCommutes(a: nat, b: nat)
    ensures Xor(a, b) == Xor(b, a)
  {
    if a > 0 || b > 0 {
      XorCommutes(a / 2, b / 2);
    }
  }

  lemma XorDigits(d: nat, e: nat, a: nat, b: nat)
    requires d < 2 && e < 2
    ensures Xor(d + 2 * a, e + 2 * b) == Parity(d, e) + 2 * Xor(a, b)
  {
    var (x, y) := (d + 2 * a, e + 2 * b);
    assert x / 2 == a && y / 2 == b && x % 2 == d && y % 2 == e;
  }

  lemma {:induction false} XorAssociates(a: nat, b: nat, c: nat)
    ensures Xor(Xor(a, b), c) == Xor(a, Xor(b, c))
    decreases a + b + c
  {
    hide Xor;
    if a == 0 && b == 0 && c == 0 {
      XorZero(0);
    } else {
      XorAssociates(a / 2, b / 2, c / 2);
      XorAssociatesStep(a % 2, b % 2, c % 2, a / 2, b / 2, c / 2);
    }
  }

  lemma XorAssociatesStep(d: nat, e: nat, f: nat, a: nat, b: nat, c: nat)
    requires d < 2 && e < 2 && f < 2
    requires Xor(Xor(a, b), c) == Xor(a, Xor(b, c))
    ensures Xor(Xor(d + 2 * a, e + 2 * b), f + 2 * c) == Xor(d + 2 * a, Xor(e + 2 * b, f + 2 * c))
  {
    hide Xor;
    XorDigits(d, e, a, b);
    XorDigits(e, f, b, c);
    XorDigits(Parity(d, e), f, Xor(a, b), c);
    XorDigits(d, Parity(e, f), a, Xor(b, c));
  }

  lemma {:induction false} XorSelf(a: nat, b: nat)
    ensures Xor(a, b) == 0 <==> a == b
    decreases a + b
  {
    if a > 0 || b > 0 {
      XorSelf(a / 2, b / 2);
    }
  }

  lemma XorCancels(a: nat, b: nat)
    ensures Xor(Xor(a, b), b) == a
  {
    XorAssociates(a, b, b);
    XorSelf(b, b);
    XorZero(a);
  }

  /** A mask of k binary digits leaves those above alone. */
  lemma {:induction false} XorLow(h: nat, a: nat, c: nat, k: nat)
    requires a < Pow2(k) && c < Pow2(k)
    ensures Xor(h * Pow2(k) + a, c) == h * Pow2(k) + Xor(a, c)
  {
    hide Xor;
    if k == 0 {
      XorZero(h);
      XorZero(0);
    } else {
      var (high, rest) := (h * Pow2(k - 1), h * Pow2(k - 1) + a / 2);
      assert h * Pow2(k) == 2 * high;
      XorLow(h, a / 2, c / 2, k - 1);
      XorDigits(a % 2, c % 2, rest, c / 2);
      XorDigits(a % 2, c % 2, a / 2, c / 2);
    }
  }

  lemma {:induction false} OrZero(a: nat, b: nat)
    ensures Or(a, b) == 0 <==> a == 0 && b == 0
    decreases a + b
  {
    if a > 0 || b > 0 {
      OrZero(a / 2, b / 2);
    }
  }

  lemma Widths()
    ensures Pow2(8) == 0x100 && Pow2(32) == 0x1_0000_0000
  {
    FourBits(0);
    FourBits(4);
    FourBits(8);
    FourBits(12);
    FourBits(16);
    FourBits(20);
    FourBits(24);
    FourBits(28);
    assert Pow2(0) == 1;
  }

  function Xor8(a: byte, b: byte): byte {
    Widths(); XorBound(a, b, 8);
    Xor(a, b)
  }

  function Xor32(a: uint32, b: uint32): uint32 {
    Widths(); XorBound(a, b, 32);
    Xor(a, b)
  }

  lemma Xor32Cancels(a: uint32, b: uint32)
    ensures Xor32(Xor32(a, b), b) == a
  {
    XorCancels(a, b);
  }

  function Add32(a: uint32, b: uint32): uint32 { (a + b) % 0x1_0000_0000 }

  function Sub32(a: uint32, b: uint32): uint32 { (a - b) % 0x1_0000_0000 }

  // ---- Two's complement: Go's conversions between intN and uintN ----

  function ToU16(v: int16): uint16 { v % 0x1_0000 }
  function ToU32(v: int32): uint32 { v % 0x1_0000_0000 }
  function ToU64(v: int64): uint64 { v % 0x1_0000_0000_0000_0000 }
  function ToI16(u: uint16): int16 { if u < 0x8000 then u else u - 0x1_0000 }
  function ToI32(u: uint32): int32 { if u < 0x8000_0000 then u else u - 0x1_0000_0000 }
  function ToI64(u: uint64): int64 { if u < 0x8000_0000_0000_0000 then u else u - 0x1_0000_0000_0000_0000 }

  // ---- Little-endian packing ----

  /** The number written in some bytes, least significant first. */
  function LittleEndian(b: seq<byte>): nat {
    if b == [] then 0 else b[0] + 0x100 * LittleEndian(b[1..])
  }

  function Le16(w: uint16): seq<byte> { [w % 256, w / 256] }

  function Le32(w: uint32): seq<byte> { Le16(w % 0x1_0000) + Le16(w / 0x1_0000) }

  function Le64(w: uint64): seq<byte> { Le32(w % 0x1_0000_0000) + Le32(w / 0x1_0000_0000) }

  function U16(lo: byte, hi: byte): uint16 { lo + 0x100 * hi }

  function U32(b0: byte, b1: byte, b2: byte, b3: byte): uint32 { U16(b0, b1) + 0x1_0000 * U16(b2, b3) }

  /** The word stored little-endian at position pos. */
  function Word(s: seq<byte>, pos: nat): uint32
    requires pos + 4 <= |s|
  {
    U32(s[pos], s[pos + 1], s[pos + 2], s[pos + 3])
  }

  /** s with the elements from position pos on overwritten by b. */
  function Splice<T>(s: seq<T>, pos: nat, b: seq<T>): (r: seq<T>)
    requires pos + |b| <= |s|
    ensures |r| == |s|
  {
    s[..pos] + b + s[pos + |b|..]
  }

  lemma SpliceAdjacent<T>(s: seq<T>, pos: nat, a: seq<T>, b: seq<T>)
    requires pos + |a| + |b| <= |s|
    ensures Splice(Splice(s, pos, a), pos + |a|, b) == Splice(s, pos, a + b)
  {
  }

  lemma SpliceParts<T>(s: seq<T>, pos: nat, b: seq<T>)
    requires pos + |b| <= |s|
    ensures var r := Splice(s, pos, b);
            r[..pos] == s[..pos] && r[pos..] == b + s[pos + |b|..] && r[pos + |b|..] == s[pos + |b|..] &&
            r[pos..pos + |b|] == b
  {
  }

  lemma SpliceBack<T>(s: seq<T>, pos: nat, b: seq<T>)
    requires pos + |b| <= |s|
    ensures Splice(Splice(s, pos, b), pos, s[pos..][..|b|]) == s
  {
  }

  lemma SpliceView<T>(s: seq<T>, lo: nat, hi: nat, offset: nat, b: seq<T>)
    requires lo + offset + |b| <= hi <= |s|
    ensures var r := Splice(s, lo + offset, b);
            r[lo..hi] == Splice(s[lo..hi], offset, b) && r[..lo] == s[..lo] && r[hi..] == s[hi..]
  {
  }

  lemma SpliceTwice<T>(s: seq<T>, pos: nat, a: seq<T>, b: seq<T>)
    requires |a| == |b| && pos + |b| <= |s|
    ensures Splice(Splice(s, pos, a), pos, b) == Splice(s, pos, b)
  {
  }

  lemma SplicePrefix<T>(s: seq<T>, pos: nat, b: seq<T>, end: nat)
    requires pos + |b| <= end <= |s|
    ensures Splice(s, pos, b)[..end] == Splice(s[..end], pos, b)
  {
  }

  function PutWord(s: seq<byte>, pos: nat, w: uint32): (r: seq<byte>)
    requires pos + 4 <= |s|
    ensures |r| == |s|
  {
    Splice(s, pos, Le32(w))
  }

  lemma Le16OfU16(b0: byte, b1: byte)
    ensures Le16(U16(b0, b1)) == [b0, b1]
  {
  }

  lemma U32OfLe32(w: uint32)
    ensures U32(Le32(w)[0], Le32(w)[1], Le32(w)[2], Le32(w)[3]) == w
  {
  }

  lemma U32Injective(a0: byte, a1: byte, a2: byte, a3: byte, b0: byte, b1: byte, b2: byte, b3: byte)
    requires U32(a0, a1, a2, a3) == U32(b0, b1, b2, b3)
    ensures a0 == b0 && a1 == b1 && a2 == b2 && a3 == b3
  {
    assert U16(a0, a1) == U16(b0, b1);
  }

  lemma Le32OfU32(b0: byte, b1: byte, b2: byte, b3: byte)
    ensures Le32(U32(b0, b1, b2, b3)) == [b0, b1, b2, b3]
  {
    var w := U32(b0, b1, b2, b3);
    var s := Le32(w);
    U32OfLe32(w);
    U32Injective(s[0], s[1], s[2], s[3], b0, b1, b2, b3);
  }

  lemma WordOfLe(pre: seq<byte>, w: uint32, post: seq<byte>)
    ensures |Le32(w)| == 4 && Word(pre + Le32(w) + post, |pre|) == w
  {
    U32OfLe32(w);
    var (b, s) := (Le32(w), pre + Le32(w) + post);
    assert forall i :: 0 <= i < 4 ==> s[|pre| + i] == b[i];
  }

  lemma PutOfWord(s: seq<byte>, pos: nat)
    requires pos + 4 <= |s|
    ensures PutWord(s, pos, Word(s, pos)) == s
  {
    Le32OfU32(s[pos], s[pos + 1], s[pos + 2], s[pos + 3]);
  }

  /** Writing a word is seen at its own position and nowhere else. */
  lemma WordOfPut(s: seq<byte>, pos: nat, w: uint32, at: nat)
    requires pos + 4 <= |s| && at + 4 <= |s|
    ensures Word(PutWord(s, pos, w), pos) == w
    ensures at + 4 <= pos || pos + 4 <= at ==> Word(PutWord(s, pos, w), at) == Word(s, at)
  {
    U32OfLe32(w);
  }

  method ReadWord(a: array<byte>, pos: nat) returns (w: uint32)
    requires pos + 4 <= a.Length
    ensures w == Word(a[..], pos)
  {
    w := U32(a[pos], a[pos + 1], a[pos + 2], a[pos + 3]);
  }

  method WriteWord(a: array<byte>, pos: nat, w: uint32)
    requires pos + 4 <= a.Length
    modifies a
    ensures a[..] == PutWord(old(a[..]), pos, w)
  {
    var b := Le32(w);
    a[pos], a[pos + 1], a[pos + 2], a[pos + 3] := b[0], b[1], b[2], b[3];
  }

  // ---- What the packed words mean ----

  lemma LittleEndianPair(a: byte, b: byte)
    ensures LittleEndian([a, b]) == a + 0x100 * b
  {
    assert [a, b][1..] == [b] && [b][1..] == [];
    assert LittleEndian([b]) == b + 0x100 * LittleEndian([]);
  }

  lemma {:induction false} LittleEndianConcat(a: seq<byte>, b: seq<byte>, p: nat)
    requires p == Pow2(8 * |a|)
    ensures LittleEndian(a + b) == LittleEndian(a) + p * LittleEndian(b)
  {
    if a == [] {
      assert a + b == b;
    } else {
      var q := Pow2(8 * |a[1..]|);
      EightBits(8 * |a[1..]|);
      LittleEndianConcat(a[1..], b, q);
      assert (a + b)[1..] == a[1..] + b;
      assert 0x100 * (q * LittleEndian(b)) == p * LittleEndian(b);
    }
  }

  lemma EightBits(n: nat)
    ensures Pow2(n + 8) == 0x100 * Pow2(n)
  {
    FourBits(n);
    FourBits(n + 4);
  }

  lemma FourBits(n: nat)
    ensures Pow2(n + 4) == 0x10 * Pow2(n)
  {
    assert Pow2(n + 1) == 2 * Pow2(n) && Pow2(n + 2) == 2 * Pow2(n + 1) && Pow2(n + 3) == 2 * Pow2(n + 2);
  }

  /** A packed word takes its full width, least significant byte first. */
  lemma PackedValues(v16: uint16, v32: uint32, v64: uint64)
    ensures |Le16(v16)| == 2 && LittleEndian(Le16(v16)) == v16
    ensures |Le32(v32)| == 4 && LittleEndian(Le32(v32)) == v32
    ensures |Le64(v64)| == 8 && LittleEndian(Le64(v64)) == v64
  {
    LittleEndianPair(v16 % 0x100, v16 / 0x100);
    Packed32(v32);
    Packed32(v64 % 0x1_0000_0000);
    Packed32(v64 / 0x1_0000_0000);
    Widths();
    LittleEndianConcat(Le32(v64 % 0x1_0000_0000), Le32(v64 / 0x1_0000_0000), 0x1_0000_0000);
  }

  lemma Packed32(w: uint32)
    ensures |Le32(w)| == 4 && LittleEndian(Le32(w)) == w
  {
    LittleEndianPair(w % 0x1_0000 % 0x100, w % 0x1_0000 / 0x100);
    LittleEndianPair(w / 0x1_0000 % 0x100, w / 0x1_0000 / 0x100);
    Widths();
    EightBits(8);
    LittleEndianConcat(Le16(w % 0x1_0000), Le16(w / 0x1_0000), 0x1_0000);
  }

  /** Reading a word is the same reading of its four bytes. */
  lemma WordValue(s: seq<byte>, pos: nat)
    requires pos + 4 <= |s|
    ensures Word(s, pos) == LittleEndian(s[pos..pos + 4])
  {
    Packed32(Word(s, pos));
    Le32OfU32(s[pos], s[pos + 1], s[pos + 2], s[pos + 3]);
    assert s[pos..pos + 4] == [s[pos], s[pos + 1], s[pos + 2], s[pos + 3]];
  }

  /** Two's complement: a negative number is written as what it lacks to the full range. */
  lemma TwosComplement(a: int16, b: int32, c: int64)
    ensures ToU16(a) == (if a < 0 then 0x1_0000 + a else a) && ToI16(ToU16(a)) == a
    ensures ToU32(b) == (if b < 0 then 0x1_0000_0000 + b else b) && ToI32(ToU32(b)) == b
    ensures ToU64(c) == (if c < 0 then 0x1_0000_0000_0000_0000 + c else c) && ToI64(ToU64(c)) == c
  {
  }
}
