/** pkg/crypto/blowfish_cipher.go: Blowfish with little-endian block packing.

    The initial P-array and S-boxes are parameters: nothing proved here depends on their values. */
module Blowfish {
  import opened Arithmetic
  import opened Words

  /** The abstract value of a cipher: eighteen subkeys and four S-boxes of 256 words. */
  datatype Tables = Tables(p: seq<uint32>, s: seq<seq<uint32>>)

  ghost predicate WellFormed(t: Tables) {
    |t.p| == 18 && |t.s| == 4 && forall b :: 0 <= b < 4 ==> |t.s[b]| == 256
  }

  type Schedule = t: Tables | WellFormed(t) ghost witness Tables(seq(18, i => 0), seq(4, b => seq(256, i => 0)))

  /** Byte number n of a word, counted from the least significant. */
  function ByteOf(x: uint32, n: nat): (b: byte)
    requires n < 4
  {
    Le32(x)[n]
  }

  ghost function F(k: Schedule, x: uint32): uint32 {
    Add32(Xor32(Add32(k.s[0][ByteOf(x, 3)], k.s[1][ByteOf(x, 2)]), k.s[2][ByteOf(x, 1)]), k.s[3][ByteOf(x, 0)])
  }

  /** The round function looks its argument up most significant byte first, one box to a byte. */
  lemma RoundBytes(k: Schedule, a: byte, b: byte, c: byte, d: byte)
    ensures var (h: int, i: int, j: int) := (a, b, c);
            var (p: int, q: int, r: int) := (k.s[0][a], k.s[1][b], k.s[3][d]);
            var mixed: int := Xor32((p + q) % 0x1_0000_0000, k.s[2][c]);
            F(k, 0x100_0000 * h + 0x1_0000 * i + 0x100 * j + d) == (mixed + r) % 0x1_0000_0000
  {
    hide Le32, Xor32;
    Le32OfU32(d, c, b, a);
  }

  ghost function RoundFn(k: Schedule): uint32 -> uint32 {
    x => F(k, x)
  }

  // ---- The textbook definition: a 16-round Feistel network by recursion ----

  /** The two halves after n rounds. One round adds a subkey to the left half, adds f of that to the right half and
      exchanges the halves. */
  ghost function Rounds(p: seq<uint32>, f: uint32 -> uint32, n: nat, l: uint32, r: uint32): (uint32, uint32)
    requires |p| == 18 && n <= 16
  {
    if n == 0 then (l, r)
    else
      var (a, b) := Rounds(p, f, n - 1, l, r);
      var c := Xor32(a, p[n - 1]);
      (Xor32(b, f(c)), c)
  }

  /** All rounds (two fewer than the subkeys, so sixteen), the last exchange undone, and the two output subkeys. */
  ghost function Feistel(p: seq<uint32>, f: uint32 -> uint32, l: uint32, r: uint32): (uint32, uint32)
    requires |p| == 18
  {
    var (a, b) := Rounds(p, f, |p| - 2, l, r);
    (Xor32(b, p[17]), Xor32(a, p[16]))
  }

  ghost function Reversed(p: seq<uint32>): (q: seq<uint32>)
    requires |p| == 18
  {
    seq(18, i requires 0 <= i < 18 => p[17 - i])
  }

  ghost function Enc(k: Schedule, l: uint32, r: uint32): (uint32, uint32) {
    Feistel(k.p, RoundFn(k), l, r)
  }

  ghost function Dec(k: Schedule, l: uint32, r: uint32): (uint32, uint32) {
    Feistel(Reversed(k.p), RoundFn(k), l, r)
  }

  /** Running j rounds with the subkeys reversed on an output walks the input rounds back. */
  lemma {:induction false} RoundsWalkBack(p: seq<uint32>, f: uint32 -> uint32, l: uint32, r: uint32, j: nat)
    requires |p| == 18 && j <= 16
    ensures var (x, y) := Feistel(p, f, l, r);
            var (a, b) := Rounds(p, f, 16 - j, l, r);
            Rounds(Reversed(p), f, j, x, y) == (Xor32(b, p[17 - j]), Xor32(a, p[16 - j]))
  {
    hide Xor32;
    if j > 0 {
      var (a, b) := Rounds(p, f, 16 - j, l, r);
      var c := Xor32(a, p[16 - j]);
      assert Rounds(p, f, 17 - j, l, r) == (Xor32(b, f(c)), c);
      RoundsWalkBack(p, f, l, r, j - 1);
      Xor32Cancels(c, p[18 - j]);
      MaskMovesOut(b, f(c), p[17 - j]);
    }
  }

  lemma MaskMovesOut(b: uint32, m: uint32, p: uint32)
    ensures Xor32(Xor32(Xor32(b, m), p), m) == Xor32(b, p)
  {
    XorAssociates(b, m, p);
    XorCommutes(m, p);
    XorAssociates(b, p, m);
    XorCancels(Xor(b, p), m);
  }

  lemma FeistelInverts(p: seq<uint32>, f: uint32 -> uint32, l: uint32, r: uint32)
    requires |p| == 18
    ensures var (x, y) := Feistel(p, f, l, r); Feistel(Reversed(p), f, x, y) == (l, r)
  {
    hide Xor32;
    RoundsWalkBack(p, f, l, r, 16);
    Xor32Cancels(l, p[0]);
    Xor32Cancels(r, p[1]);
  }

  lemma BlockRoundTrip(k: Schedule, l: uint32, r: uint32)
    ensures var (x, y) := Enc(k, l, r); Dec(k, x, y) == (l, r)
    ensures var (x, y) := Dec(k, l, r); Enc(k, x, y) == (l, r)
  {
    FeistelInverts(k.p, RoundFn(k), l, r);
    FeistelInverts(Reversed(k.p), RoundFn(k), l, r);
    assert Reversed(Reversed(k.p)) == k.p;
  }

  // ---- Electronic codebook over a byte range ----

  type BlockFn = (uint32, uint32) -> (uint32, uint32)

  ghost function EncFn(k: Schedule): BlockFn {
    (l, r) => Enc(k, l, r)
  }

  ghost function DecFn(k: Schedule): BlockFn {
    (l, r) => Dec(k, l, r)
  }

  ghost function MapBlock(g: BlockFn, s: seq<byte>, pos: nat): (b: seq<byte>)
    requires pos + 8 <= |s|
    ensures |b| == 8
  {
    var (x, y) := g(Word(s, pos), Word(s, pos + 4));
    Le32(x) + Le32(y)
  }

  /** The images of the first n blocks of s. */
  ghost function Blocks(g: BlockFn, s: seq<byte>, n: nat): (b: seq<byte>)
    requires 8 * n <= |s|
    ensures |b| == 8 * n
  {
    if n == 0 then [] else Blocks(g, s, n - 1) + MapBlock(g, s, 8 * (n - 1))
  }

  /** A buffer with n blocks from position base on mapped. */
  ghost function MapFrom(g: BlockFn, s: seq<byte>, base: nat, n: nat): (b: seq<byte>)
    requires base + 8 * n <= |s|
    ensures |b| == |s|
  {
    Splice(s, base, Blocks(g, s[base..], n))
  }

  /** A range of a buffer mapped block by block; an unusable range leaves the buffer alone. */
  ghost function MapRange(g: BlockFn, s: seq<byte>, offset: int, length: int): (b: seq<byte>)
    ensures |b| == |s|
  {
    if offset < 0 || length <= 0 || offset + length > |s| then s else MapFrom(g, s, offset, length / 8)
  }

  lemma {:induction false} BlocksOfPrefix(g: BlockFn, s: seq<byte>, t: seq<byte>, n: nat)
    requires 8 * n <= |s| && s <= t
    ensures Blocks(g, t, n) == Blocks(g, s, n)
  {
    if n > 0 {
      BlocksOfPrefix(g, s, t, n - 1);
    }
  }

  ghost predicate Inverts(h: BlockFn, g: BlockFn) {
    forall l: uint32, r: uint32 :: h(g(l, r).0, g(l, r).1) == (l, r)
  }

  lemma MapBlockInverts(g: BlockFn, h: BlockFn, s: seq<byte>, pos: nat, t: seq<byte>)
    requires Inverts(h, g) && pos + 8 <= |s| && pos + 8 <= |t|
    requires t[pos..pos + 8] == MapBlock(g, s, pos)
    ensures MapBlock(h, t, pos) == s[pos..pos + 8]
  {
    var (x, y) := g(Word(s, pos), Word(s, pos + 4));
    U32OfLe32(x);
    U32OfLe32(y);
    forall i | 0 <= i < 4
      ensures t[pos + i] == Le32(x)[i] && t[pos + 4 + i] == Le32(y)[i]
    {
      assert t[pos + i] == t[pos..pos + 8][i] && t[pos + 4 + i] == t[pos..pos + 8][4 + i];
    }
    assert Word(t, pos) == x && Word(t, pos + 4) == y;
    Le32OfU32(s[pos], s[pos + 1], s[pos + 2], s[pos + 3]);
    Le32OfU32(s[pos + 4], s[pos + 5], s[pos + 6], s[pos + 7]);
  }

  lemma {:induction false} BlocksInvert(g: BlockFn, h: BlockFn, s: seq<byte>, n: nat)
    requires Inverts(h, g) && 8 * n <= |s|
    ensures Blocks(h, Blocks(g, s, n), n) == s[..8 * n]
  {
    hide MapBlock;
    if n > 0 {
      var (m, at) := (n - 1, 8 * (n - 1));
      var (init, last) := (Blocks(g, s, m), MapBlock(g, s, at));
      var t := init + last;
      BlocksInvert(g, h, s, m);
      BlocksOfPrefix(h, init, t, m);
      assert t[at..at + 8] == last && Blocks(g, s, n) == t;
      MapBlockInverts(g, h, s, at, t);
      hide Inverts;
      assert Blocks(h, t, n) == Blocks(h, t, m) + MapBlock(h, t, at) == s[..at] + s[at..at + 8] == s[..8 * n];
    }
  }

  lemma MapFromInverts(g: BlockFn, h: BlockFn, s: seq<byte>, base: nat, n: nat)
    requires Inverts(h, g) && base + 8 * n <= |s|
    ensures MapFrom(h, MapFrom(g, s, base, n), base, n) == s
  {
    var b := Blocks(g, s[base..], n);
    BlocksInvert(g, h, s[base..], n);
    SpliceParts(s, base, b);
    BlocksOfPrefix(h, b, MapFrom(g, s, base, n)[base..], n);
    SpliceBack(s, base, b);
  }

  lemma CipherInverts(k: Schedule)
    ensures Inverts(DecFn(k), EncFn(k)) && Inverts(EncFn(k), DecFn(k))
  {
    forall l: uint32, r: uint32
      ensures DecFn(k)(EncFn(k)(l, r).0, EncFn(k)(l, r).1) == (l, r)
      ensures EncFn(k)(DecFn(k)(l, r).0, DecFn(k)(l, r).1) == (l, r)
    {
      BlockRoundTrip(k, l, r);
    }
  }

  /** Deciphering a range undoes enciphering it, and the other way round, for every schedule, buffer, offset and length,
      usable or not. */
  lemma RangeRoundTrip(k: Schedule, s: seq<byte>, offset: int, length: int)
    ensures MapRange(DecFn(k), MapRange(EncFn(k), s, offset, length), offset, length) == s
    ensures MapRange(EncFn(k), MapRange(DecFn(k), s, offset, length), offset, length) == s
  {
    hide EncFn, DecFn, MapFrom, Inverts;
    CipherInverts(k);
    if 0 <= offset && 0 < length && offset + length <= |s| {
      var n := length / 8;
      MapFromInverts(EncFn(k), DecFn(k), s, offset, n);
      MapFromInverts(DecFn(k), EncFn(k), s, offset, n);
    }
  }

  /** Bytes outside the whole blocks of a range never change, and neither does the length. */
  lemma RangeOutside(g: BlockFn, s: seq<byte>, offset: int, length: int, i: nat)
    requires i < |s| && !(offset <= i < offset + 8 * (length / 8))
    ensures MapRange(g, s, offset, length)[i] == s[i]
  {
    hide Blocks;
  }

  /** Within the range each block is enciphered by itself: two little-endian words in, their images out. */
  lemma {:induction false} RangeBlock(g: BlockFn, s: seq<byte>, offset: nat, length: nat, j: nat)
    requires offset + length <= |s| && 8 * j + 8 <= length
    ensures var (r, at) := (MapRange(g, s, offset, length), offset + 8 * j);
            var (x, y) := g(Word(s, at), Word(s, at + 4));
            r[at..at + 8] == Le32(x) + Le32(y)
  {
    hide Word, Le32, Blocks, Splice;
    var (at, n) := (offset + 8 * j, length / 8);
    BlockAmong(g, s[offset..], n, j);
    var blocks := Blocks(g, s[offset..], n);
    SpliceParts(s, offset, blocks);
    assert MapRange(g, s, offset, length)[offset..][8 * j..8 * j + 8] == blocks[8 * j..8 * j + 8];
    assert s[offset..][8 * j..] == s[at..];
    MapBlockMoves(g, s[offset..], 8 * j, s, at);
  }

  lemma {:induction false} BlockAmong(g: BlockFn, s: seq<byte>, n: nat, j: nat)
    requires j < n && 8 * n <= |s|
    ensures Blocks(g, s, n)[8 * j..8 * j + 8] == MapBlock(g, s, 8 * j)
  {
    hide MapBlock;
    if j < n - 1 {
      BlockAmong(g, s, n - 1, j);
      assert Blocks(g, s, n)[8 * j..8 * j + 8] == Blocks(g, s, n - 1)[8 * j..8 * j + 8];
    }
  }

  // ---- The unrolled code ----

  /** Where the unrolled code stands after n rounds: one half already carries the next subkey. */
  ghost predicate At(p: seq<uint32>, f: uint32 -> uint32, l: uint32, r: uint32, n: nat, c: uint32, b: uint32)
    requires |p| == 18
  {
    n <= 16 && c == Xor32(Rounds(p, f, n, l, r).0, p[n]) && b == Rounds(p, f, n, l, r).1
  }

  lemma FirstSubkey(p: seq<uint32>, f: uint32 -> uint32, l: uint32, r: uint32)
    requires |p| == 18
    ensures At(p, f, l, r, 0, Xor32(l, p[0]), r)
  {
  }

  lemma LastSubkeys(p: seq<uint32>, f: uint32 -> uint32, l: uint32, r: uint32, c: uint32, b: uint32)
    requires |p| == 18 && At(p, f, l, r, |p| - 2, c, b)
    ensures Feistel(p, f, l, r) == (Xor32(b, p[17]), c)
  {
  }

  lemma RoundStep(p: seq<uint32>, f: uint32 -> uint32, l: uint32, r: uint32, n: nat, c: uint32, b: uint32)
    returns (m: nat)
    requires |p| == 18 && n < 16 && At(p, f, l, r, n, c, b)
    ensures m == n + 1 && At(p, f, l, r, m, Xor32(b, Xor32(f(c), p[m])), c)
  {
    m := n + 1;
    XorAssociates(b, f(c), p[m]);
  }

  /** The halves one after the other: each one is the one before the last, masked with f of the last and the next subkey. */
  ghost predicate Chained(p: seq<uint32>, f: uint32 -> uint32, w: seq<uint32>)
    requires |p| == 18 && 2 <= |w| <= 18
  {
    forall i :: 1 <= i < |w| - 1 ==> w[i + 1] == Xor32(w[i - 1], Xor32(f(w[i]), p[i]))
  }

  lemma {:induction false} HalvesChained(p: seq<uint32>, f: uint32 -> uint32, l: uint32, r: uint32, n: nat)
    returns (w: seq<uint32>)
    requires |p| == 18 && n <= 16
    ensures |w| == n + 2 && w[0] == r && w[1] == Xor32(l, p[0]) && Chained(p, f, w) && At(p, f, l, r, n, w[n + 1], w[n])
  {
    if n == 0 {
      w := [r, Xor32(l, p[0])];
    } else {
      hide At, Xor32;
      var v := HalvesChained(p, f, l, r, n - 1);
      var m := RoundStep(p, f, l, r, n - 1, v[n], v[n - 1]);
      w := v + [Xor32(v[n - 1], Xor32(f(v[n]), p[n]))];
    }
  }

  lemma FeistelChained(p: seq<uint32>, f: uint32 -> uint32, l: uint32, r: uint32) returns (w: seq<uint32>)
    requires |p| == 18
    ensures |w| == 18 && w[0] == r && w[1] == Xor32(l, p[0]) && Chained(p, f, w)
    ensures Feistel(p, f, l, r) == (Xor32(w[16], p[17]), w[17])
  {
    hide At, Xor32, Feistel, Chained;
    w := HalvesChained(p, f, l, r, 16);
    LastSubkeys(p, f, l, r, w[17], w[16]);
  }

  /** Enciphering and deciphering a block, without rounds: the halves e and d, with the subkeys first to last and last to
      first. */
  lemma BlockChained(k: Schedule, l: uint32, r: uint32) returns (e: seq<uint32>, d: seq<uint32>)
    ensures |e| == |d| == 18
    ensures e[0] == r && e[1] == Xor32(l, k.p[0]) && Enc(k, l, r) == (Xor32(e[16], k.p[17]), e[17])
    ensures forall i :: 1 <= i <= 16 ==> e[i + 1] == Xor32(e[i - 1], Xor32(F(k, e[i]), k.p[i]))
    ensures d[0] == r && d[1] == Xor32(l, k.p[17]) && Dec(k, l, r) == (Xor32(d[16], k.p[0]), d[17])
    ensures forall i :: 1 <= i <= 16 ==> d[i + 1] == Xor32(d[i - 1], Xor32(F(k, d[i]), k.p[17 - i]))
  {
    hide Xor32, Feistel, F;
    e := FeistelChained(k.p, RoundFn(k), l, r);
    d := FeistelChained(Reversed(k.p), RoundFn(k), l, r);
  }

  lemma MapFromStep(g: BlockFn, was: seq<byte>, base: nat, n: nat)
    requires base + 8 * n + 8 <= |was|
    ensures var now := MapFrom(g, was, base, n);
            MapFrom(g, was, base, n + 1) == Splice(now, base + 8 * n, MapBlock(g, now, base + 8 * n))
  {
    hide MapBlock, Splice;
    var now := MapFrom(g, was, base, n);
    SpliceParts(was, base, Blocks(g, was[base..], n));
    MapBlockMoves(g, now, base + 8 * n, was[base..], 8 * n);
    SpliceAdjacent(was, base, Blocks(g, was[base..], n), MapBlock(g, now, base + 8 * n));
  }

  lemma MapBlockMoves(g: BlockFn, s: seq<byte>, i: nat, t: seq<byte>, j: nat)
    requires i + 8 <= |s| && j + 8 <= |t| && s[i..] == t[j..]
    ensures MapBlock(g, s, i) == MapBlock(g, t, j)
  {
    assert forall d :: 0 <= d < 8 ==> s[i..][d] == t[j..][d];
  }

  lemma MapFromView(g: BlockFn, was: seq<byte>, lo: nat, hi: nat, offset: nat, n: nat)
    requires lo + offset + 8 * n <= hi <= |was|
    ensures var now := MapFrom(g, was, lo + offset, n);
            now[lo..hi] == MapFrom(g, was[lo..hi], offset, n) && now[..lo] == was[..lo] && now[hi..] == was[hi..]
  {
    var (view, base) := (was[lo..hi], lo + offset);
    assert view[offset..] <= was[base..];
    BlocksOfPrefix(g, view[offset..], was[base..], n);
    SpliceView(was, lo, hi, offset, Blocks(g, was[base..], n));
  }

  lemma MapFromNone(g: BlockFn, was: seq<byte>, base: nat)
    requires base <= |was|
    ensures MapFrom(g, was, base, 0) == was
  {
  }

  lemma RangeUnusable(g: BlockFn, data: Slice, offset: int, length: int)
    requires data.Valid() && (offset < 0 || length <= 0 || offset + length > data.Len())
    ensures data.View() == MapRange(g, data.View(), offset, length) && data.RestIs(data.arr[..])
  {
  }

  lemma RangeMapped(g: BlockFn, data: Slice, was: seq<byte>, offset: nat, length: nat)
    requires data.Valid() && |was| == data.arr.Length && 0 < length && offset + length <= data.Len()
    requires data.arr[..] == MapFrom(g, was, data.lo + offset, length / 8)
    ensures data.View() == MapRange(g, was[data.lo..data.hi], offset, length) && data.RestIs(was)
  {
    hide MapFrom;
    MapFromView(g, was, data.lo, data.hi, offset, length / 8);
  }

  // ---- The key schedule ----

  /** The four key bytes mixed into subkey i, most significant first; the key is used cyclically. */
  ghost function KeyWord(key: seq<byte>, i: nat): uint32
    requires key != []
  {
    var n := |key|;
    U32(key[(4 * i + 3) % n], key[(4 * i + 2) % n], key[(4 * i + 1) % n], key[4 * i % n])
  }

  ghost function MixKey(t: Schedule, key: seq<byte>): Schedule
    requires key != []
  {
    t.(p := seq(18, i requires 0 <= i < 18 => Xor32(t.p[i], KeyWord(key, i))))
  }

  /** Pair number j of the tables: nine pairs of subkeys, then 128 pairs in each S-box. */
  ghost function PutPair(t: Schedule, j: nat, l: uint32, r: uint32): Schedule
    requires j < 9 + 128 * 4
  {
    if j < 9 then t.(p := Splice(t.p, 2 * j, [l, r]))
    else
      var (box, i) := ((j - 9) / 128, 2 * ((j - 9) % 128));
      t.(s := t.s[box := Splice(t.s[box], i, [l, r])])
  }

  /** The tables and the running block after n pairs: each pair is the previous one enciphered under the tables as they
      then stand. */
  ghost function Expand(t: Schedule, n: nat): (Schedule, uint32, uint32)
    requires n <= 9 + 128 * 4
  {
    if n == 0 then (t, 0, 0)
    else
      var (k, l, r) := Expand(t, n - 1);
      var (x, y) := Enc(k, l, r);
      (PutPair(k, n - 1, x, y), x, y)
  }

  /** The Blowfish key schedule; an empty key leaves the initial tables. */
  ghost function KeySchedule(init: Schedule, key: seq<byte>): Schedule {
    if key == [] then init else Expand(MixKey(init, key), 9 + 128 * |init.s|).0
  }

  /** Only the first 72 bytes of the cyclic key matter. */
  lemma KeyBytesUsed(init: Schedule, a: seq<byte>, b: seq<byte>)
    requires a != [] && b != []
    requires forall t :: 0 <= t < 72 ==> a[t % |a|] == b[t % |b|]
    ensures KeySchedule(init, a) == KeySchedule(init, b)
  {
    hide Expand;
    forall i | 0 <= i < 18
      ensures KeyWord(a, i) == KeyWord(b, i)
    {
      assert 4 * i + 3 < 72;
    }
    assert MixKey(init, a) == MixKey(init, b);
  }

  // ---- The finished tables, without the schedule's own steps ----

  /** Pair number j of some tables. */
  ghost function PairAt(t: Schedule, j: nat): (uint32, uint32)
    requires j < 521
  {
    if j < 9 then (t.p[2 * j], t.p[2 * j + 1])
    else
      var (box, i) := ((j - 9) / 128, 2 * ((j - 9) % 128));
      (t.s[box][i], t.s[box][i + 1])
  }

  /** Tables with t's entries in the pairs below j and m's from there on. */
  ghost function Upto(t: Schedule, m: Schedule, j: nat): Schedule {
    Tables(seq(18, i requires 0 <= i < 18 => if i / 2 < j then t.p[i] else m.p[i]),
           seq(4, b requires 0 <= b < 4 =>
             seq(256, i requires 0 <= i < 256 => if 9 + 128 * b + i / 2 < j then t.s[b][i] else m.s[b][i])))
  }

  /** Pair j is the one before it, or zeros, enciphered under the tables finished below j. */
  ghost predicate FixedAt(t: Schedule, m: Schedule, j: nat)
    requires j < 521
  {
    var (l, r) := if j == 0 then (0, 0) else PairAt(t, j - 1);
    PairAt(t, j) == Enc(Upto(t, m, j), l, r)
  }

  /** The key schedule by its result. The initial subkeys are masked with the key's bytes, four to a subkey, most
      significant first, over and over. Then every pair of the finished tables is the pair before it, starting from zeros,
      enciphered under the tables whose earlier pairs are finished and whose others are not. */
  lemma ScheduleFixed(init: Schedule, key: seq<byte>) returns (m: Schedule)
    requires key != []
    ensures m.s == init.s
    ensures forall i :: 0 <= i < 18 ==> m.p[i] == Xor32(init.p[i], CyclicWord(key, i))
    ensures forall j :: 0 <= j < 521 ==> FixedAt(KeySchedule(init, key), m, j)
  {
    m := MixKey(init, key);
    forall i | 0 <= i < 18
      ensures m.p[i] == Xor32(init.p[i], CyclicWord(key, i))
    {
      CyclicKeyWord(key, i);
    }
    var t := KeySchedule(init, key);
    assert t == Expand(m, 521).0;
    hide Expand, FixedAt, MixKey, KeySchedule;
    forall j | 0 <= j < 521
      ensures FixedAt(t, m, j)
    {
      PairFixed(m, t, j);
    }
  }

  /** Four bytes of the key in a row, wrapping at its end, as a big-endian number. */
  ghost function CyclicWord(key: seq<byte>, i: nat): uint32
    requires key != []
  {
    var (a: int, b: int) := (key[4 * i % |key|], key[(4 * i + 1) % |key|]);
    var (c: int, d: int) := (key[(4 * i + 2) % |key|], key[(4 * i + 3) % |key|]);
    0x100_0000 * a + 0x1_0000 * b + 0x100 * c + d
  }

  lemma CyclicKeyWord(key: seq<byte>, i: nat)
    requires key != []
    ensures KeyWord(key, i) == CyclicWord(key, i)
  {
  }

  lemma PairFixed(m: Schedule, t: Schedule, j: nat)
    requires j < 521 && t == Expand(m, 521).0
    ensures FixedAt(t, m, j)
  {
    hide Enc, PairAt, Upto, PutPair;
    Frozen(m, j, 521);
    Frozen(m, j + 1, 521);
    LastPair(m, j + 1);
    PairUpto(t, m, j, j + 1);
    if j == 0 {
      assert Expand(m, 0) == (m, 0, 0);
    } else {
      LastPair(m, j);
      PairUpto(t, m, j - 1, j);
    }
    assert Expand(m, j + 1) == var (k, l, r) := Expand(m, j); var (x, y) := Enc(k, l, r); (PutPair(k, j, x, y), x, y);
  }

  lemma PairUpto(t: Schedule, m: Schedule, i: nat, j: nat)
    requires i < j <= 521
    ensures PairAt(Upto(t, m, j), i) == PairAt(t, i)
  {
  }

  lemma PairOfPut(t: Schedule, j: nat, l: uint32, r: uint32)
    requires j < 521
    ensures PairAt(PutPair(t, j, l, r), j) == (l, r)
  {
  }

  /** The running block is the pair just stored. */
  lemma LastPair(m: Schedule, n: nat)
    requires 0 < n <= 521
    ensures var (k, l, r) := Expand(m, n); PairAt(k, n - 1) == (l, r)
  {
    hide PairAt, PutPair, Enc;
    var (k, l, r) := Expand(m, n - 1);
    var (x, y) := Enc(k, l, r);
    PairOfPut(k, n - 1, x, y);
  }

  /** Later steps leave the pairs below n alone, and the others are untouched until then. */
  lemma {:induction false} Frozen(m: Schedule, n: nat, stop: nat)
    requires n <= stop <= 521
    ensures Expand(m, n).0 == Upto(Expand(m, stop).0, m, n)
    decreases stop
  {
    hide Upto, PutPair, Enc;
    if stop == 0 {
      assert Expand(m, 0).0 == m;
      UptoNone(m, m);
    } else {
      var (k, l, r) := Expand(m, stop - 1);
      var (x, y) := Enc(k, l, r);
      assert Expand(m, stop).0 == PutPair(k, stop - 1, x, y);
      if n < stop {
        Frozen(m, n, stop - 1);
        UptoPut(k, m, n, stop - 1, x, y);
      } else {
        Frozen(m, stop - 1, stop - 1);
        UptoNext(k, m, stop - 1, x, y);
      }
    }
  }

  lemma UptoNone(t: Schedule, m: Schedule)
    ensures Upto(t, m, 0) == m
  {
    assert Upto(t, m, 0).p == m.p;
    assert forall b :: 0 <= b < 4 ==> Upto(t, m, 0).s[b] == m.s[b];
  }

  lemma UptoPut(k: Schedule, m: Schedule, n: nat, j: nat, l: uint32, r: uint32)
    requires n <= j < 521
    ensures Upto(PutPair(k, j, l, r), m, n) == Upto(k, m, n)
  {
    var t := PutPair(k, j, l, r);
    assert Upto(t, m, n).p == Upto(k, m, n).p;
    forall b | 0 <= b < 4
      ensures Upto(t, m, n).s[b] == Upto(k, m, n).s[b]
    {
      forall i | 0 <= i < 256
        ensures Upto(t, m, n).s[b][i] == Upto(k, m, n).s[b][i]
      {
      }
    }
  }

  lemma UptoNext(k: Schedule, m: Schedule, j: nat, l: uint32, r: uint32)
    requires j < 521 && k == Upto(k, m, j)
    ensures var t := PutPair(k, j, l, r); t == Upto(t, m, j + 1)
  {
    var t := PutPair(k, j, l, r);
    assert t.p == Upto(t, m, j + 1).p;
    forall b | 0 <= b < 4
      ensures t.s[b] == Upto(t, m, j + 1).s[b]
    {
      forall i | 0 <= i < 256
        ensures t.s[b][i] == Upto(t, m, j + 1).s[b][i]
      {
        assert k.s[b][i] == Upto(k, m, j).s[b][i];
      }
    }
  }

  ghost function Repeat<T>(s: seq<T>, times: nat): (r: seq<T>)
    ensures |r| == times * |s|
  {
    if times == 0 then [] else Repeat(s, times - 1) + s
  }

  lemma {:induction false} RepeatAt<T>(s: seq<T>, times: nat, x: nat)
    requires s != [] && x < times * |s|
    ensures Repeat(s, times)[x] == s[x % |s|]
  {
    var (n, q) := (|s|, times - 1);
    assert times * n == q * n + n;
    if x < q * n {
      RepeatAt(s, q, x);
    } else {
      ModUnique(x, q, n, x - q * n);
    }
  }

  /** A non-empty key written out any number of times builds the same cipher. */
  lemma RepeatedKey(init: Schedule, key: seq<byte>, times: nat)
    requires key != [] && times > 0
    ensures KeySchedule(init, Repeat(key, times)) == KeySchedule(init, key)
  {
    var long := Repeat(key, times);
    MulAtLeast(times, |key|);
    forall t: nat
      ensures long[t % |long|] == key[t % |key|]
    {
      RepeatAt(key, times, t % |long|);
      ModOfMultiple(t, times, |key|);
    }
    KeyBytesUsed(init, long, key);
  }

  /** The first j of the four key bytes of subkey i, shifted in from the right. */
  ghost function KeyPrefix(key: seq<byte>, i: nat, j: nat): (w: nat)
    requires key != [] && j <= 4
    ensures w < [1, 0x100, 0x1_0000, 0x100_0000, 0x1_0000_0000][j]
  {
    if j == 0 then 0 else 0x100 * KeyPrefix(key, i, j - 1) + key[(4 * i + j - 1) % |key|]
  }

  lemma KeyPrefixStep(key: seq<byte>, i: nat, j: nat)
    requires key != [] && j < 4
    ensures 0x100 * KeyPrefix(key, i, j) < 0x1_0000_0000
    ensures KeyPrefix(key, i, j + 1) == 0x100 * KeyPrefix(key, i, j) + key[(4 * i + j) % |key|] < 0x1_0000_0000
  {
  }

  lemma KeyPrefixStart(key: seq<byte>, i: nat)
    requires key != []
    ensures KeyPrefix(key, i, 0) == 0
  {
  }

  lemma KeyPrefixFull(key: seq<byte>, i: nat)
    requires key != []
    ensures KeyPrefix(key, i, 4) == KeyWord(key, i)
  {
    assert KeyPrefix(key, i, 3) == 0x100 * KeyPrefix(key, i, 2) + key[(4 * i + 2) % |key|];
    assert KeyPrefix(key, i, 2) == 0x100 * KeyPrefix(key, i, 1) + key[(4 * i + 1) % |key|];
    assert KeyPrefix(key, i, 1) == key[4 * i % |key|];
  }

  lemma PairIndex(box: nat, i: nat)
    requires i < 128
    ensures (128 * box + i) / 128 == box && (128 * box + i) % 128 == i
  {
  }

  /** Packs the next four key bytes, wrapping the index at the end of the key. */
  method NextKeyWord(key: seq<byte>, ghost i: nat, start: nat) returns (data: uint32, keyIndex: nat)
    requires key != [] && start == 4 * i % |key|
    ensures data == KeyWord(key, i)
    ensures keyIndex == 4 * (i + 1) % |key|
  {
    hide KeyPrefix, KeyWord;
    data, keyIndex := 0, start;
    KeyPrefixStart(key, i);
    for j := 0 to 4
      invariant keyIndex == (4 * i + j) % |key|
      invariant data == KeyPrefix(key, i, j)
    {
      KeyPrefixStep(key, i, j);
      ModNext(4 * i + j, |key|);
      data := data * 0x100 % 0x1_0000_0000 + key[keyIndex];
      keyIndex := keyIndex + 1;
      if keyIndex >= |key| {
        keyIndex := 0;
      }
    }
    KeyPrefixFull(key, i);
    assert 4 * i + 4 == 4 * (i + 1);
  }

  class BlowfishCipher {
    const pArray: array<uint32>
    const sBoxes: array2<uint32>

    ghost predicate Valid()
      reads this
    {
      pArray.Length == 18 && sBoxes.Length0 == 4 && sBoxes.Length1 == 256
    }

    ghost function Box(b: nat): (s: seq<uint32>)
      requires Valid() && b < 4
      reads this, sBoxes
    {
      seq(256, i requires 0 <= i < 256 reads this, sBoxes requires Valid() => sBoxes[b, i])
    }

    ghost function Value(): (k: Schedule)
      requires Valid()
      reads this, pArray, sBoxes
    {
      Tables(pArray[..], [Box(0), Box(1), Box(2), Box(3)])
    }

    function RoundF(x: uint32): (y: uint32)
      requires Valid()
      reads this, pArray, sBoxes
      ensures y == F(Value(), x)
    {
      var a := ByteOf(x, 3);
      var b := ByteOf(x, 2);
      var c := ByteOf(x, 1);
      var d := ByteOf(x, 0);
      Add32(Xor32(Add32(sBoxes[0, a], sBoxes[1, b]), sBoxes[2, c]), sBoxes[3, d])
    }

    /** One line of the unrolled code: x ^= f(y) ^ subkey. */
    function Mix(ghost k: Schedule, x: uint32, y: uint32, subkey: nat): (z: uint32)
      requires Valid() && k == Value() && subkey < 18
      reads this, pArray, sBoxes
      ensures z == Xor32(x, Xor32(RoundFn(k)(y), k.p[subkey]))
    {
      Xor32(x, Xor32(RoundF(y), pArray[subkey]))
    }

    method EncryptBlock(l: uint32, r: uint32) returns (yl: uint32, yr: uint32)
      requires Valid()
      ensures (yl, yr) == Enc(Value(), l, r)
    {
      ghost var k := Value();
      ghost var (p, f, n) := (k.p, RoundFn(k), 0);
      hide Value, F, RoundFn, At, Feistel, Xor32, Reversed, Rounds, Mix, RoundF;
      FirstSubkey(p, f, l, r);
      var xl, xr := l, r;
      xl := Xor32(xl, pArray[0]);
      n := RoundStep(p, f, l, r, n, xl, xr); xr := Mix(k, xr, xl, 1);
      n := RoundStep(p, f, l, r, n, xr, xl); xl := Mix(k, xl, xr, 2);
      n := RoundStep(p, f, l, r, n, xl, xr); xr := Mix(k, xr, xl, 3);
      n := RoundStep(p, f, l, r, n, xr, xl); xl := Mix(k, xl, xr, 4);
      n := RoundStep(p, f, l, r, n, xl, xr); xr := Mix(k, xr, xl, 5);
      n := RoundStep(p, f, l, r, n, xr, xl); xl := Mix(k, xl, xr, 6);
      n := RoundStep(p, f, l, r, n, xl, xr); xr := Mix(k, xr, xl, 7);
      n := RoundStep(p, f, l, r, n, xr, xl); xl := Mix(k, xl, xr, 8);
      n := RoundStep(p, f, l, r, n, xl, xr); xr := Mix(k, xr, xl, 9);
      n := RoundStep(p, f, l, r, n, xr, xl); xl := Mix(k, xl, xr, 10);
      n := RoundStep(p, f, l, r, n, xl, xr); xr := Mix(k, xr, xl, 11);
      n := RoundStep(p, f, l, r, n, xr, xl); xl := Mix(k, xl, xr, 12);
      n := RoundStep(p, f, l, r, n, xl, xr); xr := Mix(k, xr, xl, 13);
      n := RoundStep(p, f, l, r, n, xr, xl); xl := Mix(k, xl, xr, 14);
      n := RoundStep(p, f, l, r, n, xl, xr); xr := Mix(k, xr, xl, 15);
      n := RoundStep(p, f, l, r, n, xr, xl); xl := Mix(k, xl, xr, 16);
      LastSubkeys(p, f, l, r, xl, xr);
      xr := Xor32(xr, pArray[17]);
      yl, yr := xr, xl;
    }

    method DecryptBlock(l: uint32, r: uint32) returns (yl: uint32, yr: uint32)
      requires Valid()
      ensures (yl, yr) == Dec(Value(), l, r)
    {
      ghost var k := Value();
      ghost var (p, f, n) := (Reversed(k.p), RoundFn(k), 0);
      hide Value, F, RoundFn, At, Feistel, Xor32, Reversed, Rounds, Mix, RoundF;
      FirstSubkey(p, f, l, r);
      var xl, xr := l, r;
      xl := Xor32(xl, pArray[17]);
      n := RoundStep(p, f, l, r, n, xl, xr); xr := Mix(k, xr, xl, 16);
      n := RoundStep(p, f, l, r, n, xr, xl); xl := Mix(k, xl, xr, 15);
      n := RoundStep(p, f, l, r, n, xl, xr); xr := Mix(k, xr, xl, 14);
      n := RoundStep(p, f, l, r, n, xr, xl); xl := Mix(k, xl, xr, 13);
      n := RoundStep(p, f, l, r, n, xl, xr); xr := Mix(k, xr, xl, 12);
      n := RoundStep(p, f, l, r, n, xr, xl); xl := Mix(k, xl, xr, 11);
      n := RoundStep(p, f, l, r, n, xl, xr); xr := Mix(k, xr, xl, 10);
      n := RoundStep(p, f, l, r, n, xr, xl); xl := Mix(k, xl, xr, 9);
      n := RoundStep(p, f, l, r, n, xl, xr); xr := Mix(k, xr, xl, 8);
      n := RoundStep(p, f, l, r, n, xr, xl); xl := Mix(k, xl, xr, 7);
      n := RoundStep(p, f, l, r, n, xl, xr); xr := Mix(k, xr, xl, 6);
      n := RoundStep(p, f, l, r, n, xr, xl); xl := Mix(k, xl, xr, 5);
      n := RoundStep(p, f, l, r, n, xl, xr); xr := Mix(k, xr, xl, 4);
      n := RoundStep(p, f, l, r, n, xr, xl); xl := Mix(k, xl, xr, 3);
      n := RoundStep(p, f, l, r, n, xl, xr); xr := Mix(k, xr, xl, 2);
      n := RoundStep(p, f, l, r, n, xr, xl); xl := Mix(k, xl, xr, 1);
      LastSubkeys(p, f, l, r, xl, xr);
      xr := Xor32(xr, pArray[0]);
      yl, yr := xr, xl;
    }

    /** One iteration of CipherRange. */
    method CipherBlockAt(ghost k: Schedule, a: array<byte>, off: nat)
      requires Valid() && k == Value() && off + 8 <= a.Length
      modifies a
      ensures Value() == k
      ensures a[..] == Splice(old(a[..]), off, MapBlock(EncFn(k), old(a[..]), off))
    {
      var xl := ReadWord(a, off);
      var xr := ReadWord(a, off + 4);
      xl, xr := EncryptBlock(xl, xr);
      WriteWord(a, off, xl);
      WriteWord(a, off + 4, xr);
      SpliceAdjacent(old(a[..]), off, Le32(xl), Le32(xr));
    }

    /** One iteration of DecipherRange. */
    method DecipherBlockAt(ghost k: Schedule, a: array<byte>, off: nat)
      requires Valid() && k == Value() && off + 8 <= a.Length
      modifies a
      ensures Value() == k
      ensures a[..] == Splice(old(a[..]), off, MapBlock(DecFn(k), old(a[..]), off))
    {
      var xl := ReadWord(a, off);
      var xr := ReadWord(a, off + 4);
      xl, xr := DecryptBlock(xl, xr);
      WriteWord(a, off, xl);
      WriteWord(a, off + 4, xr);
      SpliceAdjacent(old(a[..]), off, Le32(xl), Le32(xr));
    }

    /** Enciphers a range in place; a length that is no multiple of 8 leaves the odd bytes alone. */
    method CipherRange(data: Slice, offset: int, length: int)
      requires Valid() && data.Valid()
      modifies data.arr
      ensures Value() == old(Value())
      ensures data.View() == MapRange(EncFn(Value()), old(data.View()), offset, length)
      ensures data.RestIs(old(data.arr[..]))
    {
      hide EncFn, Value, Blocks, MapBlock, MapFrom, MapRange, Slice.RestIs;
      if offset < 0 || length <= 0 || offset + length > data.Len() {
        RangeUnusable(EncFn(Value()), data, offset, length);
        return;
      }
      ghost var k := Value();
      ghost var g := EncFn(k);
      ghost var was := data.arr[..];
      var (base, n) := (data.lo + offset, length / 8);
      MapFromNone(g, was, base);
      for i := 0 to n
        invariant Value() == k
        invariant data.arr[..] == MapFrom(g, was, base, i)
      {
        CipherBlockAt(k, data.arr, base + 8 * i);
        MapFromStep(g, was, base, i);
      }
      RangeMapped(g, data, was, offset, length);
    }

    /** Deciphers a range in place. */
    method DecipherRange(data: Slice, offset: int, length: int)
      requires Valid() && data.Valid()
      modifies data.arr
      ensures Value() == old(Value())
      ensures data.View() == MapRange(DecFn(Value()), old(data.View()), offset, length)
      ensures data.RestIs(old(data.arr[..]))
    {
      hide DecFn, Value, Blocks, MapBlock, MapFrom, MapRange, Slice.RestIs;
      if offset < 0 || length <= 0 || offset + length > data.Len() {
        RangeUnusable(DecFn(Value()), data, offset, length);
        return;
      }
      ghost var k := Value();
      ghost var g := DecFn(k);
      ghost var was := data.arr[..];
      var (base, n) := (data.lo + offset, length / 8);
      MapFromNone(g, was, base);
      for i := 0 to n
        invariant Value() == k
        invariant data.arr[..] == MapFrom(g, was, base, i)
      {
        DecipherBlockAt(k, data.arr, base + 8 * i);
        MapFromStep(g, was, base, i);
      }
      RangeMapped(g, data, was, offset, length);
    }

    constructor (init: Schedule, key: seq<byte>)
      ensures Valid() && fresh(pArray) && fresh(sBoxes)
      ensures Value() == KeySchedule(init, key)
    {
      pArray := new uint32[18];
      sBoxes := new uint32[4, 256];
      new;
      SetKey(init, key);
    }

    method CopyTables(init: Schedule)
      requires Valid()
      modifies pArray, sBoxes
      ensures Value() == init
    {
      CopySubkeys(init.p);
      CopyBoxes(init.s);
      assert [Box(0), Box(1), Box(2), Box(3)] == init.s;
    }

    method CopySubkeys(p: seq<uint32>)
      requires Valid() && |p| == 18
      modifies pArray
      ensures pArray[..] == p
    {
      forall i | 0 <= i < 18 {
        pArray[i] := p[i];
      }
    }

    method CopyBoxes(s: seq<seq<uint32>>)
      requires Valid() && |s| == 4 && forall b :: 0 <= b < 4 ==> |s[b]| == 256
      modifies sBoxes
      ensures forall b :: 0 <= b < 4 ==> Box(b) == s[b]
    {
      forall b, i | 0 <= b < 4 && 0 <= i < 256 {
        sBoxes[b, i] := s[b][i];
      }
    }

    method MixKeyBytes(key: seq<byte>)
      requires Valid() && key != []
      modifies pArray
      ensures Value() == MixKey(old(Value()), key)
    {
      hide Xor32, KeyWord, KeyPrefix;
      var keyIndex := 0;
      for i := 0 to 18
        invariant keyIndex == 4 * i % |key|
        invariant forall x :: 0 <= x < i ==> pArray[x] == Xor32(old(pArray[x]), KeyWord(key, x))
        invariant forall x :: i <= x < 18 ==> pArray[x] == old(pArray[x])
      {
        var data;
        data, keyIndex := NextKeyWord(key, i, keyIndex);
        pArray[i] := Xor32(pArray[i], data);
      }
    }

    method StoreSubkeys(i: nat, l: uint32, r: uint32)
      requires Valid() && i % 2 == 0 && i < 18
      modifies pArray
      ensures Value() == PutPair(old(Value()), i / 2, l, r)
    {
      pArray[i], pArray[i + 1] := l, r;
      assert forall b | 0 <= b < 4 :: Box(b) == old(Box(b));
    }

    method StoreEntries(box: nat, i: nat, l: uint32, r: uint32)
      requires Valid() && box < 4 && i % 2 == 0 && i < 256
      modifies sBoxes
      ensures Value() == PutPair(old(Value()), 9 + 128 * box + i / 2, l, r)
    {
      sBoxes[box, i], sBoxes[box, i + 1] := l, r;
      assert Box(box) == Splice(old(Box(box)), i, [l, r]);
      assert forall b | 0 <= b < 4 && b != box :: Box(b) == old(Box(b));
      PairIndex(box, i / 2);
    }

    /** setKey: the unkeyed tables, the key bytes mixed in, then every pair of entries replaced in turn. */
    method SetKey(init: Schedule, key: seq<byte>)
      requires Valid()
      modifies pArray, sBoxes
      ensures Value() == KeySchedule(init, key)
    {
      hide Enc, PutPair, MixKey, Value;
      CopyTables(init);
      if |key| == 0 {
        return;
      }
      MixKeyBytes(key);
      ghost var mixed := Value();
      var xl, xr := 0, 0;
      var i := 0;
      while i < 18
        invariant i % 2 == 0 && i <= 18
        invariant (Value(), xl, xr) == Expand(mixed, i / 2)
      {
        xl, xr := EncryptBlock(xl, xr);
        StoreSubkeys(i, xl, xr);
        i := i + 2;
      }
      for box := 0 to 4
        invariant (Value(), xl, xr) == Expand(mixed, 9 + 128 * box)
      {
        i := 0;
        while i < 256
          invariant i % 2 == 0 && i <= 256
          invariant (Value(), xl, xr) == Expand(mixed, 9 + 128 * box + i / 2)
        {
          xl, xr := EncryptBlock(xl, xr);
          StoreEntries(box, i, xl, xr);
          i := i + 2;
        }
      }
    }
  }
}
