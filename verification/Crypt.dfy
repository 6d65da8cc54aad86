/** internal/crypto/crypt.go: padding, the rolling XOR pass of the first packet, and Blowfish. The peer's side is defined
    here as specification: decipher, then walk the XOR pass back from the sum it left behind. */
module Crypts {
  import opened Arithmetic
  import opened Blowfish
  import opened PacketWriters
  import opened Words

  // ---- The rolling XOR pass ----

  /** From pos on, masks each word with the running sum of the words read, then leaves the sum behind. */
  ghost function XorFrom(s: seq<byte>, pos: nat, stop: nat, ecx: uint32): (r: seq<byte>)
    requires stop + 8 <= |s| && pos <= stop + 4
    ensures |r| == |s|
    decreases stop + 4 - pos
  {
    if pos < stop then
      var edx := Word(s, pos);
      var sum := Add32(ecx, edx);
      XorFrom(PutWord(s, pos, Xor32(edx, sum)), pos + 4, stop, sum)
    else PutWord(s, pos, ecx)
  }

  /** encXorPass; a size of less than eight or beyond the buffer (as a uint32) changes nothing. */
  ghost function XorPass(s: seq<byte>, size: uint32, key: uint32): (r: seq<byte>)
    ensures |r| == |s|
  {
    if |s| % 0x1_0000_0000 < size || size < 8 then s else XorFrom(s, 4, size - 8, key)
  }

  /** The peer: walks back from the sum, unmasking the last word first. Also returns the key it arrives at. */
  ghost function UndoFrom(s: seq<byte>, pos: nat, stop: nat): (r: (seq<byte>, uint32))
    requires stop + 8 <= |s| && pos <= stop + 4
    ensures |r.0| == |s|
    decreases stop + 4 - pos
  {
    if pos < stop then
      var (t, sum) := UndoFrom(s, pos + 4, stop);
      var edx := Xor32(Word(t, pos), sum);
      (PutWord(t, pos, edx), Sub32(sum, edx))
    else (s, Word(s, pos))
  }

  function Max(a: nat, b: nat): nat { if a >= b then a else b }

  lemma {:induction false} UndoesXor(s: seq<byte>, pos: nat, stop: nat, ecx: uint32)
    requires stop + 8 <= |s| && pos <= stop + 4
    ensures var (t, e) := UndoFrom(XorFrom(s, pos, stop, ecx), pos, stop);
            e == ecx && t[..Max(pos, stop)] == s[..Max(pos, stop)]
    decreases stop + 4 - pos
  {
    hide Word, Xor32, Add32, Sub32, PutWord;
    if pos < stop {
      var edx := Word(s, pos);
      var sum := Add32(ecx, edx);
      var masked := Xor32(edx, sum);
      var s' := PutWord(s, pos, masked);
      UndoesXor(s', pos + 4, stop, sum);
      var x := XorFrom(s', pos + 4, stop, sum);
      assert x == XorFrom(s, pos, stop, ecx);
      var t := UndoFrom(x, pos + 4, stop).0;
      var end := Max(pos + 4, stop);
      WordOfPut(s, pos, masked, pos);
      WordInPrefix(t, s', pos, end);
      Xor32Cancels(edx, sum);
      SumBack(ecx, edx);
      WordRestored(s, t, pos, masked, end);
      PrefixAgain(PutWord(t, pos, edx), s, stop, end);
    } else {
      SumStored(s, pos, ecx);
    }
  }

  lemma SumBack(ecx: uint32, edx: uint32)
    ensures Sub32(Add32(ecx, edx), edx) == ecx
  {
  }

  lemma SumStored(s: seq<byte>, pos: nat, ecx: uint32)
    requires pos + 4 <= |s|
    ensures var x := PutWord(s, pos, ecx); Word(x, pos) == ecx && x[..pos] == s[..pos]
  {
    WordOfPut(s, pos, ecx, pos);
    SpliceParts(s, pos, Le32(ecx));
  }

  lemma PrefixAgain<T>(s: seq<T>, t: seq<T>, n: nat, m: nat)
    requires n <= m <= |s| && m <= |t| && s[..m] == t[..m]
    ensures s[..n] == t[..n]
  {
    assert s[..n] == s[..m][..n] && t[..n] == t[..m][..n];
  }

  lemma WordInPrefix(s: seq<byte>, t: seq<byte>, pos: nat, end: nat)
    requires pos + 4 <= end <= |s| && end <= |t| && s[..end] == t[..end]
    ensures Word(s, pos) == Word(t, pos)
  {
    assert forall i :: 0 <= i < end ==> s[..end][i] == t[..end][i];
  }

  lemma WordRestored(s: seq<byte>, t: seq<byte>, pos: nat, masked: uint32, end: nat)
    requires pos + 4 <= end <= |s| == |t| && t[..end] == PutWord(s, pos, masked)[..end]
    ensures PutWord(t, pos, Word(s, pos))[..end] == s[..end]
  {
    hide Word, Le32, Splice;
    var w := Word(s, pos);
    WordSize(w);
    WordSize(masked);
    SplicePrefix(t, pos, Le32(w), end);
    SplicePrefix(PutWord(s, pos, masked), pos, Le32(w), end);
    SpliceTwice(s, pos, Le32(masked), Le32(w));
    PutOfWord(s, pos);
  }

  lemma WordSize(w: uint32)
    ensures |Le32(w)| == 4
  {
  }

  // ---- The pass word by word ----

  ghost function WordNo(s: seq<byte>, i: nat): uint32
    requires 4 * i + 4 <= |s|
  {
    Word(s, 4 * i)
  }

  /** The key plus words 1 to i, on 32 bits. */
  ghost function RunningSum(s: seq<byte>, key: uint32, i: nat): uint32
    requires 4 * i + 4 <= |s|
  {
    if i == 0 then key
    else var (sum: int, w: int) := (RunningSum(s, key, i - 1), WordNo(s, i)); (sum + w) % 0x1_0000_0000
  }

  /** What word number i of n is after the pass: the first stays; each one before the last two is masked with the key and
      all words from the second on, itself included; the last but one gives way to the sum; the last stays. */
  ghost function Passed(s: seq<byte>, key: uint32, n: nat, i: nat): uint32
    requires |s| == 4 * n && n >= 3 && i < n
  {
    if i == 0 || i == n - 1 then WordNo(s, i)
    else if i == n - 2 then RunningSum(s, key, n - 3)
    else Xor32(WordNo(s, i), RunningSum(s, key, i))
  }

  lemma PassWords(s: seq<byte>, key: uint32, n: nat, i: nat)
    requires |s| == 4 * n < 0x1_0000_0000 && n >= 3 && i < n
    ensures WordNo(XorPass(s, |s|, key), i) == Passed(s, key, n, i)
  {
    hide WordNo, Xor32, XorFrom;
    FromWords(s, s, key, n, 1, key, i);
  }

  /** From word number `from` on, over a buffer whose words are still the original ones there. */
  lemma {:induction false} FromWords(s: seq<byte>, t: seq<byte>, key: uint32, n: nat, from: nat, ecx: uint32, i: nat)
    requires |s| == |t| == 4 * n && 1 <= from <= n - 2 && i < n && ecx == RunningSum(s, key, from - 1)
    requires forall p: nat :: from <= p < n ==> WordNo(t, p) == WordNo(s, p)
    ensures WordNo(XorFrom(t, 4 * from, 4 * n - 8, ecx), i) == if i >= from then Passed(s, key, n, i) else WordNo(t, i)
    decreases n - from
  {
    hide WordNo, Xor32, PutWord, XorFrom;
    if from < n - 2 {
      var edx := WordNo(t, from);
      var sum := Add32(ecx, edx);
      var t' := PutWord(t, 4 * from, Xor32(edx, sum));
      FromTurn(t, from, n, ecx);
      assert sum == RunningSum(s, key, from);
      forall p: nat | p < n
        ensures WordNo(t', p) == if p == from then Xor32(edx, sum) else WordNo(t, p)
      {
        WordNoOfPut(t, from, Xor32(edx, sum), p);
      }
      FromWords(s, t', key, n, from + 1, sum, i);
    } else {
      XorFromEnd(t, 4 * from, 4 * n - 8, ecx);
      WordNoOfPut(t, from, ecx, i);
    }
  }

  lemma FromTurn(t: seq<byte>, from: nat, n: nat, ecx: uint32)
    requires |t| == 4 * n && from < n - 2
    ensures var (edx, sum) := (WordNo(t, from), Add32(ecx, WordNo(t, from)));
            XorFrom(t, 4 * from, 4 * n - 8, ecx)
            == XorFrom(PutWord(t, 4 * from, Xor32(edx, sum)), 4 * (from + 1), 4 * n - 8, sum)
  {
    hide Word, Xor32, PutWord, Add32;
  }

  lemma WordNoOfPut(t: seq<byte>, i: nat, w: uint32, p: nat)
    requires 4 * i + 4 <= |t| && 4 * p + 4 <= |t|
    ensures WordNo(PutWord(t, 4 * i, w), p) == if p == i then w else WordNo(t, p)
  {
    hide Word, PutWord;
    WordOfPut(t, 4 * i, w, 4 * p);
  }

  // ---- Padding ----

  /** Bytes set aside for the checksum and key: more on the first packet. */
  function ReserveFor(first: bool): nat { if first then 16 else 12 }

  function Padded(n: nat): nat { if n % 8 == 0 then n else n + 8 - n % 8 }

  function SealedSize(payload: nat, first: bool): nat { Padded(payload + ReserveFor(first)) }

  /** The encrypted length is the least multiple of eight with room for the payload and the reserve. */
  lemma SealedSizeLeast(payload: nat, first: bool)
    ensures var (n, least) := (SealedSize(payload, first), payload + if first then 16 else 12);
            n % 8 == 0 && least <= n && forall m: nat :: m % 8 == 0 && least <= m ==> n <= m
  {
  }

  // ---- One packet ----

  /** A payload and the uninitialised bytes after it, masked if first, then enciphered. */
  ghost function Sealed(k: Schedule, first: bool, payload: seq<byte>, junk: seq<byte>, xorKey: uint32): (r: seq<byte>)
    ensures |r| == |payload| + |junk|
  {
    var plain := payload + junk;
    var masked := if first then XorPass(plain, |plain| % 0x1_0000_0000, xorKey) else plain;
    MapRange(EncFn(k), masked, 0, |plain|)
  }

  /** The peer: deciphers, and on the first packet undoes the XOR pass from the sum stored eight bytes before the end. */
  ghost function PeerOpen(k: Schedule, first: bool, data: seq<byte>): (r: seq<byte>)
    ensures |r| == |data|
  {
    var d := MapRange(DecFn(k), data, 0, |data|);
    if first && |d| >= 8 then UndoFrom(d, 4, |d| - 8).0 else d
  }

  /** What is sent, block by block: the payload and the padding enciphered as they are, on every packet but the first. */
  lemma LaterBlock(k: Schedule, payload: seq<byte>, junk: seq<byte>, xorKey: uint32, j: nat)
    requires 8 * j + 8 <= |payload + junk|
    ensures var (plain, r) := (payload + junk, Sealed(k, false, payload, junk, xorKey));
            var (x, y) := Enc(k, Word(plain, 8 * j), Word(plain, 8 * j + 4));
            r[8 * j..8 * j + 8] == Le32(x) + Le32(y)
  {
    hide MapRange, Word, Le32, Enc;
    RangeBlock(EncFn(k), payload + junk, 0, |payload + junk|, j);
  }

  /** And on the first packet after the XOR pass, of which PassWords says what it does. */
  lemma FirstBlock(k: Schedule, payload: seq<byte>, junk: seq<byte>, xorKey: uint32, j: nat)
    requires |payload + junk| < 0x1_0000_0000 && 8 * j + 8 <= |payload + junk|
    ensures var plain := XorPass(payload + junk, |payload + junk|, xorKey);
            var (x, y) := Enc(k, Word(plain, 8 * j), Word(plain, 8 * j + 4));
            Sealed(k, true, payload, junk, xorKey)[8 * j..8 * j + 8] == Le32(x) + Le32(y)
  {
    hide MapRange, Word, Le32, Enc, XorPass;
    RangeBlock(EncFn(k), XorPass(payload + junk, |payload + junk|, xorKey), 0, |payload + junk|, j);
  }

  /** Whatever the uninitialised bytes and the XOR key, the peer finds the payload in front. */
  lemma PeerRecoversPayload(k: Schedule, first: bool, payload: seq<byte>, junk: seq<byte>, xorKey: uint32)
    requires |payload| + |junk| == SealedSize(|payload|, first) < 0x1_0000_0000
    ensures payload <= PeerOpen(k, first, Sealed(k, first, payload, junk, xorKey))
  {
    hide MapRange, XorFrom, UndoFrom, EncFn, DecFn;
    SealedSizeLeast(|payload|, first);
    var plain := payload + junk;
    var n := |plain|;
    if first {
      var masked := XorPass(plain, n, xorKey);
      assert masked == XorFrom(plain, 4, n - 8, xorKey);
      RangeRoundTrip(k, masked, 0, n);
      UndoesXor(plain, 4, n - 8, xorKey);
      PrefixAgain(PeerOpen(k, first, Sealed(k, first, payload, junk, xorKey)), plain, |payload|, n - 8);
      assert plain[..|payload|] == payload;
    } else {
      RangeRoundTrip(k, plain, 0, n);
    }
  }

  // ---- A run of packets through one Crypt ----

  /** One call of Encrypt: what was sent, and the inputs nobody chose. */
  datatype Sent = Sent(payload: seq<byte>, junk: seq<byte>, xorKey: uint32)

  ghost predicate Fitting(s: Sent, first: bool) {
    |s.payload| + |s.junk| == SealedSize(|s.payload|, first) < 0x1_0000_0000
  }

  /** The packets on the wire; updated is the Crypt's flag before the first of them. */
  ghost function SealAll(k: Schedule, updated: bool, sent: seq<Sent>): (wire: seq<seq<byte>>)
    ensures |wire| == |sent|
    decreases |sent|
  {
    if sent == [] then []
    else [Sealed(k, !updated, sent[0].payload, sent[0].junk, sent[0].xorKey)] + SealAll(k, true, sent[1..])
  }

  lemma {:induction false} SealAllAt(k: Schedule, updated: bool, sent: seq<Sent>, i: nat)
    requires i < |sent|
    ensures SealAll(k, updated, sent)[i] ==
            Sealed(k, !updated && i == 0, sent[i].payload, sent[i].junk, sent[i].xorKey)
    decreases |sent|
  {
    hide Sealed;
    if i > 0 {
      SealAllAt(k, true, sent[1..], i - 1);
    }
  }

  /** A peer that undoes the XOR pass on the first packet only recovers every payload of every run. */
  lemma PeerRecoversRun(k: Schedule, sent: seq<Sent>, i: nat)
    requires i < |sent| && Fitting(sent[i], i == 0)
    ensures sent[i].payload <= PeerOpen(k, i == 0, SealAll(k, false, sent)[i])
  {
    hide Sealed, PeerOpen;
    SealAllAt(k, false, sent, i);
    PeerRecoversPayload(k, i == 0, sent[i].payload, sent[i].junk, sent[i].xorKey);
  }

  // ---- The code ----

  /** encXorPass in place. */
  method EncXorPass(raw: Slice, size: uint32, key: uint32)
    requires raw.Valid()
    modifies raw.arr
    ensures raw.View() == XorPass(old(raw.View()), size, key)
    ensures raw.RestIs(old(raw.arr[..]))
  {
    hide XorFrom, Slice.RestIs;
    RestUnchanged(raw);
    if raw.Len() % 0x1_0000_0000 < size || size < 8 {
      return;
    }
    RemainderAtMost(raw.Len(), 0x1_0000_0000);
    XorLoop(raw, size, key);
  }

  lemma RestUnchanged(s: Slice)
    requires s.Valid()
    ensures s.RestIs(s.arr[..])
  {
  }

  lemma RemainderAtMost(n: nat, m: nat)
    requires m > 0
    ensures n % m <= n
  {
    if n < m {
      ModUnique(n, 0, m, n);
    }
  }

  /** The loop, on a slice that is long enough. */
  method XorLoop(raw: Slice, size: uint32, key: uint32)
    requires raw.Valid() && 8 <= size <= raw.Len() % 0x1_0000_0000 <= raw.Len()
    modifies raw.arr
    ensures raw.View() == XorFrom(old(raw.View()), 4, size - 8, key)
    ensures raw.RestIs(old(raw.arr[..]))
  {
    hide Word, PutWord, Add32, Xor32, XorFrom, Slice.RestIs;
    RestUnchanged(raw);
    ghost var was := raw.View();
    var room := raw.Len() % 0x1_0000_0000;
    var pos, stop, ecx := 4, size - 8, key;
    while pos < stop
      invariant 4 <= pos <= stop + 4
      invariant XorFrom(raw.View(), pos, stop, ecx) == XorFrom(was, 4, stop, key)
      invariant raw.RestIs(old(raw.arr[..]))
    {
      XorFromTurn(raw.View(), pos, stop, ecx);
      var edx := ReadWordAt(raw, pos);
      ecx := Add32(ecx, edx);
      edx := Xor32(edx, ecx);
      WriteWordAt(raw, pos, edx);
      pos := pos + 4;
    }
    XorFromEnd(raw.View(), pos, stop, ecx);
    if pos + 4 <= room {
      WriteWordAt(raw, pos, ecx);
    }
  }

  lemma XorFromTurn(s: seq<byte>, pos: nat, stop: nat, ecx: uint32)
    requires stop + 8 <= |s| && pos < stop
    ensures var (edx, sum) := (Word(s, pos), Add32(ecx, Word(s, pos)));
            XorFrom(s, pos, stop, ecx) == XorFrom(PutWord(s, pos, Xor32(edx, sum)), pos + 4, stop, sum)
  {
  }

  lemma XorFromEnd(s: seq<byte>, pos: nat, stop: nat, ecx: uint32)
    requires stop + 8 <= |s| && stop <= pos <= stop + 4
    ensures XorFrom(s, pos, stop, ecx) == PutWord(s, pos, ecx)
  {
  }

  method ReadWordAt(s: Slice, pos: nat) returns (w: uint32)
    requires s.Valid() && pos + 4 <= s.Len()
    ensures w == Word(s.View(), pos)
  {
    w := ReadWord(s.arr, s.lo + pos);
  }

  method WriteWordAt(s: Slice, pos: nat, w: uint32)
    requires s.Valid() && pos + 4 <= s.Len()
    modifies s.arr
    ensures s.View() == PutWord(old(s.View()), pos, w)
    ensures forall was: seq<byte> {:trigger s.RestIs(was)} ::
              |was| == s.arr.Length && old(s.RestIs(was)) ==> s.RestIs(was)
  {
    hide Le32;
    WordSize(w);
    SpliceView(s.arr[..], s.lo, s.hi, pos, Le32(w));
    WriteWord(s.arr, s.lo + pos, w);
  }

  /** The writer's contents are its two header bytes and the payload view behind them. */
  lemma SplitHeader(w: PacketWriter)
    requires w.Valid() && w.len >= 2
    ensures var data := Slice(w.arr, 2, w.len);
            data.Valid() && data.View() == w.Contents()[2..] && w.Contents() == w.arr[..][..2] + data.View()
            && w.arr[..][..2] == w.Contents()[..2]
  {
  }

  lemma HeaderThenPayload(contents: seq<byte>, junk: seq<byte>)
    requires |contents| >= 2
    ensures (contents + junk)[..2] == contents[..2] && (contents + junk)[2..] == contents[2..] + junk
  {
  }

  /** Lengthens a packet by the reserve and up to the next multiple of eight, leaving the new bytes uninitialised. */
  method ExtendPadded(w: PacketWriter, reserve: nat) returns (payloadLen: nat, ghost junk: seq<byte>)
    requires w.Valid() && w.len >= 2
    modifies w
    ensures w.Valid() && (w.arr == old(w.arr) || fresh(w.arr))
    ensures payloadLen == Padded(old(w.len) - 2 + reserve) && |junk| == payloadLen - (old(w.len) - 2)
    ensures w.Contents() == old(w.Contents()) + junk
  {
    payloadLen := w.len - 2;
    var s := w.Extend(reserve);
    payloadLen := payloadLen + reserve;
    var pad := 8 - payloadLen % 8;
    if pad != 8 {
      s := w.Extend(pad);
      payloadLen := payloadLen + pad;
    }
    junk := w.Contents()[old(w.len)..];
    assert w.Contents()[..old(w.len)] == old(w.Contents());
  }

  /** The Init packet: always masked, under the fixed static key. */
  method EncryptStatic(staticCipher: BlowfishCipher, w: PacketWriter, xorKey: uint32) returns (ghost junk: seq<byte>)
    requires staticCipher.Valid() && w.Valid() && w.len >= 2
    modifies w, w.arr
    ensures w.Valid() && (w.arr == old(w.arr) || fresh(w.arr)) && staticCipher.Value() == old(staticCipher.Value())
    ensures |junk| == SealedSize(old(w.len) - 2, true) - (old(w.len) - 2)
    ensures w.Contents() == old(w.Contents())[..2]
                            + Sealed(staticCipher.Value(), true, old(w.Contents())[2..], junk, xorKey)
  {
    hide Blowfish.BlowfishCipher.Value, Blowfish.MapRange, XorPass;
    var payloadLen;
    payloadLen, junk := ExtendPadded(w, 16);
    var data := Slice(w.arr, 2, w.len);
    SplitHeader(w);
    HeaderThenPayload(old(w.Contents()), junk);
    EncXorPass(data, payloadLen % 0x1_0000_0000, xorKey);
    staticCipher.CipherRange(data, 0, payloadLen);
    SplitHeader(w);
  }

  class Crypt {
    const cipher: BlowfishCipher
    var updatedKey: bool

    ghost predicate Valid()
      reads cipher
    {
      cipher.Valid()
    }

    ghost function Key(): Schedule
      requires Valid()
      reads cipher, cipher.pArray, cipher.sBoxes
    {
      cipher.Value()
    }

    /** NewCrypt. */
    constructor (init: Schedule, key: seq<byte>)
      ensures Valid() && Key() == KeySchedule(init, key) && !updatedKey
    {
      cipher := new BlowfishCipher(init, key);
      updatedKey := false;
    }

    /** Pads, masks the first packet, and enciphers everything behind the length header. The uninitialised bytes and the
        random XOR key are whatever they are. */
    method Encrypt(w: PacketWriter, xorKey: uint32) returns (ghost junk: seq<byte>)
      requires Valid() && w.Valid() && w.len >= 2
      modifies this`updatedKey, w, w.arr
      ensures w.Valid() && (w.arr == old(w.arr) || fresh(w.arr)) && updatedKey && Key() == old(Key())
      ensures |junk| == SealedSize(old(w.len) - 2, !old(updatedKey)) - (old(w.len) - 2)
      ensures w.Contents() == old(w.Contents())[..2]
                              + Sealed(Key(), !old(updatedKey), old(w.Contents())[2..], junk, xorKey)
    {
      hide Blowfish.BlowfishCipher.Value, Blowfish.MapRange, XorPass;
      var reserve := 12;
      if !updatedKey {
        reserve := 16;
      }
      var payloadLen;
      payloadLen, junk := ExtendPadded(w, reserve);
      var data := Slice(w.arr, 2, w.len);
      SplitHeader(w);
      HeaderThenPayload(old(w.Contents()), junk);
      if !updatedKey {
        updatedKey := true;
        EncXorPass(data, payloadLen % 0x1_0000_0000, xorKey);
      }
      cipher.CipherRange(data, 0, payloadLen);
      SplitHeader(w);
    }

    /** Deciphers in place; false for a size that is empty or no multiple of eight. */
    method Decrypt(data: Slice) returns (ok: bool)
      requires Valid() && data.Valid()
      modifies data.arr
      ensures Key() == old(Key())
      ensures ok <==> data.Len() % 8 == 0 && data.Len() > 0
      ensures data.View() == if ok then MapRange(DecFn(Key()), old(data.View()), 0, data.Len()) else old(data.View())
      ensures data.RestIs(old(data.arr[..]))
    {
      if data.Len() % 8 != 0 || data.Len() <= 0 {
        return false;
      }
      cipher.DecipherRange(data, 0, data.Len());
      ok := true;
    }
  }
}
