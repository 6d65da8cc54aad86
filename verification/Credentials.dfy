/** internal/packet/client/login.go: reading, decrypting and cleaning the credential blocks. */
module Credentials {
  import opened NumberTheory
  import opened PacketReaders
  import opened ScrambledKey
  import opened Words
  import opened Wrappers

  predicate Blank(b: byte) {
    b == 0 || b == 0x20
  }

  function TrimFront(b: seq<byte>): seq<byte> {
    if b != [] && Blank(b[0]) then TrimFront(b[1..]) else b
  }

  function TrimBack(b: seq<byte>): seq<byte> {
    if b != [] && Blank(b[|b| - 1]) then TrimBack(b[..|b| - 1]) else b
  }

  function Clean(b: seq<byte>): seq<byte> {
    TrimBack(TrimFront(b))
  }

  predicate AllBlank(b: seq<byte>) {
    forall i :: 0 <= i < |b| ==> Blank(b[i])
  }

  /** Nothing left to trim. */
  predicate Bare(r: seq<byte>) {
    r == [] || (!Blank(r[0]) && !Blank(r[|r| - 1]))
  }

  lemma {:induction false} TrimFrontOf(pre: seq<byte>, r: seq<byte>)
    requires AllBlank(pre)
    ensures TrimFront(pre + r) == TrimFront(r)
  {
    if pre == [] {
      assert pre + r == r;
    } else {
      assert (pre + r)[1..] == pre[1..] + r;
      TrimFrontOf(pre[1..], r);
    }
  }

  lemma {:induction false} TrimBackOf(r: seq<byte>, post: seq<byte>)
    requires AllBlank(post)
    ensures TrimBack(r + post) == TrimBack(r)
  {
    if post == [] {
      assert r + post == r;
    } else {
      assert (r + post)[..|r + post| - 1] == r + post[..|post| - 1];
      TrimBackOf(r, post[..|post| - 1]);
    }
  }

  /** Cleaning strips exactly the blanks around a text, whatever blanks are inside it. */
  lemma CleanPadded(pre: seq<byte>, r: seq<byte>, post: seq<byte>)
    requires AllBlank(pre) && AllBlank(post) && Bare(r)
    ensures Clean(pre + r + post) == r
  {
    assert pre + r + post == pre + (r + post);
    TrimFrontOf(pre, r + post);
    if r == [] {
      assert r + post == post + [];
      TrimFrontOf(post, []);
    } else {
      TrimBackOf(r, post);
    }
  }

  /** cleanBytesToString: two scans from the ends. */
  method CleanBytes(b: seq<byte>) returns (r: seq<byte>)
    ensures r == Clean(b)
  {
    hide TrimFront, TrimBack;
    var start, end := 0, |b|;
    while start < end && Blank(b[start])
      invariant 0 <= start <= end == |b|
      invariant TrimFront(b) == TrimFront(b[start..])
    {
      TrimFrontStep(b[start..]);
      assert b[start..][1..] == b[start + 1..];
      start := start + 1;
    }
    TrimFrontStep(b[start..]);
    assert b[start..end] == b[start..];
    while end > start && Blank(b[end - 1])
      invariant start <= end <= |b|
      invariant Clean(b) == TrimBack(b[start..end])
    {
      TrimBackStep(b[start..end]);
      assert b[start..end][..end - start - 1] == b[start..end - 1];
      end := end - 1;
    }
    TrimBackStep(b[start..end]);
    if start >= end {
      return [];
    }
    r := b[start..end];
  }

  lemma TrimFrontStep(b: seq<byte>)
    ensures TrimFront(b) == if b != [] && Blank(b[0]) then TrimFront(b[1..]) else b
  {
  }

  lemma TrimBackStep(b: seq<byte>)
    ensures TrimBack(b) == if b != [] && Blank(b[|b| - 1]) then TrimBack(b[..|b| - 1]) else b
  {
  }

  /** User name and password as the bytes of the decrypted blocks; the name is folded to lower case by the caller. */
  datatype Pair = Pair(username: seq<byte>, password: seq<byte>)

  // ---- Where a client puts its name and password ----

  /** A text in a field of n bytes, with zeros and spaces before and after it but at neither of its ends. */
  ghost predicate InField(f: seq<byte>, text: seq<byte>, n: nat) {
    |f| == n && Trimmed(text) && exists a, b :: f == a + text + b && Filler(a) && Filler(b)
  }

  predicate Trimmed(text: seq<byte>) {
    text == [] || (text[0] != 0 && text[0] != 0x20 && text[|text| - 1] != 0 && text[|text| - 1] != 0x20)
  }

  predicate Filler(b: seq<byte>) {
    forall i :: 0 <= i < |b| ==> b[i] == 0 || b[i] == 0x20
  }

  /** One block: 94 bytes, the name in 14, the password in 16, and four more. */
  ghost predicate WritesOne(m: seq<byte>, w: Pair) {
    |m| == 128 && InField(m[94..108], w.username, 14) && InField(m[108..124], w.password, 16)
  }

  /** Two blocks: the name in 50 bytes after the first 78 and in 14 after 78 more, then the password in 16. */
  ghost predicate WritesTwo(m: seq<byte>, w: Pair) {
    |m| == 256 && InField(m[220..236], w.password, 16)
    && exists u, v :: InField(m[78..128], u, 50) && InField(m[206..220], v, 14) && w.username == u + v
  }

  /** The credentials a client writes into its one or two blocks. */
  ghost predicate Writes(m1: seq<byte>, m2: Option<seq<byte>>, w: Pair) {
    if m2.Some? then WritesTwo(m1 + m2.value, w) else WritesOne(m1, w)
  }

  lemma FieldCleaned(f: seq<byte>, text: seq<byte>, n: nat)
    requires InField(f, text, n)
    ensures Clean(f) == text
  {
    var a, b :| f == a + text + b && Filler(a) && Filler(b);
    hide Clean;
    CleanPadded(a, text, b);
  }

  /** Every field holds a text. */
  lemma FieldHolds(f: seq<byte>)
    ensures InField(f, Clean(f), |f|)
  {
    var a := FrontTrimmed(f);
    var b := BackTrimmed(TrimFront(f));
    assert f == a + Clean(f) + b;
  }

  lemma {:induction false} FrontTrimmed(b: seq<byte>) returns (a: seq<byte>)
    ensures b == a + TrimFront(b) && Filler(a)
    ensures TrimFront(b) == [] || !Blank(TrimFront(b)[0])
  {
    a := [];
    if b != [] && Blank(b[0]) {
      a := FrontTrimmed(b[1..]);
      a := [b[0]] + a;
    }
  }

  lemma {:induction false} BackTrimmed(b: seq<byte>) returns (a: seq<byte>)
    ensures b == TrimBack(b) + a && Filler(a)
    ensures TrimBack(b) == [] || (!Blank(TrimBack(b)[|TrimBack(b)| - 1]) && TrimBack(b)[0] == b[0])
  {
    a := [];
    if b != [] && Blank(b[|b| - 1]) {
      a := BackTrimmed(b[..|b| - 1]);
      a := a + [b[|b| - 1]];
    }
  }

  /** What is cut out of decrypted blocks is what a client wrote there. */
  lemma LayoutRead(m1: seq<byte>, m2: Option<seq<byte>>, w: Pair)
    requires |m1| == 128 && (m2.Some? ==> |m2.value| == 128) && Writes(m1, m2, w)
    ensures w == if m2.Some? then FromTwo(m1 + m2.value) else FromOne(m1)
  {
    hide Clean, InField;
    if m2.Some? {
      var m := m1 + m2.value;
      var u, v :| InField(m[78..128], u, 50) && InField(m[206..220], v, 14) && w.username == u + v;
      FieldCleaned(m[78..128], u, 50);
      FieldCleaned(m[206..220], v, 14);
      FieldCleaned(m[220..236], w.password, 16);
    } else {
      FieldCleaned(m1[94..108], w.username, 14);
      FieldCleaned(m1[108..124], w.password, 16);
    }
  }

  /** Every block or pair of blocks writes some credentials, so the laws about written ones leave nothing out. */
  lemma AlwaysWrites(m1: seq<byte>, m2: Option<seq<byte>>)
    requires |m1| == 128 && (m2.Some? ==> |m2.value| == 128)
    ensures Writes(m1, m2, if m2.Some? then FromTwo(m1 + m2.value) else FromOne(m1))
  {
    hide Clean, InField;
    if m2.Some? {
      var m := m1 + m2.value;
      FieldHolds(m[78..128]);
      FieldHolds(m[206..220]);
      FieldHolds(m[220..236]);
    } else {
      FieldHolds(m1[94..108]);
      FieldHolds(m1[108..124]);
    }
  }

  // ---- The code ----

  function FromOne(d: seq<byte>): Pair
    requires |d| == 128
  {
    Pair(Clean(d[0x5E..0x5E + 14]), Clean(d[0x6C..0x6C + 16]))
  }

  function FromTwo(d: seq<byte>): Pair
    requires |d| == 256
  {
    Pair(Clean(d[0x4E..0x4E + 50]) + Clean(d[0xCE..0xCE + 14]), Clean(d[0xDC..0xDC + 16]))
  }

  /** What a login worker makes of its blocks. */
  ghost function Decoded(k: PrivateKey, block1: seq<byte>, block2: Option<seq<byte>>): Result<Pair>
    requires Usable(k)
  {
    match Decrypted(k, block1)
    case Failure(e) => Failure(e)
    case Success(p1) =>
      match block2
      case None => Success(FromOne(p1))
      case Some(b2) =>
        match Decrypted(k, b2)
        case Failure(e) => Failure(e)
        case Success(p2) => Success(FromTwo(p1 + p2))
  }

  method DecodeCredentials(k: PrivateKey, block1: seq<byte>, block2: Option<seq<byte>>, s: RsaScratch)
    returns (r: Result<Pair>)
    requires Usable(k)
    modifies s
    ensures r == Decoded(k, block1, block2)
  {
    hide Usable, Clean;
    var part1 :- RSADecrypt(k, block1, s);
    assert |part1| == RSA_MODULUS_SIZE;
    if block2.Some? {
      var part2 :- RSADecrypt(k, block2.value, s);
      var d := part1 + part2;
      var first := CleanBytes(d[0x4E..0x4E + 50]);
      var second := CleanBytes(d[0xCE..0xCE + 14]);
      var password := CleanBytes(d[0xDC..0xDC + 16]);
      return Success(Pair(first + second, password));
    }
    var username := CleanBytes(part1[0x5E..0x5E + 14]);
    var password := CleanBytes(part1[0x6C..0x6C + 16]);
    r := Success(Pair(username, password));
  }

  /** A client's side: a 128-byte block enciphered with the public exponent. */
  ghost function Enciphered(k: PrivateKey, m: seq<byte>): (c: seq<byte>)
    requires Usable(k) && |m| == RSA_MODULUS_SIZE && FromBytes(m) < k.p * k.q
  {
    DecryptsEncrypted(k, FromBytes(m));
    ToBytes(Pow(FromBytes(m), k.e) % (k.p * k.q), RSA_MODULUS_SIZE)
  }

  lemma BlockRecovered(k: PrivateKey, m: seq<byte>)
    requires Usable(k) && |m| == RSA_MODULUS_SIZE && FromBytes(m) < k.p * k.q
    ensures Decrypted(k, Enciphered(k, m)) == Success(m)
  {
    DecryptsEncrypted(k, FromBytes(m));
    FromThenTo(m);
  }

  /** The server reads exactly the credentials the client wrote into its blocks, in the one-block and in the two-block
      form. */
  lemma CredentialsRecovered(k: PrivateKey, m1: seq<byte>, m2: Option<seq<byte>>, w: Pair)
    requires Usable(k) && |m1| == RSA_MODULUS_SIZE && FromBytes(m1) < k.p * k.q
    requires m2.Some? ==> |m2.value| == RSA_MODULUS_SIZE && FromBytes(m2.value) < k.p * k.q
    requires Writes(m1, m2, w)
    ensures Decoded(k, Enciphered(k, m1), if m2.Some? then Some(Enciphered(k, m2.value)) else None) == Success(w)
  {
    hide Usable, Decrypted, Enciphered, FromOne, FromTwo, Writes;
    BlockRecovered(k, m1);
    if m2.Some? {
      BlockRecovered(k, m2.value);
    }
    LayoutRead(m1, m2, w);
  }

  /** The one or two blocks at the front of a login packet. */
  function LoginBlocks(b: seq<byte>): Option<(seq<byte>, Option<seq<byte>>)> {
    if |b| < 128 then None
    else Some((b[..128], if |b| >= 256 then Some(b[128..256]) else None))
  }

  method ReadLoginBlocks(r: PacketReader) returns (blocks: Result<(seq<byte>, Option<seq<byte>>)>)
    requires r.Valid()
    modifies r`pos
    ensures r.Valid()
    ensures match LoginBlocks(old(r.Remainder()))
            case None => blocks.Failure?
            case Some(v) => blocks == Success(v)
    ensures var b := old(r.Remainder());
            if |b| < 128 then blocks.Failure?
            else blocks == Success((b[..128], if |b| < 256 then None else Some(b[128..256])))
  {
    var block1 :- r.ReadBytes(128);
    assert r.Remainder() == old(r.Remainder())[128..];
    if r.ReadableBytes() >= 128 {
      var block2 := r.ReadBytes(128);  // cannot fail: the bytes are there
      assert old(r.Remainder())[128..][..128] == old(r.Remainder())[128..256];
      return Success((block1, Some(block2.value)));
    }
    blocks := Success((block1, None));
  }
}
