/** The wire format: what the packet writer's bytes mean and how the packet reader takes them apart. Strings are
    null-terminated UTF-16LE (sections 2.1 and 2.2 of RFC 2781). */
module Wire {
  import opened Words
  import opened Wrappers

  // ---- UTF-16 ----

  /** A character as one code unit, or as a surrogate pair above the basic plane (section 2.1 of RFC 2781). */
  function Units(c: char): (u: seq<uint16>) {
    var r := c as int;
    if r <= 0xFFFF then [r] else [0xD800 + (r - 0x1_0000) / 0x400, 0xDC00 + (r - 0x1_0000) % 0x400]
  }

  function Encode(s: string): seq<uint16> {
    if s == [] then [] else Units(s[0]) + Encode(s[1..])
  }

  predicate IsHigh(u: uint16) { 0xD800 <= u < 0xDC00 }

  predicate IsLow(u: uint16) { 0xDC00 <= u < 0xE000 }

  /** The character above the basic plane that a surrogate pair stands for. */
  function Join(high: uint16, low: uint16): char
    requires IsHigh(high) && IsLow(low)
  {
    var (h: int, l: int) := (high - 0xD800, low - 0xDC00);
    (h * 0x400 + l + 0x1_0000) as char
  }

  /** utf16.Decode: pairs are joined, a surrogate on its own becomes U+FFFD (section 2.2 of RFC 2781). */
  function Decode(u: seq<uint16>): (s: string) {
    if u == [] then []
    else if IsHigh(u[0]) && |u| > 1 && IsLow(u[1]) then
      [Join(u[0], u[1])] + Decode(u[2..])
    else if IsHigh(u[0]) || IsLow(u[0]) then ['\U{FFFD}'] + Decode(u[1..])
    else [u[0] as char] + Decode(u[1..])
  }

  /** The two code units of a surrogate pair, as section 2.1 of RFC 2781 has them; below U+10000 the unit is the character. */
  lemma UnitsMeaning(c: char)
    ensures var (u, r) := (Units(c), c as int);
            if r < 0x1_0000 then u == [r]
            else |u| == 2 && var (h: int, l: int) := (u[0], u[1]);
                 0xD800 <= h < 0xDC00 && 0xDC00 <= l < 0xE000 && r == 0x1_0000 + 0x400 * (h - 0xD800) + (l - 0xDC00)
  {
  }

  /** A surrogate that has no partner is read as U+FFFD, and nothing after it is lost. */
  lemma LoneSurrogate(u: uint16, rest: seq<uint16>)
    requires 0xDC00 <= u < 0xE000 || (0xD800 <= u < 0xDC00 && (rest == [] || !(0xDC00 <= rest[0] < 0xE000)))
    ensures Decode([u] + rest) == ['\U{FFFD}'] + Decode(rest)
  {
    assert ([u] + rest)[1..] == rest;
  }

  lemma {:induction false} DecodeEncode(s: string)
    ensures Decode(Encode(s)) == s
  {
    if s != [] {
      DecodeEncode(s[1..]);
      DecodeUnits(s[0], Encode(s[1..]));
    }
  }

  lemma DecodeUnits(c: char, rest: seq<uint16>)
    ensures Decode(Units(c) + rest) == [c] + Decode(rest)
  {
    var u := Units(c) + rest;
    assert u[|Units(c)|..] == rest;
  }

  // ---- Null-terminated strings ----

  function LeUnits(u: seq<uint16>): (b: seq<byte>)
    ensures |b| == 2 * |u|
  {
    if u == [] then [] else Le16(u[0]) + LeUnits(u[1..])
  }

  function UnitsOf(b: seq<byte>): (u: seq<uint16>)
    requires |b| % 2 == 0
  {
    seq(|b| / 2, i requires 0 <= i < |b| / 2 => U16(b[2 * i], b[2 * i + 1]))
  }

  /** The first even position at or after i holding a zero code unit. */
  function Terminator(b: seq<byte>, i: nat): (t: Option<nat>)
    ensures t.Some? ==> i <= t.value && t.value + 1 < |b| && (t.value - i) % 2 == 0
    decreases |b| - i
  {
    if i + 1 >= |b| then None
    else if b[i] == 0 && b[i + 1] == 0 then Some(i)
    else Terminator(b, i + 2)
  }

  function StringBytes(s: string): seq<byte> {
    LeUnits(Encode(s)) + [0, 0]
  }

  /** The outcome of reading from the front of some bytes: a value and the number of bytes it took, or an error. */
  datatype Take<+T> = Took(value: T, used: nat) | Malformed(error: string) {
    function Value(): Result<T> {
      if Took? then Success(value) else Failure(error)
    }

    function Used(): nat {
      if Took? then used else 0
    }
  }

  /** What a string read takes from the front of b: the string and the number of bytes used. */
  function TakeString(b: seq<byte>): Take<string> {
    match Terminator(b, 0)
    case None => Malformed("packet: missing null terminator for string")
    case Some(t) => Took(Decode(UnitsOf(b[..t])), t + 2)
  }

  /** A string read succeeds if and only if some even position holds two zero bytes, and ends after the first such. */
  lemma TakenExactly(b: seq<byte>)
    ensures TakeString(b).Took? <==> exists i :: ZeroUnit(b, i)
    ensures TakeString(b).Took? ==>
              TakeString(b).used >= 2 && ZeroUnit(b, TakeString(b).used - 2)
              && forall i :: ZeroUnit(b, i) ==> TakeString(b).used - 2 <= i
  {
    hide Decode, UnitsOf;
    TerminatorFirst(b, 0);
  }

  ghost predicate ZeroUnit(b: seq<byte>, i: int) {
    0 <= i < |b| - 1 && i % 2 == 0 && b[i] == 0 && b[i + 1] == 0
  }

  lemma {:induction false} TerminatorFirst(b: seq<byte>, i: nat)
    requires i % 2 == 0
    ensures Terminator(b, i).Some? ==> ZeroUnit(b, Terminator(b, i).value)
    ensures forall j :: i <= j && ZeroUnit(b, j) ==> Terminator(b, i).Some? && Terminator(b, i).value <= j
    decreases |b| - i
  {
    if i + 1 < |b| && !(b[i] == 0 && b[i + 1] == 0) {
      TerminatorFirst(b, i + 2);
    }
  }

  /** No string that was read holds a NUL. */
  lemma ReadNulFree(b: seq<byte>)
    requires TakeString(b).Took?
    ensures '\0' !in TakeString(b).value
  {
    TerminatorFirst(b, 0);
    var t := Terminator(b, 0).value;
    var u := UnitsOf(b[..t]);
    forall i | 0 <= i < |u|
      ensures u[i] != 0
    {
      assert u[i] == 0 ==> ZeroUnit(b, 2 * i);
    }
    DecodeNulFree(u);
  }

  lemma {:induction false} DecodeNulFree(u: seq<uint16>)
    requires 0 !in u
    ensures '\0' !in Decode(u)
    decreases |u|
  {
    if u != [] {
      assert u[0] in u;
      DecodeNulFree(u[1..]);
      if |u| > 1 {
        DecodeNulFree(u[2..]);
      }
    }
  }

  function UpToNul(s: string): (r: string) {
    if s == [] || s[0] == '\0' then [] else [s[0]] + UpToNul(s[1..])
  }

  lemma {:induction false} UpToNulWhole(s: string)
    ensures UpToNul(s) == s <==> '\0' !in s
  {
    if s != [] && s[0] != '\0' {
      UpToNulWhole(s[1..]);
      assert s == [s[0]] + s[1..];
    }
  }

  lemma {:induction false} UnitsOfLe(u: seq<uint16>)
    ensures UnitsOf(LeUnits(u)) == u
  {
    if u != [] {
      var (b, t) := (LeUnits(u), LeUnits(u[1..]));
      assert b == Le16(u[0]) + t;
      UnitsOfLe(u[1..]);
      UnitsCons(u[0], t);
    }
  }

  lemma UnitsCons(w: uint16, t: seq<byte>)
    requires |t| % 2 == 0
    ensures UnitsOf(Le16(w) + t) == [w] + UnitsOf(t)
  {
    var b := Le16(w) + t;
    forall i | 0 < i <= |t| / 2
      ensures UnitsOf(b)[i] == UnitsOf(t)[i - 1]
    {
      assert b[2 * i] == t[2 * (i - 1)] && b[2 * i + 1] == t[2 * (i - 1) + 1];
    }
  }

  lemma {:induction false} TerminatorAfter(u: seq<uint16>, rest: seq<byte>)
    requires 0 !in u
    ensures Terminator(LeUnits(u) + [0, 0] + rest, 0) == Some(2 * |u|)
  {
    var b := LeUnits(u) + [0, 0] + rest;
    if u != [] {
      TerminatorAfter(u[1..], rest);
      assert u[0] in u;
      assert b[2..] == LeUnits(u[1..]) + [0, 0] + rest;
      TerminatorShift(b, 2, 0);
    }
  }

  lemma {:induction false} TerminatorShift(b: seq<byte>, d: nat, i: nat)
    requires d <= |b|
    ensures Terminator(b, d + i) == match Terminator(b[d..], i) case None => None case Some(t) => Some(d + t)
    decreases |b| - d - i
  {
    if d + i + 1 < |b| {
      TerminatorShift(b, d, i + 2);
    }
  }

  lemma {:induction false} EncodeNonZero(s: string)
    requires '\0' !in s
    ensures 0 !in Encode(s)
  {
    if s != [] {
      assert s[0] in s;
      EncodeNonZero(s[1..]);
    }
  }

  /** Splits an encoded string at its first NUL. */
  lemma {:induction false} StringBytesSplit(s: string) returns (tail: seq<byte>)
    ensures StringBytes(s) == StringBytes(UpToNul(s)) + tail
    ensures '\0' !in s ==> tail == []
    ensures '\0' !in UpToNul(s)
  {
    hide StringBytes, LeUnits, Units;
    if s == [] {
      tail := [];
    } else if s[0] == '\0' {
      tail := NulFirst(s[1..]);
      assert s == ['\0'] + s[1..];
    } else {
      tail := StringBytesSplit(s[1..]);
      StringBytesCons(s[0], s[1..]);
      StringBytesCons(s[0], UpToNul(s[1..]));
      assert s == [s[0]] + s[1..];
    }
  }

  lemma NulFirst(s: string) returns (tail: seq<byte>)
    ensures StringBytes(['\0'] + s) == StringBytes([]) + tail
  {
    tail := StringBytes(s);
    StringBytesCons('\0', s);
    assert StringBytes([]) == [0, 0] == LeUnits(Units('\0'));
  }

  lemma StringBytesCons(c: char, s: string)
    ensures StringBytes([c] + s) == LeUnits(Units(c)) + StringBytes(s)
  {
    assert ([c] + s)[1..] == s;
    LeUnitsConcat(Units(c), Encode(s));
  }

  lemma {:induction false} LeUnitsConcat(u: seq<uint16>, v: seq<uint16>)
    ensures LeUnits(u + v) == LeUnits(u) + LeUnits(v)
  {
    if u == [] {
      assert u + v == v;
    } else {
      LeUnitsConcat(u[1..], v);
      assert (u + v)[1..] == u[1..] + v;
    }
  }

  /** A NUL-free string is taken whole from in front of anything at all. */
  lemma StringTaken(r: string, rest: seq<byte>)
    requires '\0' !in r
    ensures TakeString(StringBytes(r) + rest) == Took(r, |StringBytes(r)|)
  {
    hide Encode, Decode, LeUnits, UnitsOf, Terminator;
    var u := Encode(r);
    EncodeNonZero(r);
    TerminatorAfter(u, rest);
    assert (LeUnits(u) + [0, 0] + rest)[..2 * |u|] == LeUnits(u);
    UnitsOfLe(u);
    DecodeEncode(r);
  }

  /** Reading a written string back stops at its first NUL. */
  lemma StringRead(s: string, rest: seq<byte>)
    ensures TakeString(StringBytes(s) + rest) == Took(UpToNul(s), |StringBytes(UpToNul(s))|)
  {
    hide StringBytes, TakeString;
    var tail := StringBytesSplit(s);
    assert StringBytes(s) + rest == StringBytes(UpToNul(s)) + (tail + rest);
    StringTaken(UpToNul(s), tail + rest);
  }

  /** A string survives the wire, and exactly its own bytes are consumed, if and only if it contains no NUL. */
  lemma StringRoundTrip(s: string, rest: seq<byte>)
    ensures TakeString(StringBytes(s) + rest) == Took(s, |StringBytes(s)|) <==> '\0' !in s
  {
    StringRead(s, rest);
    UpToNulWhole(s);
  }

  // ---- Typed fields ----

  datatype Kind = KByte | KU16 | KU32 | KU64 | KI16 | KI32 | KI64 | KBytes(n: nat) | KString

  datatype Field =
    | Byte(b: byte) | UInt16(u16: uint16) | UInt32(u32: uint32) | UInt64(u64: uint64)
    | Int16(i16: int16) | Int32(i32: int32) | Int64(i64: int64)
    | Bytes(bytes: seq<byte>) | String(s: string)

  function KindOf(f: Field): Kind {
    match f
    case Byte(_) => KByte
    case UInt16(_) => KU16
    case UInt32(_) => KU32
    case UInt64(_) => KU64
    case Int16(_) => KI16
    case Int32(_) => KI32
    case Int64(_) => KI64
    case Bytes(b) => KBytes(|b|)
    case String(_) => KString
  }

  /** The bytes a writer appends for a field. */
  function FieldBytes(f: Field): seq<byte> {
    match f
    case Byte(b) => [b]
    case UInt16(v) => Le16(v)
    case UInt32(v) => Le32(v)
    case UInt64(v) => Le64(v)
    case Int16(v) => Le16(ToU16(v))
    case Int32(v) => Le32(ToU32(v))
    case Int64(v) => Le64(ToU64(v))
    case Bytes(b) => b
    case String(s) => StringBytes(s)
  }

  /** Integers take their full width, least significant byte first, negative ones as two's complement; runs of bytes are
      themselves; strings are their code units, two bytes each, and a zero unit. */
  lemma FieldMeaning(f: Field)
    ensures var (b, n) := (FieldBytes(f), LittleEndian(FieldBytes(f)));
            match f
            case Byte(v) => b == [v]
            case UInt16(v) => |b| == 2 && n == v
            case UInt32(v) => |b| == 4 && n == v
            case UInt64(v) => |b| == 8 && n == v
            case Int16(v) => |b| == 2 && n == (if v < 0 then 0x1_0000 + v else v)
            case Int32(v) => |b| == 4 && n == (if v < 0 then 0x1_0000_0000 + v else v)
            case Int64(v) => |b| == 8 && n == (if v < 0 then 0x1_0000_0000_0000_0000 + v else v)
            case Bytes(v) => b == v
            case String(s) =>
              |b| == 2 * |Encode(s)| + 2 && b[|b| - 2] == b[|b| - 1] == 0
              && forall i :: 0 <= i < |Encode(s)| ==> LittleEndian(b[2 * i..2 * i + 2]) == Encode(s)[i]
  {
    hide Le32, Le64, LittleEndian, Encode;
    match f
    case UInt16(v) => PackedValues(v, 0, 0);
    case UInt32(v) => PackedValues(0, v, 0);
    case UInt64(v) => PackedValues(0, 0, v);
    case Int16(v) => PackedValues(ToU16(v), 0, 0); TwosComplement(v, 0, 0);
    case Int32(v) => PackedValues(0, ToU32(v), 0); TwosComplement(0, v, 0);
    case Int64(v) => PackedValues(0, 0, ToU64(v)); TwosComplement(0, 0, v);
    case String(s) =>
      forall i | 0 <= i < |Encode(s)|
        ensures LittleEndian(FieldBytes(f)[2 * i..2 * i + 2]) == Encode(s)[i]
      {
        UnitAt(Encode(s), i);
        assert FieldBytes(f)[2 * i..2 * i + 2] == LeUnits(Encode(s))[2 * i..2 * i + 2];
      }
    case _ =>
  }

  lemma {:induction false} UnitAt(u: seq<uint16>, i: nat)
    requires i < |u|
    ensures LittleEndian(LeUnits(u)[2 * i..2 * i + 2]) == u[i]
  {
    hide LittleEndian;
    if i == 0 {
      PackedValues(u[0], 0, 0);
      assert LeUnits(u)[0..2] == Le16(u[0]);
    } else {
      UnitAt(u[1..], i - 1);
      assert LeUnits(u)[2 * i..2 * i + 2] == LeUnits(u[1..])[2 * (i - 1)..2 * (i - 1) + 2];
    }
  }

  function OutOfBounds<T>(): Take<T> {
    Malformed("packet: out of bounds")
  }

  function TakeByte(b: seq<byte>): Take<byte> {
    if |b| < 1 then OutOfBounds() else Took(b[0], 1)
  }

  function TakeU16(b: seq<byte>): Take<uint16> {
    if |b| < 2 then OutOfBounds() else Took(U16(b[0], b[1]), 2)
  }

  function TakeU32(b: seq<byte>): Take<uint32> {
    if |b| < 4 then OutOfBounds() else Took(Word(b, 0), 4)
  }

  function U64(lo: uint32, hi: uint32): uint64 { lo + 0x1_0000_0000 * hi }

  function TakeU64(b: seq<byte>): Take<uint64> {
    if |b| < 8 then OutOfBounds() else Took(U64(Word(b, 0), Word(b, 4)), 8)
  }

  function TakeBytes(b: seq<byte>, n: nat): Take<seq<byte>> {
    if |b| < n then OutOfBounds() else Took(b[..n], n)
  }

  /** What reading a field of kind k takes from the front of b. */
  function TakeField(k: Kind, b: seq<byte>): Take<Field> {
    match k
    case KByte => (match TakeByte(b) case Took(v, n) => Took(Byte(v), n) case Malformed(e) => Malformed(e))
    case KU16 => (match TakeU16(b) case Took(v, n) => Took(UInt16(v), n) case Malformed(e) => Malformed(e))
    case KU32 => (match TakeU32(b) case Took(v, n) => Took(UInt32(v), n) case Malformed(e) => Malformed(e))
    case KU64 => (match TakeU64(b) case Took(v, n) => Took(UInt64(v), n) case Malformed(e) => Malformed(e))
    case KI16 => (match TakeU16(b) case Took(v, n) => Took(Int16(ToI16(v)), n) case Malformed(e) => Malformed(e))
    case KI32 => (match TakeU32(b) case Took(v, n) => Took(Int32(ToI32(v)), n) case Malformed(e) => Malformed(e))
    case KI64 => (match TakeU64(b) case Took(v, n) => Took(Int64(ToI64(v)), n) case Malformed(e) => Malformed(e))
    case KBytes(m) => (match TakeBytes(b, m) case Took(v, n) => Took(Bytes(v), n) case Malformed(e) => Malformed(e))
    case KString => (match TakeString(b) case Took(v, n) => Took(String(v), n) case Malformed(e) => Malformed(e))
  }

  predicate NulFree(f: Field) {
    f.String? ==> '\0' !in f.s
  }

  lemma TakeLe16(w: uint16, rest: seq<byte>)
    ensures |Le16(w)| == 2 && TakeU16(Le16(w) + rest) == Took(w, 2) && (Le16(w) + rest)[2..] == rest
  {
  }

  lemma TakeLe32(w: uint32, rest: seq<byte>)
    ensures |Le32(w)| == 4 && TakeU32(Le32(w) + rest) == Took(w, 4)
  {
    hide Le32, Word;
    WordOfLe([], w, rest);
    assert [] + Le32(w) + rest == Le32(w) + rest;
  }

  lemma TakeLe64(w: uint64, rest: seq<byte>)
    ensures |Le64(w)| == 8 && TakeU64(Le64(w) + rest) == Took(w, 8)
  {
    hide Le32, Word;
    var (lo, hi) := (w % 0x1_0000_0000, w / 0x1_0000_0000);
    WordOfLe([], lo, Le32(hi) + rest);
    WordOfLe(Le32(lo), hi, rest);
    assert [] + Le32(lo) + (Le32(hi) + rest) == Le64(w) + rest == Le32(lo) + Le32(hi) + rest;
  }

  /** A written field is read back, whatever follows it, using exactly its own bytes; only a string holding a NUL is
      not. */
  lemma FieldRoundTrip(f: Field, rest: seq<byte>)
    ensures TakeField(KindOf(f), FieldBytes(f) + rest) == Took(f, |FieldBytes(f)|) <==> NulFree(f)
    ensures TakeField(KindOf(f), FieldBytes(f) + rest).Took?
    ensures !NulFree(f) ==> TakeField(KindOf(f), FieldBytes(f) + rest).value != f
  {
    hide TakeU32, TakeU64, Le32, Le64, TakeString, StringBytes;
    match f
    case UInt32(v) => TakeLe32(v, rest);
    case Int32(v) => TakeLe32(ToU32(v), rest);
    case UInt64(v) => TakeLe64(v, rest);
    case Int64(v) => TakeLe64(ToU64(v), rest);
    case Bytes(b) => assert (b + rest)[..|b|] == b;
    case String(s) => StringRead(s, rest); UpToNulWhole(s);
    case _ =>
  }

  function FieldsBytes(fs: seq<Field>): seq<byte> {
    if fs == [] then [] else FieldBytes(fs[0]) + FieldsBytes(fs[1..])
  }

  function KindsOf(fs: seq<Field>): (ks: seq<Kind>) {
    seq(|fs|, i requires 0 <= i < |fs| => KindOf(fs[i]))
  }

  /** Reading a list of kinds one after the other. */
  function TakeFields(ks: seq<Kind>, b: seq<byte>): Take<seq<Field>> {
    if ks == [] then Took([], 0)
    else
      match TakeField(ks[0], b)
      case Malformed(e) => Malformed(e)
      case Took(f, n) =>
        TakeFieldInBounds(ks[0], b);
        match TakeFields(ks[1..], b[n..])
        case Malformed(e) => Malformed(e)
        case Took(fs, m) => Took([f] + fs, n + m)
  }

  /** A reader never uses more bytes than there are. */
  lemma TakeFieldInBounds(k: Kind, b: seq<byte>)
    ensures TakeField(k, b).Used() <= |b|
  {
  }

  /** A list of fields survives the wire, with exactly the bytes written consumed, if and only if none of its strings
      holds a NUL. */
  lemma {:induction false} FieldsRoundTrip(fs: seq<Field>, rest: seq<byte>)
    ensures TakeFields(KindsOf(fs), FieldsBytes(fs) + rest) == Took(fs, |FieldsBytes(fs)|)
            <==> forall i :: 0 <= i < |fs| ==> NulFree(fs[i])
  {
    hide TakeField, FieldBytes, KindOf, NulFree;
    if fs == [] {
      assert KindsOf(fs) == [];
    } else {
      var (f, tail) := (fs[0], FieldsBytes(fs[1..]) + rest);
      var b := FieldBytes(f) + tail;
      assert FieldsBytes(fs) + rest == b;
      FieldRoundTrip(f, tail);
      assert b[|FieldBytes(f)|..] == tail;
      assert KindsOf(fs)[1..] == KindsOf(fs[1..]);
      FieldsRoundTrip(fs[1..], rest);
      assert [f] + fs[1..] == fs;
      AllNulFree(fs);
    }
  }

  lemma AllNulFree(fs: seq<Field>)
    requires fs != []
    ensures (forall i :: 0 <= i < |fs| ==> NulFree(fs[i])) <==>
            NulFree(fs[0]) && forall i :: 0 <= i < |fs[1..]| ==> NulFree(fs[1..][i])
  {
    hide NulFree;
    assert forall i :: 0 < i < |fs| ==> fs[i] == fs[1..][i - 1];
  }

  // ---- Fields of fixed size ----

  /** The size of a field, for every kind but strings. */
  function FixedSize(k: Kind): nat {
    match k
    case KByte => 1
    case KU16 => 2
    case KU32 => 4
    case KU64 => 8
    case KI16 => 2
    case KI32 => 4
    case KI64 => 8
    case KBytes(n) => n
    case KString => 0
  }

  function KindsSize(ks: seq<Kind>): nat {
    if ks == [] then 0 else FixedSize(ks[0]) + KindsSize(ks[1..])
  }

  lemma {:induction false} KindsSizeConcat(a: seq<Kind>, b: seq<Kind>)
    ensures KindsSize(a + b) == KindsSize(a) + KindsSize(b)
  {
    if a == [] {
      assert a + b == b;
    } else {
      assert (a + b)[1..] == a[1..] + b;
      KindsSizeConcat(a[1..], b);
    }
  }

  lemma PairSize(a: Kind, b: Kind)
    ensures KindsSize([a]) == FixedSize(a) && KindsSize([a, b]) == FixedSize(a) + FixedSize(b)
  {
    assert [a, b][1..] == [b] && [b][1..] == [] && [a][1..] == [];
  }

  lemma FieldSize(f: Field)
    requires !f.String?
    ensures |FieldBytes(f)| == FixedSize(KindOf(f))
  {
  }

  lemma {:induction false} FieldsSize(fs: seq<Field>)
    requires forall i :: 0 <= i < |fs| ==> !fs[i].String?
    ensures |FieldsBytes(fs)| == KindsSize(KindsOf(fs))
  {
    hide FieldBytes, FixedSize, KindOf;
    if fs == [] {
      assert KindsOf(fs) == [];
    } else {
      FieldSize(fs[0]);
      FieldsSize(fs[1..]);
      assert KindsOf(fs)[1..] == KindsOf(fs[1..]);
    }
  }

  lemma FixedTaken(k: Kind, b: seq<byte>)
    requires k != KString
    ensures TakeField(k, b).Took? <==> |b| >= FixedSize(k)
    ensures TakeField(k, b).Took? ==> TakeField(k, b).used == FixedSize(k)
  {
  }

  /** Fields of fixed size can be read if and only if there are bytes for all of them. */
  lemma {:induction false} FixedFieldsTaken(ks: seq<Kind>, b: seq<byte>)
    requires KString !in ks
    ensures TakeFields(ks, b).Took? <==> |b| >= KindsSize(ks)
  {
    hide TakeField, FixedSize;
    if ks != [] {
      FixedTaken(ks[0], b);
      if |b| >= FixedSize(ks[0]) {
        FixedFieldsTaken(ks[1..], b[FixedSize(ks[0])..]);
      }
    }
  }
}
