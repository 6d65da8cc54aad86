/** pkg/network/packet_writer.go: a growing byte buffer. The slice w.buf is a backing array and a length; bytes past the
    length hold whatever an earlier packet left there. */
module PacketWriters {
  import opened Words
  import opened Wire

  function UnitCount(s: string): nat {
    |Encode(s)|
  }

  class PacketWriter {
    var arr: array<byte>
    var len: nat

    ghost predicate Valid()
      reads this
    {
      len <= arr.Length
    }

    ghost function Contents(): (s: seq<byte>)
      requires Valid()
      reads this, arr
    {
      arr[..len]
    }

    /** GetPacketWriter: the two bytes reserved for the length come first. */
    constructor ()
      ensures Valid() && fresh(arr) && Contents() == [0, 0]
    {
      arr := new byte[1024];
      len := 2;
      new;
      arr[0], arr[1] := 0, 0;
    }

    /** Moves the contents to a larger backing array. */
    method Move(capacity: nat)
      requires Valid() && capacity >= len
      modifies this
      ensures Valid() && fresh(arr) && arr.Length == capacity && len == old(len) && Contents() == old(Contents())
    {
      var newBuf := new byte[capacity];
      forall i | 0 <= i < len {
        newBuf[i] := arr[i];
      }
      arr := newBuf;
      assert Contents() == old(Contents());
    }

    /** Ensures room for n more bytes, doubling what is needed, but past 64 KiB only what is needed. Nothing visible
        changes. */
    method Reserve(n: nat)
      requires Valid()
      modifies this
      ensures Valid() && (arr == old(arr) || fresh(arr))
      ensures len == old(len) && Contents() == old(Contents()) && arr.Length - len >= n
      ensures arr.Length == if old(arr.Length) - len >= n then old(arr.Length)
                            else if (old(arr.Length) + n) * 2 > 65536 then old(arr.Length) + n
                            else (old(arr.Length) + n) * 2
    {
      if arr.Length - len < n {
        var newCap := (arr.Length + n) * 2;
        if newCap > 65536 {
          newCap := arr.Length + n;
        }
        Move(newCap);
      }
    }

    /** append: the run-time library picks the new capacity. */
    method Append(b: seq<byte>)
      requires Valid()
      modifies this, arr
      ensures Valid() && (arr == old(arr) || fresh(arr))
      ensures Contents() == old(Contents()) + b
    {
      if arr.Length - len < |b| {
        var newCap :| newCap >= len + |b|;
        Move(newCap);
      }
      forall i | 0 <= i < |b| {
        arr[len + i] := b[i];
      }
      len := len + |b|;
    }

    /** Lengthens the buffer by n bytes without initialising them. */
    method Extend(n: nat) returns (s: Slice)
      requires Valid()
      modifies this
      ensures Valid() && (arr == old(arr) || fresh(arr))
      ensures len == old(len) + n && Contents()[..old(len)] == old(Contents())
      ensures s == Slice(arr, old(len), len)
    {
      Reserve(n);
      len := len + n;
      s := Slice(arr, len - n, len);
    }

    /** Overwrites bytes that are already in the buffer. */
    method Put(pos: nat, b: seq<byte>)
      requires Valid() && pos + |b| <= len
      modifies arr
      ensures Contents() == Splice(old(Contents()), pos, b)
    {
      forall i | 0 <= i < |b| {
        arr[pos + i] := b[i];
      }
    }

    method WriteByte(v: byte)
      requires Valid()
      modifies this, arr
      ensures Valid() && (arr == old(arr) || fresh(arr))
      ensures Contents() == old(Contents()) + FieldBytes(Byte(v))
    {
      Append([v]);
    }

    method WriteUint16(v: uint16)
      requires Valid()
      modifies this, arr
      ensures Valid() && (arr == old(arr) || fresh(arr))
      ensures Contents() == old(Contents()) + FieldBytes(UInt16(v))
    {
      var pos := len;
      Append([0, 0]);
      Put(pos, Le16(v));
    }

    method WriteInt16(v: int16)
      requires Valid()
      modifies this, arr
      ensures Valid() && (arr == old(arr) || fresh(arr))
      ensures Contents() == old(Contents()) + FieldBytes(Int16(v))
    {
      WriteUint16(ToU16(v));
    }

    method WriteUint32(v: uint32)
      requires Valid()
      modifies this, arr
      ensures Valid() && (arr == old(arr) || fresh(arr))
      ensures Contents() == old(Contents()) + FieldBytes(UInt32(v))
    {
      var pos := len;
      Append([0, 0, 0, 0]);
      Put(pos, Le32(v));
    }

    method WriteInt32(v: int32)
      requires Valid()
      modifies this, arr
      ensures Valid() && (arr == old(arr) || fresh(arr))
      ensures Contents() == old(Contents()) + FieldBytes(Int32(v))
    {
      WriteUint32(ToU32(v));
    }

    method WriteUint64(v: uint64)
      requires Valid()
      modifies this, arr
      ensures Valid() && (arr == old(arr) || fresh(arr))
      ensures Contents() == old(Contents()) + FieldBytes(UInt64(v))
    {
      var pos := len;
      Append([0, 0, 0, 0, 0, 0, 0, 0]);
      Put(pos, Le64(v));
    }

    method WriteInt64(v: int64)
      requires Valid()
      modifies this, arr
      ensures Valid() && (arr == old(arr) || fresh(arr))
      ensures Contents() == old(Contents()) + FieldBytes(Int64(v))
    {
      WriteUint64(ToU64(v));
    }

    method WriteBytes(b: seq<byte>)
      requires Valid()
      modifies this, arr
      ensures Valid() && (arr == old(arr) || fresh(arr))
      ensures Contents() == old(Contents()) + FieldBytes(Bytes(b))
    {
      Append(b);
    }

    /** Writes b at pos and moves past it. */
    method PutNext(start: nat, b: seq<byte>) returns (pos: nat)
      requires Valid() && start + |b| <= len
      modifies arr
      ensures pos == start + |b|
      ensures Contents()[..pos] == old(Contents())[..start] + b
    {
      Put(start, b);
      SpliceParts(old(Contents()), start, b);
      pos := start + |b|;
      assert Contents()[..pos] == Contents()[..start] + Contents()[start..pos];
    }

    /** One turn of the string loop: a code unit, or a surrogate pair. */
    method PutChar(start: nat, c: char) returns (pos: nat)
      requires Valid() && start + 2 * |Units(c)| <= len
      modifies arr
      ensures pos == start + 2 * |Units(c)|
      ensures Contents()[..pos] == old(Contents())[..start] + LeUnits(Units(c))
    {
      hide LeUnits;
      pos := start;
      var r := c as int;
      LeUnitsOf(c);
      if r <= 0xFFFF {
        pos := PutNext(pos, Le16(r));
      } else {
        pos := PutNext(pos, Le16(0xD800 + (r - 0x1_0000) / 0x400));
        pos := PutNext(pos, Le16(0xDC00 + (r - 0x1_0000) % 0x400));
      }
    }

    /** The string loop, over room that is already there. */
    method PutUnits(start: nat, s: string) returns (pos: nat)
      requires Valid() && start + 2 * UnitCount(s) <= len
      modifies arr
      ensures pos == start + 2 * UnitCount(s)
      ensures Contents()[..pos] == old(Contents())[..start] + LeUnits(Encode(s))
    {
      hide Encode, Units, LeUnits;
      pos := start;
      assert s[..0] == [] && s[0..] == s;
      EncodeEmpty();
      for i := 0 to |s|
        invariant pos == start + 2 * UnitCount(s[..i]) <= len
        invariant UnitCount(s) == UnitCount(s[..i]) + UnitCount(s[i..])
        invariant Contents()[..pos] == old(Contents())[..start] + LeUnits(Encode(s[..i]))
      {
        EncodeNext(s, i);
        pos := PutChar(pos, s[i]);
      }
      assert s[..|s|] == s;
    }

    /** Writes a null-terminated UTF-16LE string over uninitialised bytes. */
    method WriteString(s: string)
      requires Valid()
      modifies this, arr
      ensures Valid() && (arr == old(arr) || fresh(arr))
      ensures Contents() == old(Contents()) + FieldBytes(String(s))
    {
      hide Encode, LeUnits;
      var utf16Count := Utf16Len(s);
      var sizeInBytes := utf16Count * 2 + 2;
      var pos := len;
      ghost var start := Contents();
      Reserve(sizeInBytes);
      len := pos + sizeInBytes;
      assert Contents()[..pos] == start;
      pos := PutUnits(pos, s);
      pos := PutNext(pos, [0, 0]);
      assert Contents()[..len] == Contents();
      assert Contents() == start + StringBytes(s);
    }

    /** Stamps the total length, header included, into the first two bytes; more than 65535 bytes panics. */
    method PrependLength()
      requires Valid() && 2 <= len <= 65535
      modifies arr
      ensures Contents() == Le16(old(len)) + old(Contents())[2..]
    {
      Put(0, Le16(len));
    }
  }

  /** The write method of a field's type. */
  method WriteField(w: PacketWriter, f: Field)
    requires w.Valid()
    modifies w, w.arr
    ensures w.Valid() && (w.arr == old(w.arr) || fresh(w.arr))
    ensures w.Contents() == old(w.Contents()) + FieldBytes(f)
  {
    hide FieldBytes;
    match f
    case Byte(b) => w.WriteByte(b);
    case UInt16(v) => w.WriteUint16(v);
    case UInt32(v) => w.WriteUint32(v);
    case UInt64(v) => w.WriteUint64(v);
    case Int16(v) => w.WriteInt16(v);
    case Int32(v) => w.WriteInt32(v);
    case Int64(v) => w.WriteInt64(v);
    case Bytes(b) => w.WriteBytes(b);
    case String(s) => w.WriteString(s);
  }

  /** What a packet's build function does: write some fields. */
  method Build(w: PacketWriter, fields: seq<Field>)
    requires w.Valid()
    modifies w, w.arr
    ensures w.Valid() && (w.arr == old(w.arr) || fresh(w.arr))
    ensures w.Contents() == old(w.Contents()) + FieldsBytes(fields)
  {
    hide FieldBytes;
    assert fields[0..] == fields;
    for i := 0 to |fields|
      invariant w.Valid() && (w.arr == old(w.arr) || fresh(w.arr))
      invariant w.Contents() + FieldsBytes(fields[i..]) == old(w.Contents()) + FieldsBytes(fields)
    {
      assert fields[i..][1..] == fields[i + 1..];
      WriteField(w, fields[i]);
    }
    assert fields[|fields|..] == [];
    assert w.Contents() + [] == w.Contents();
  }

  lemma EncodeNext(s: string, i: nat)
    requires i < |s|
    ensures Encode(s[..i + 1]) == Encode(s[..i]) + Units(s[i])
    ensures Encode(s[i..]) == Units(s[i]) + Encode(s[i + 1..])
    ensures LeUnits(Encode(s[..i + 1])) == LeUnits(Encode(s[..i])) + LeUnits(Units(s[i]))
  {
    assert s[..i + 1] == s[..i] + [s[i]];
    EncodeSnoc(s[..i], s[i]);
    LeUnitsConcat(Encode(s[..i]), Units(s[i]));
  }

  lemma LeUnitsOf(c: char)
    ensures var (u, r) := (Units(c), c as int);
            if r <= 0xFFFF then LeUnits(u) == Le16(r)
            else LeUnits(u) == Le16(0xD800 + (r - 0x1_0000) / 0x400) + Le16(0xDC00 + (r - 0x1_0000) % 0x400)
  {
    var u := Units(c);
    if |u| == 2 {
      assert LeUnits(u) == Le16(u[0]) + LeUnits(u[1..]);
      assert LeUnits(u[1..]) == Le16(u[1]) + LeUnits(u[1..][1..]);
    }
  }

  lemma EncodeEmpty()
    ensures Encode([]) == [] && LeUnits([]) == []
  {
  }

  lemma {:induction false} EncodeSnoc(s: string, c: char)
    ensures Encode(s + [c]) == Encode(s) + Units(c)
  {
    if s == [] {
      assert Encode([c]) == Units(c) + Encode([]);
    } else {
      assert (s + [c])[1..] == s[1..] + [c];
      EncodeSnoc(s[1..], c);
    }
  }

  /** utf16Len: one unit per character, two above the basic plane. */
  method Utf16Len(s: string) returns (count: nat)
    ensures count == UnitCount(s)
  {
    count := 0;
    for i := 0 to |s|
      invariant count == UnitCount(s[..i])
    {
      EncodeNext(s, i);
      if s[i] as int <= 0xFFFF {
        count := count + 1;
      } else {
        count := count + 2;
      }
    }
    assert s[..|s|] == s;
  }
}
