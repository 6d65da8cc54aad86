/** pkg/network/packet_reader.go: a cursor over the bytes of one packet. Every read either takes its value from the front
    of the remaining bytes and moves past it, or reports an error and moves nothing. */
module PacketReaders {
  import opened Words
  import opened Wire
  import opened Wrappers

  const MAX_PACKET_SIZE := 65536

  class PacketReader {
    var buf: seq<byte>
    var pos: nat

    ghost predicate Valid()
      reads this
    {
      pos <= |buf|
    }

    ghost function Remainder(): (b: seq<byte>)
      requires Valid()
      reads this
    {
      buf[pos..]
    }

    constructor (data: seq<byte>)
      ensures Valid() && buf == data && pos == 0
    {
      buf, pos := data, 0;
    }

    function ReadableBytes(): int
      reads this
    {
      |buf| - pos
    }

    method ReadByte() returns (r: Result<byte>)
      requires Valid()
      modifies this`pos
      ensures Valid()
      ensures r == TakeByte(old(Remainder())).Value()
      ensures pos == old(pos) + TakeByte(old(Remainder())).Used()
    {
      if pos >= |buf| {
        return Failure("packet: out of bounds");
      }
      r := Success(buf[pos]);
      pos := pos + 1;
    }

    method ReadUint16() returns (r: Result<uint16>)
      requires Valid()
      modifies this`pos
      ensures Valid()
      ensures r == TakeU16(old(Remainder())).Value()
      ensures pos == old(pos) + TakeU16(old(Remainder())).Used()
    {
      if pos + 2 > |buf| {
        return Failure("packet: out of bounds");
      }
      r := Success(U16(buf[pos], buf[pos + 1]));
      pos := pos + 2;
    }

    method ReadUint32() returns (r: Result<uint32>)
      requires Valid()
      modifies this`pos
      ensures Valid()
      ensures r == TakeU32(old(Remainder())).Value()
      ensures pos == old(pos) + TakeU32(old(Remainder())).Used()
    {
      if pos + 4 > |buf| {
        return Failure("packet: out of bounds");
      }
      r := Success(Word(buf, pos));
      pos := pos + 4;
    }

    method ReadUint64() returns (r: Result<uint64>)
      requires Valid()
      modifies this`pos
      ensures Valid()
      ensures r == TakeU64(old(Remainder())).Value()
      ensures pos == old(pos) + TakeU64(old(Remainder())).Used()
    {
      if pos + 8 > |buf| {
        return Failure("packet: out of bounds");
      }
      r := Success(U64(Word(buf, pos), Word(buf, pos + 4)));
      pos := pos + 8;
    }

    method ReadInt16() returns (r: Result<int16>)
      requires Valid()
      modifies this`pos
      ensures Valid()
      ensures var t := TakeU16(old(Remainder()));
              pos == old(pos) + t.Used() && r == match t.Value() case Success(u) => Success(ToI16(u)) case Failure(e) => Failure(e)
    {
      var v :- ReadUint16();
      r := Success(ToI16(v));
    }

    method ReadInt32() returns (r: Result<int32>)
      requires Valid()
      modifies this`pos
      ensures Valid()
      ensures var t := TakeU32(old(Remainder()));
              pos == old(pos) + t.Used() && r == match t.Value() case Success(u) => Success(ToI32(u)) case Failure(e) => Failure(e)
    {
      var v :- ReadUint32();
      r := Success(ToI32(v));
    }

    method ReadInt64() returns (r: Result<int64>)
      requires Valid()
      modifies this`pos
      ensures Valid()
      ensures var t := TakeU64(old(Remainder()));
              pos == old(pos) + t.Used() && r == match t.Value() case Success(u) => Success(ToI64(u)) case Failure(e) => Failure(e)
    {
      var v :- ReadUint64();
      r := Success(ToI64(v));
    }

    method ReadBytes(n: nat) returns (r: Result<seq<byte>>)
      requires Valid()
      modifies this`pos
      ensures Valid()
      ensures r == TakeBytes(old(Remainder()), n).Value()
      ensures pos == old(pos) + TakeBytes(old(Remainder()), n).Used()
    {
      if pos + n > |buf| {
        return Failure("packet: out of bounds");
      }
      assert buf[pos..pos + n] == buf[pos..][..n];
      r := Success(buf[pos..pos + n]);
      pos := pos + n;
    }

    /** Scans for the terminating zero code unit, unpacks the units before it (into a pooled buffer when they fit) and
        decodes them. */
    method ReadString() returns (r: Result<string>)
      requires Valid()
      modifies this`pos
      ensures Valid()
      ensures r == TakeString(old(Remainder())).Value()
      ensures pos == old(pos) + TakeString(old(Remainder())).Used()
    {
      hide Decode, UnitsOf;
      var remainder := buf[pos..];
      var targetIdx := -1;
      var i := 0;
      while i < |remainder| - 1
        invariant i % 2 == 0 && targetIdx == -1
        invariant Terminator(remainder, 0) == Terminator(remainder, i)
        decreases |remainder| - i
      {
        if remainder[i] == 0 && remainder[i + 1] == 0 {
          targetIdx := i;
          break;
        }
        i := i + 2;
      }
      if targetIdx == -1 {
        return Failure("packet: missing null terminator for string");
      }
      var raw := remainder[..targetIdx];
      pos := pos + targetIdx + 2;
      if |raw| == 0 {
        DecodeNothing(raw);
        return Success("");
      }
      var u16len := |raw| / 2;
      var u16 := new uint16[if u16len <= 1024 then 1024 else u16len];
      Unpack(raw, u16);
      r := Success(Decode(u16[..u16len]));
    }

    /** Moves past a string without decoding it. */
    method SkipString() returns (r: Result<()>)
      requires Valid()
      modifies this`pos
      ensures Valid()
      ensures r.Success? == TakeString(old(Remainder())).Took?
      ensures pos == old(pos) + TakeString(old(Remainder())).Used()
    {
      hide Decode, UnitsOf;
      var remainder := buf[pos..];
      var i := 0;
      while i + 1 < |remainder|
        invariant i % 2 == 0
        invariant Terminator(remainder, 0) == Terminator(remainder, i)
        decreases |remainder| - i
      {
        if remainder[i] == 0 && remainder[i + 1] == 0 {
          pos := pos + i + 2;
          return Success(());
        }
        i := i + 2;
      }
      return Failure("packet: missing null terminator for string");
    }
  }

  lemma DecodeNothing(raw: seq<byte>)
    requires raw == []
    ensures Decode(UnitsOf(raw)) == ""
  {
  }

  /** Fills the front of a buffer of any length with the little-endian code units of raw. */
  method Unpack(raw: seq<byte>, u16: array<uint16>)
    requires |raw| % 2 == 0 && |raw| / 2 <= u16.Length
    modifies u16
    ensures u16[..|raw| / 2] == UnitsOf(raw)
  {
    for i := 0 to |raw| / 2
      invariant forall x :: 0 <= x < i ==> u16[x] == U16(raw[2 * x], raw[2 * x + 1])
    {
      u16[i] := U16(raw[2 * i], raw[2 * i + 1]);
    }
  }

  /** GetPacketReader refuses more than 64 KiB; no packet is too small for it. */
  method GetPacketReader(data: seq<byte>) returns (r: Result<PacketReader>)
    ensures r.Success? <==> |data| <= 65536
    ensures r.Success? ==> fresh(r.value) && r.value.Valid() && r.value.buf == data && r.value.pos == 0
  {
    if |data| > MAX_PACKET_SIZE {
      return Failure("packet: invalid size");
    }
    var reader := new PacketReader(data);
    r := Success(reader);
  }
}
