/** The whole send path, internal/client/client.go and internal/client/gs_client.go: fields written, sealed, framed; and
    what the other end gets back. */
module Pipeline {
  import opened Blowfish
  import opened Crypts
  import opened Framing
  import opened PacketWriters
  import opened Wire
  import opened Words

  // ---- Sending ----

  /** Stamps the length and copies the packet out. */
  method Finish(w: PacketWriter) returns (out: seq<byte>)
    requires w.Valid() && 2 <= w.len <= 65535
    modifies w.arr
    ensures out == Frame(old(w.Contents())[2..])
  {
    hide Le16;
    HeaderSize(w.len);
    w.PrependLength();
    out := w.arr[..w.len];
  }

  /** A writer holding room for the length, an opcode and some fields. */
  method Packed(opcode: byte, fields: seq<Field>) returns (w: PacketWriter)
    ensures fresh(w) && fresh(w.arr) && w.Valid() && w.Contents() == [0, 0] + ([opcode] + FieldsBytes(fields))
  {
    hide FieldsBytes;
    w := new PacketWriter();
    w.WriteByte(opcode);
    Build(w, fields);
    HeaderThenBody(w.Contents(), [opcode] + FieldsBytes(fields));
  }

  /** A client packet: opcode and fields sealed behind a length header. Above 65535 bytes PrependLength panics. */
  method SendAsync(crypt: Crypt, opcode: byte, fields: seq<Field>, xorKey: uint32)
    returns (out: seq<byte>, ghost junk: seq<byte>)
    requires crypt.Valid()
    requires SealedSize(1 + |FieldsBytes(fields)|, !crypt.updatedKey) <= 65533
    modifies crypt`updatedKey
    ensures crypt.updatedKey && crypt.Key() == old(crypt.Key())
    ensures Fitting(Sent([opcode] + FieldsBytes(fields), junk, xorKey), !old(crypt.updatedKey))
    ensures out == Frame(Sealed(crypt.Key(), !old(crypt.updatedKey), [opcode] + FieldsBytes(fields), junk, xorKey))
  {
    hide Sealed, SealedSize, Crypts.Crypt.Key, Frame, FieldsBytes;
    var w := Packed(opcode, fields);
    ghost var payload := [opcode] + FieldsBytes(fields);
    SealedSizeLeast(|payload|, !crypt.updatedKey);
    junk := crypt.Encrypt(w, xorKey);
    assert w.Contents()[2..] == Sealed(crypt.Key(), !old(crypt.updatedKey), payload, junk, xorKey);
    out := Finish(w);
  }

  lemma HeaderThenBody(contents: seq<byte>, body: seq<byte>)
    requires contents == [0, 0] + body || (body != [] && contents == [0, 0] + [body[0]] + body[1..])
    ensures contents == [0, 0] + body && contents[2..] == body
  {
    if body != [] {
      assert [0, 0] + [body[0]] + body[1..] == [0, 0] + body;
    }
  }

  lemma HeaderSize(n: nat)
    requires n < 0x1_0000
    ensures |Le16(n)| == 2
  {
  }

  /** A game-server packet: the same without the cipher. */
  method Send(opcode: byte, fields: seq<Field>) returns (out: seq<byte>)
    requires 3 + |FieldsBytes(fields)| <= 65535
    ensures out == Frame([opcode] + FieldsBytes(fields))
  {
    hide Frame, FieldsBytes;
    var w := Packed(opcode, fields);
    out := Finish(w);
  }

  // ---- Nothing is lost on the way to a client ----

  ghost predicate Carries(s: Sent, fields: seq<Field>, first: bool) {
    s.payload == FieldsBytes(fields) && Fitting(s, first) && SealedSize(|s.payload|, first) <= 65533
    && forall i :: 0 <= i < |fields| ==> NulFree(fields[i])
  }

  /** The peer reads the fields back from a sealed body: it deciphers, undoes the XOR pass on the first packet only, and
      takes fields of the agreed kinds from the front. */
  ghost function PeerReads(k: Schedule, first: bool, kinds: seq<Kind>, body: seq<byte>): Take<seq<Field>> {
    TakeFields(kinds, PeerOpen(k, first, body))
  }

  lemma PacketSurvives(k: Schedule, first: bool, s: Sent, fields: seq<Field>)
    requires Carries(s, fields, first)
    ensures PeerReads(k, first, KindsOf(fields), Sealed(k, first, s.payload, s.junk, s.xorKey))
            == Took(fields, |FieldsBytes(fields)|)
  {
    hide Sealed, PeerOpen, TakeFields, NulFree;
    PeerRecoversPayload(k, first, s.payload, s.junk, s.xorKey);
    var data := PeerOpen(k, first, Sealed(k, first, s.payload, s.junk, s.xorKey));
    assert data == FieldsBytes(fields) + data[|s.payload|..];
    FieldsRoundTrip(fields, data[|s.payload|..]);
  }

  /** The end-to-end law. For every run of packets through one Crypt, whatever the uninitialised padding and the XOR key:
      splitting the byte stream gives back the sealed bodies in order, whole and no others, and from each the peer reads
      exactly the fields that were written. */
  lemma StreamSurvives(k: Schedule, messages: seq<seq<Field>>, sent: seq<Sent>, partial: seq<byte>)
    requires |sent| == |messages| && Incomplete(partial)
    requires forall i :: 0 <= i < |sent| ==> Carries(sent[i], messages[i], i == 0)
    ensures var wire := SealAll(k, false, sent);
            (forall i :: 0 <= i < |wire| ==> |wire[i]| + 2 < 0x1_0000)
            && Drain(ServerOpen(), _ => true, Frames(wire) + partial, [], 0) == Drained(wire, |Frames(wire)|, Wait)
            && forall i :: 0 <= i < |wire| ==>
                 PeerReads(k, i == 0, KindsOf(messages[i]), wire[i]) == Took(messages[i], |FieldsBytes(messages[i])|)
  {
    hide Sealed, PeerReads, Drain, Incomplete, Carries, SealAll;
    var wire := SealAll(k, false, sent);
    forall i | 0 <= i < |wire|
      ensures 0 < |wire[i]| && |wire[i]| + 2 < 0x1_0000
      ensures PeerReads(k, i == 0, KindsOf(messages[i]), wire[i]) == Took(messages[i], |FieldsBytes(messages[i])|)
    {
      SealAllAt(k, false, sent, i);
      PacketSurvives(k, i == 0, sent[i], messages[i]);
      CarriedSize(sent[i], messages[i], i == 0);
    }
    AllTaken(wire, []);
    DeliversInOrder(ServerOpen(), _ => true, wire, wire, partial);
  }

  lemma CarriedSize(s: Sent, fields: seq<Field>, first: bool)
    requires Carries(s, fields, first)
    ensures 0 < |s.payload| + |s.junk| <= 65533
  {
    SealedSizeLeast(|s.payload|, first);
  }

  lemma {:induction false} AllTaken(bodies: seq<seq<byte>>, done: seq<seq<byte>>)
    requires forall i :: 0 <= i < |bodies| ==> 0 < |bodies[i]|
    ensures AllSucceed(ServerOpen(), _ => true, bodies, bodies, done)
    decreases |bodies|
  {
    if bodies != [] {
      AllTaken(bodies[1..], done + [bodies[0]]);
    }
  }

  // ---- Nothing is lost on the way to the server ----

  /** A client enciphers whole blocks; the listener's loop hands the handlers the plain bodies, in order. */
  lemma ClientStreamDelivered(k: Schedule, plain: seq<seq<byte>>, sealed: seq<seq<byte>>, partial: seq<byte>)
    requires |sealed| == |plain| && Incomplete(partial)
    requires forall i :: 0 <= i < |plain| ==>
               0 < |plain[i]| && |plain[i]| % 8 == 0 && |plain[i]| + 2 < 0x1_0000
               && sealed[i] == MapRange(EncFn(k), plain[i], 0, |plain[i]|)
    ensures (forall i :: 0 <= i < |sealed| ==> |sealed[i]| + 2 < 0x1_0000)
            && Drain(ClientOpen(k), _ => true, Frames(sealed) + partial, [], 0)
               == Drained(plain, |Frames(sealed)|, Wait)
  {
    hide MapRange, Drain, EncFn, Incomplete, ClientOpen;
    AllDeciphered(k, plain, sealed, []);
    DeliversInOrder(ClientOpen(k), _ => true, sealed, plain, partial);
  }

  lemma {:induction false} AllDeciphered(k: Schedule, plain: seq<seq<byte>>, sealed: seq<seq<byte>>,
                                         done: seq<seq<byte>>)
    requires |sealed| == |plain|
    requires forall i :: 0 <= i < |plain| ==>
               0 < |plain[i]| && |plain[i]| % 8 == 0 && sealed[i] == MapRange(EncFn(k), plain[i], 0, |plain[i]|)
    ensures AllSucceed(ClientOpen(k), _ => true, sealed, plain, done)
    decreases |plain|
  {
    hide MapRange, EncFn, DecFn;
    if plain != [] {
      RangeRoundTrip(k, plain[0], 0, |plain[0]|);
      AllDeciphered(k, plain[1..], sealed[1..], done + [plain[0]]);
    }
  }
}
