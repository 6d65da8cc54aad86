/** internal/packet/client/server_list.go: the body of the server-list packet, and what a client reads out of it. */
module ServerListPacket {
  import opened PacketWriters
  import opened ServerLists
  import opened Wire
  import opened Words
  import opened Wrappers

  datatype Octets = Octets(a: byte, b: byte, c: byte, d: byte)

  /** netip.ParseAddr followed by Is4 and As4; None when the text is no IPv4 address. */
  type Resolver = string -> Option<Octets>

  function Flag(b: bool): byte { if b then 1 else 0 }

  function LowByte(v: int): byte { v % 0x100 }

  /** A server at capacity is shown as down. */
  function ShownStatus(srv: Server): byte {
    if srv.currentPlayers >= srv.maxPlayers then 0 else srv.status
  }

  function AddressFields(ip: Option<Octets>): seq<Field> {
    match ip
    case None => []
    case Some(o) => [Byte(o.a), Byte(o.b), Byte(o.c), Byte(o.d)]
  }

  function TailFields(srv: Server): seq<Field> {
    [Int32(srv.port), Byte(0), Byte(Flag(srv.pvp)), Int16(srv.currentPlayers), Int16(srv.maxPlayers),
     Byte(ShownStatus(srv)), Int32(srv.serverType), Byte(Flag(srv.brackets))]
  }

  function EntryFields(resolve: Resolver, srv: Server): seq<Field> {
    [Byte(LowByte(srv.id))] + AddressFields(resolve(srv.ip)) + TailFields(srv)
  }

  function CountFor(counts: Option<seq<byte>>, id: int): byte {
    if counts.Some? && InRange(id) && id < |counts.value| then counts.value[id] else 0
  }

  function CountFields(counts: Option<seq<byte>>, srv: Server): seq<Field> {
    [Byte(LowByte(srv.id)), Byte(CountFor(counts, srv.id))]
  }

  function Entries(resolve: Resolver, s: seq<Server>): seq<Field> {
    if s == [] then [] else Entries(resolve, s[..|s| - 1]) + EntryFields(resolve, s[|s| - 1])
  }

  function Counts(counts: Option<seq<byte>>, s: seq<Server>): seq<Field> {
    if s == [] then [] else Counts(counts, s[..|s| - 1]) + CountFields(counts, s[|s| - 1])
  }

  /** Everything in the packet behind its opcode. */
  function ListFields(resolve: Resolver, s: seq<Server>, lastServer: int32, counts: Option<seq<byte>>): seq<Field> {
    [Byte(LowByte(|s|)), Byte(LowByte(lastServer))] + Entries(resolve, s) + [Int16(0), Int16(0xA4)] + Counts(counts, s)
  }

  // ---- The code: the build function of the packet ----

  lemma {:induction false} FieldsConcat(a: seq<Field>, b: seq<Field>)
    ensures FieldsBytes(a + b) == FieldsBytes(a) + FieldsBytes(b)
  {
    hide FieldBytes;
    if a == [] {
      assert a + b == b;
    } else {
      assert (a + b)[1..] == a[1..] + b;
      FieldsConcat(a[1..], b);
    }
  }

  /** One server: its id, four octets if its address is IPv4 and none otherwise, and the rest. */
  method WriteEntry(w: PacketWriter, resolve: Resolver, srv: Server)
    requires w.Valid()
    modifies w, w.arr
    ensures w.Valid() && (w.arr == old(w.arr) || fresh(w.arr))
    ensures w.Contents() == old(w.Contents()) + FieldsBytes(EntryFields(resolve, srv))
  {
    hide FieldsBytes, TailFields, LowByte;
    ghost var id := [Byte(LowByte(srv.id))];
    Build(w, [Byte(LowByte(srv.id))]);
    var ip := resolve(srv.ip);
    if ip.Some? {
      Build(w, [Byte(ip.value.a), Byte(ip.value.b), Byte(ip.value.c), Byte(ip.value.d)]);
    } else {
      NoBytes();
    }
    FieldsConcat(id, AddressFields(ip));
    assert w.Contents() == old(w.Contents()) + FieldsBytes(id + AddressFields(ip));
    WriteTail(w, srv);
    FieldsConcat(id + AddressFields(ip), TailFields(srv));
  }

  lemma NoBytes()
    ensures FieldsBytes([]) == []
  {
  }

  method WriteTail(w: PacketWriter, srv: Server)
    requires w.Valid()
    modifies w, w.arr
    ensures w.Valid() && (w.arr == old(w.arr) || fresh(w.arr))
    ensures w.Contents() == old(w.Contents()) + FieldsBytes(TailFields(srv))
  {
    hide FieldsBytes;
    var status := srv.status;
    if srv.currentPlayers >= srv.maxPlayers {
      status := 0;
    }
    Build(w, [Int32(srv.port), Byte(0), Byte(if srv.pvp then 1 else 0), Int16(srv.currentPlayers),
              Int16(srv.maxPlayers), Byte(status), Int32(srv.serverType), Byte(if srv.brackets then 1 else 0)]);
  }

  method WriteCount(w: PacketWriter, counts: Option<seq<byte>>, srv: Server)
    requires w.Valid() && (counts.Some? ==> |counts.value| == MAX_SUPPORTED_SERVERS)
    modifies w, w.arr
    ensures w.Valid() && (w.arr == old(w.arr) || fresh(w.arr))
    ensures w.Contents() == old(w.Contents()) + FieldsBytes(CountFields(counts, srv))
  {
    hide FieldsBytes;
    var characters: byte := 0;
    if counts.Some? && srv.id >= 0 && srv.id < MAX_SUPPORTED_SERVERS {
      characters := counts.value[srv.id];
    }
    Build(w, [Byte(LowByte(srv.id)), Byte(characters)]);
  }

  method WriteList(w: PacketWriter, resolve: Resolver, snap: seq<Server>, count: nat, lastServer: int32,
                   counts: Option<seq<byte>>)
    requires w.Valid() && count <= |snap| && (counts.Some? ==> |counts.value| == MAX_SUPPORTED_SERVERS)
    modifies w, w.arr
    ensures w.Valid() && (w.arr == old(w.arr) || fresh(w.arr))
    ensures w.Contents() == old(w.Contents()) + FieldsBytes(ListFields(resolve, snap[..count], lastServer, counts))
  {
    hide FieldsBytes, EntryFields, CountFields, LowByte, Entries, Counts;
    ghost var start := w.Contents();
    ghost var fields := [Byte(LowByte(count)), Byte(LowByte(lastServer))];
    Build(w, [Byte(LowByte(count)), Byte(LowByte(lastServer))]);
    ghost var entries := WriteEntries(w, resolve, snap, count, start, fields);
    fields := fields + entries;
    FieldsConcat(fields, [Int16(0), Int16(0xA4)]);
    Build(w, [Int16(0), Int16(0xA4)]);
    fields := fields + [Int16(0), Int16(0xA4)];
    WriteCounts(w, counts, snap, count, start, fields);
  }

  method WriteEntries(w: PacketWriter, resolve: Resolver, snap: seq<Server>, count: nat, ghost start: seq<byte>,
                      ghost fields: seq<Field>) returns (ghost entries: seq<Field>)
    requires w.Valid() && count <= |snap| && w.Contents() == start + FieldsBytes(fields)
    modifies w, w.arr
    ensures w.Valid() && (w.arr == old(w.arr) || fresh(w.arr))
    ensures entries == Entries(resolve, snap[..count])
    ensures w.Contents() == start + FieldsBytes(fields + entries)
  {
    hide FieldsBytes, EntryFields, Entries;
    EntriesNone(resolve, snap);
    assert fields + [] == fields;
    for i := 0 to count
      invariant w.Valid() && (w.arr == old(w.arr) || fresh(w.arr))
      invariant w.Contents() == start + FieldsBytes(fields + Entries(resolve, snap[..i]))
    {
      WriteEntry(w, resolve, snap[i]);
      EntriesNext(resolve, snap, i);
      ghost var before := fields + Entries(resolve, snap[..i]);
      FieldsConcat(before, EntryFields(resolve, snap[i]));
      assert before + EntryFields(resolve, snap[i]) == fields + Entries(resolve, snap[..i + 1]);
    }
    entries := Entries(resolve, snap[..count]);
  }

  method WriteCounts(w: PacketWriter, counts: Option<seq<byte>>, snap: seq<Server>, count: nat, ghost start: seq<byte>,
                     ghost fields: seq<Field>)
    requires w.Valid() && count <= |snap| && w.Contents() == start + FieldsBytes(fields)
    requires counts.Some? ==> |counts.value| == MAX_SUPPORTED_SERVERS
    modifies w, w.arr
    ensures w.Valid() && (w.arr == old(w.arr) || fresh(w.arr))
    ensures w.Contents() == start + FieldsBytes(fields + Counts(counts, snap[..count]))
  {
    hide FieldsBytes, CountFields, Counts;
    CountsNone(counts, snap);
    assert fields + [] == fields;
    for i := 0 to count
      invariant w.Valid() && (w.arr == old(w.arr) || fresh(w.arr))
      invariant w.Contents() == start + FieldsBytes(fields + Counts(counts, snap[..i]))
    {
      WriteCount(w, counts, snap[i]);
      CountsNext(counts, snap, i);
      ghost var before := fields + Counts(counts, snap[..i]);
      FieldsConcat(before, CountFields(counts, snap[i]));
      assert before + CountFields(counts, snap[i]) == fields + Counts(counts, snap[..i + 1]);
    }
  }

  lemma EntriesNone(resolve: Resolver, s: seq<Server>)
    ensures Entries(resolve, s[..0]) == []
  {
  }

  lemma CountsNone(counts: Option<seq<byte>>, s: seq<Server>)
    ensures Counts(counts, s[..0]) == []
  {
  }

  lemma EntriesNext(resolve: Resolver, s: seq<Server>, i: nat)
    requires i < |s|
    ensures Entries(resolve, s[..i + 1]) == Entries(resolve, s[..i]) + EntryFields(resolve, s[i])
  {
    assert s[..i + 1][..i] == s[..i];
  }

  lemma CountsNext(counts: Option<seq<byte>>, s: seq<Server>, i: nat)
    requires i < |s|
    ensures Counts(counts, s[..i + 1]) == Counts(counts, s[..i]) + CountFields(counts, s[i])
  {
    assert s[..i + 1][..i] == s[..i];
  }

  // ---- What a client reads ----

  const ENTRY_KINDS: seq<Kind> :=
    [KByte, KByte, KByte, KByte, KByte, KI32, KByte, KByte, KI16, KI16, KByte, KI32, KByte]

  function Repeated(ks: seq<Kind>, n: nat): (r: seq<Kind>) {
    if n == 0 then [] else Repeated(ks, n - 1) + ks
  }

  /** The layout of a list of n servers, all with IPv4 addresses. */
  function ListKinds(n: nat): seq<Kind> {
    [KByte, KByte] + Repeated(ENTRY_KINDS, n) + [KI16, KI16] + Repeated([KByte, KByte], n)
  }

  /** What the packet tells about one server. */
  datatype Entry = Entry(id: byte, ip: Octets, port: int32, pvp: bool, players: int16, capacity: int16, status: byte,
                         serverType: int32, brackets: bool, characters: byte)

  datatype View = View(lastServer: byte, entries: seq<Entry>)

  predicate IsEntry(f: seq<Field>) {
    && |f| == 13 && f[0].Byte? && f[1].Byte? && f[2].Byte? && f[3].Byte? && f[4].Byte? && f[5].Int32? && f[7].Byte?
    && f[8].Int16? && f[9].Int16? && f[10].Byte? && f[11].Int32? && f[12].Byte?
  }

  /** The entry in one server's thirteen fields and its character count. */
  function ReadEntry(f: seq<Field>, characters: Field): Option<Entry> {
    if IsEntry(f) && characters.Byte? then
      Some(Entry(f[0].b, Octets(f[1].b, f[2].b, f[3].b, f[4].b), f[5].i32, f[7].b == 1, f[8].i16, f[9].i16, f[10].b,
                 f[11].i32, f[12].b == 1, characters.b))
    else None
  }

  function ReadEntries(f: seq<Field>, n: nat, i: nat): (r: Option<seq<Entry>>)
    requires i <= n && |f| == 2 + 13 * n + 2 + 2 * n
  {
    if i == 0 then Some([])
    else
      match (ReadEntries(f, n, i - 1), ReadEntry(f[2 + 13 * (i - 1)..2 + 13 * i], f[4 + 13 * n + 2 * (i - 1) + 1]))
      case (Some(es), Some(e)) => Some(es + [e])
      case _ => None
  }

  /** The client: the first byte says how many servers follow. */
  function ReadList(body: seq<byte>): Option<View> {
    if body == [] then None
    else
      var n: int := body[0];
      match TakeFields(ListKinds(n), body)
      case Malformed(_) => None
      case Took(f, _) =>
        if |f| != 2 + 13 * n + 2 + 2 * n || !f[1].Byte? then None
        else match ReadEntries(f, n, n) case None => None case Some(es) => Some(View(f[1].b, es))
  }

  /** What the packet is meant to say about a server with an IPv4 address. */
  function Shown(resolve: Resolver, counts: Option<seq<byte>>, srv: Server): Entry
    requires resolve(srv.ip).Some?
  {
    Entry(LowByte(srv.id), resolve(srv.ip).value, srv.port, srv.pvp, srv.currentPlayers, srv.maxPlayers,
          ShownStatus(srv), srv.serverType, srv.brackets, CountFor(counts, srv.id))
  }

  ghost predicate AllIPv4(resolve: Resolver, s: seq<Server>) {
    forall i :: 0 <= i < |s| ==> resolve(s[i].ip).Some?
  }

  lemma EntryShape(resolve: Resolver, srv: Server)
    requires resolve(srv.ip).Some?
    ensures |EntryFields(resolve, srv)| == 13 && KindsOf(EntryFields(resolve, srv)) == ENTRY_KINDS
    ensures forall i :: 0 <= i < 13 ==> NulFree(EntryFields(resolve, srv)[i])
  {
  }

  lemma EntryReads(resolve: Resolver, counts: Option<seq<byte>>, srv: Server)
    requires resolve(srv.ip).Some?
    ensures ReadEntry(EntryFields(resolve, srv), Byte(CountFor(counts, srv.id))) == Some(Shown(resolve, counts, srv))
  {
  }

  lemma KindsConcat(a: seq<Field>, b: seq<Field>)
    ensures KindsOf(a + b) == KindsOf(a) + KindsOf(b)
  {
  }

  /** The blocks of a list of entries, found by position. */
  lemma {:induction false} EntriesShape(resolve: Resolver, s: seq<Server>, i: nat)
    requires AllIPv4(resolve, s) && i < |s|
    ensures |Entries(resolve, s)| == 13 * |s|
    ensures Entries(resolve, s)[13 * i..13 * i + 13] == EntryFields(resolve, s[i])
  {
    hide EntryFields;
    var init := s[..|s| - 1];
    EntryShape(resolve, s[|s| - 1]);
    if init == [] {
      assert Entries(resolve, init) == [];
    } else {
      EntriesShape(resolve, init, if i < |init| then i else 0);
    }
    if i < |init| {
      assert Entries(resolve, s)[13 * i..13 * i + 13] == Entries(resolve, init)[13 * i..13 * i + 13];
    }
  }

  lemma {:induction false} EntriesKinds(resolve: Resolver, s: seq<Server>)
    requires AllIPv4(resolve, s)
    ensures |Entries(resolve, s)| == 13 * |s| && KindsOf(Entries(resolve, s)) == Repeated(ENTRY_KINDS, |s|)
    ensures forall i :: 0 <= i < |Entries(resolve, s)| ==> NulFree(Entries(resolve, s)[i])
  {
    hide EntryFields, KindsOf, NulFree;
    if s == [] {
      NoKinds();
    } else {
      var init := s[..|s| - 1];
      EntriesKinds(resolve, init);
      EntryShape(resolve, s[|s| - 1]);
      KindsConcat(Entries(resolve, init), EntryFields(resolve, s[|s| - 1]));
    }
  }

  lemma NoKinds()
    ensures KindsOf([]) == []
  {
  }

  lemma {:induction false} CountsShape(counts: Option<seq<byte>>, s: seq<Server>)
    ensures |Counts(counts, s)| == 2 * |s| && KindsOf(Counts(counts, s)) == Repeated([KByte, KByte], |s|)
    ensures forall i :: 0 <= i < 2 * |s| ==> NulFree(Counts(counts, s)[i])
    ensures forall i {:trigger s[i]} :: 0 <= i < |s| ==> Counts(counts, s)[2 * i + 1] == Byte(CountFor(counts, s[i].id))
  {
    hide CountFor;
    if s == [] {
      NoKinds();
    } else {
      var init := s[..|s| - 1];
      CountsShape(counts, init);
      KindsConcat(Counts(counts, init), CountFields(counts, s[|s| - 1]));
      forall i | 0 <= i < |s|
        ensures Counts(counts, s)[2 * i + 1] == Byte(CountFor(counts, s[i].id))
      {
        if i < |init| {
          assert init[i] == s[i];
        }
      }
    }
  }

  /** What the whole packet is meant to say. */
  function ShownList(resolve: Resolver, s: seq<Server>, counts: Option<seq<byte>>): (v: seq<Entry>)
    requires AllIPv4(resolve, s)
  {
    seq(|s|, i requires 0 <= i < |s| => Shown(resolve, counts, s[i]))
  }

  lemma ListKindsMatch(resolve: Resolver, s: seq<Server>, lastServer: int32, counts: Option<seq<byte>>)
    requires AllIPv4(resolve, s)
    ensures var f := ListFields(resolve, s, lastServer, counts);
            KindsOf(f) == ListKinds(|s|) && |f| == 4 + 15 * |s| && forall i :: 0 <= i < |f| ==> NulFree(f[i])
  {
    hide Entries, Counts, AllIPv4, Repeated;
    var head := [Byte(LowByte(|s|)), Byte(LowByte(lastServer))];
    var (e, m, c) := (Entries(resolve, s), [Int16(0), Int16(0xA4)], Counts(counts, s));
    EntriesKinds(resolve, s);
    CountsShape(counts, s);
    KindsConcat(head, e);
    KindsConcat(head + e, m);
    KindsConcat(head + e + m, c);
    assert KindsOf(head) == [KByte, KByte] && KindsOf(m) == [KI16, KI16];
  }

  /** Where the fields of server i are. */
  lemma FieldsAt(resolve: Resolver, s: seq<Server>, lastServer: int32, counts: Option<seq<byte>>, i: nat)
    requires AllIPv4(resolve, s) && i < |s|
    ensures var (f, n) := (ListFields(resolve, s, lastServer, counts), |s|);
            |f| == 4 + 15 * n && f[2 + 13 * i..2 + 13 * (i + 1)] == EntryFields(resolve, s[i])
            && f[4 + 13 * n + 2 * i + 1] == Byte(CountFor(counts, s[i].id))
  {
    hide Entries, Counts, AllIPv4, CountFor, EntryFields;
    EntriesShape(resolve, s, i);
    CountsShape(counts, s);
    var (f, n) := (ListFields(resolve, s, lastServer, counts), |s|);
    assert f[2..2 + 13 * n] == Entries(resolve, s);
    assert f[2 + 13 * i..2 + 13 * (i + 1)] == f[2..2 + 13 * n][13 * i..13 * i + 13];
    assert f[4 + 13 * n..] == Counts(counts, s);
    assert f[4 + 13 * n + 2 * i + 1] == f[4 + 13 * n..][2 * i + 1];
  }

  lemma {:induction false} EntriesRead(resolve: Resolver, s: seq<Server>, lastServer: int32, counts: Option<seq<byte>>,
                                       i: nat)
    requires AllIPv4(resolve, s) && i <= |s|
    ensures var f := ListFields(resolve, s, lastServer, counts);
            |f| == 4 + 15 * |s| && ReadEntries(f, |s|, i) == Some(ShownList(resolve, s, counts)[..i])
    decreases i
  {
    hide ListFields, ReadEntry, Shown, EntryFields, CountFor, ShownList, KindsOf, ListKinds, NulFree;
    ListKindsMatch(resolve, s, lastServer, counts);
    if i > 0 {
      EntriesRead(resolve, s, lastServer, counts, i - 1);
      FieldsAt(resolve, s, lastServer, counts, i - 1);
      EntryReads(resolve, counts, s[i - 1]);
      ShownNext(resolve, s, counts, i - 1);
    }
  }

  lemma ShownNext(resolve: Resolver, s: seq<Server>, counts: Option<seq<byte>>, i: nat)
    requires AllIPv4(resolve, s) && i < |s|
    ensures var v := ShownList(resolve, s, counts);
            |v| == |s| && v[i] == Shown(resolve, counts, s[i]) && v[..i + 1] == v[..i] + [v[i]]
  {
    hide Shown;
  }

  /** When every address is IPv4, a client reads back exactly the snapshot's transmitted fields and character counts. */
  lemma ListReadBack(resolve: Resolver, s: seq<Server>, lastServer: int32, counts: Option<seq<byte>>, rest: seq<byte>)
    requires AllIPv4(resolve, s) && |s| <= MAX_SUPPORTED_SERVERS
    ensures ReadList(FieldsBytes(ListFields(resolve, s, lastServer, counts)) + rest)
            == Some(View(LowByte(lastServer), ShownList(resolve, s, counts)))
  {
    hide TakeFields, KindsOf, ListKinds, ReadEntries, ShownList, NulFree, Entries, Counts, FieldsBytes;
    var f := ListFields(resolve, s, lastServer, counts);
    var body := FieldsBytes(f) + rest;
    ListKindsMatch(resolve, s, lastServer, counts);
    FieldsRoundTrip(f, rest);
    FirstByte(f, rest);
    EntriesRead(resolve, s, lastServer, counts, |s|);
    WholeList(resolve, s, counts);
  }

  lemma FirstByte(f: seq<Field>, rest: seq<byte>)
    requires f != [] && f[0].Byte?
    ensures FieldsBytes(f) + rest != [] && (FieldsBytes(f) + rest)[0] == f[0].b
  {
  }

  lemma WholeList(resolve: Resolver, s: seq<Server>, counts: Option<seq<byte>>)
    requires AllIPv4(resolve, s)
    ensures ShownList(resolve, s, counts)[..|s|] == ShownList(resolve, s, counts)
  {
  }

  // ---- Servers without an IPv4 address ----

  function Unaddressed(resolve: Resolver, s: seq<Server>): nat {
    if s == [] then 0
    else Unaddressed(resolve, s[..|s| - 1]) + if resolve(s[|s| - 1].ip).None? then 1 else 0
  }

  lemma {:induction false} NoneUnaddressed(resolve: Resolver, s: seq<Server>)
    ensures Unaddressed(resolve, s) == 0 <==> AllIPv4(resolve, s)
  {
    if s != [] {
      var init := s[..|s| - 1];
      NoneUnaddressed(resolve, init);
      assert AllIPv4(resolve, s) <==> AllIPv4(resolve, init) && resolve(s[|s| - 1].ip).Some? by {
        assert forall i :: 0 <= i < |init| ==> init[i] == s[i];
      }
    }
  }

  lemma TailSize(srv: Server)
    ensures |FieldsBytes(TailFields(srv))| == 16
  {
    hide KindsSize, FieldsBytes;
    FieldsSize(TailFields(srv));
    PairSize(KI32, KByte);
    PairSize(KByte, KI16);
    PairSize(KI16, KByte);
    KindsSizeConcat([KI32, KByte], [KByte, KI16]);
    KindsSizeConcat([KI16, KByte], [KI32, KByte]);
    KindsSizeConcat([KI32, KByte] + [KByte, KI16], [KI16, KByte] + [KI32, KByte]);
    assert KindsOf(TailFields(srv)) == [KI32, KByte] + [KByte, KI16] + ([KI16, KByte] + [KI32, KByte]);
  }

  lemma AddressSize(ip: Option<Octets>)
    ensures |FieldsBytes(AddressFields(ip))| == if ip.Some? then 4 else 0
  {
    hide KindsSize, FieldsBytes;
    FieldsSize(AddressFields(ip));
    if ip.Some? {
      PairSize(KByte, KByte);
      KindsSizeConcat([KByte, KByte], [KByte, KByte]);
      assert KindsOf(AddressFields(ip)) == [KByte, KByte] + [KByte, KByte];
    } else {
      NoBytes();
    }
  }

  lemma EntrySize(resolve: Resolver, srv: Server)
    ensures |FieldsBytes(EntryFields(resolve, srv))| == if resolve(srv.ip).Some? then 21 else 17
  {
    hide FieldsBytes, TailFields, AddressFields;
    var (id, ip) := ([Byte(LowByte(srv.id))], AddressFields(resolve(srv.ip)));
    FieldsSize(id);
    PairSize(KByte, KByte);
    assert KindsOf(id) == [KByte];
    AddressSize(resolve(srv.ip));
    TailSize(srv);
    FieldsConcat(id, ip);
    FieldsConcat(id + ip, TailFields(srv));
  }

  lemma {:induction false} EntriesSize(resolve: Resolver, s: seq<Server>)
    ensures |FieldsBytes(Entries(resolve, s))| + 4 * Unaddressed(resolve, s) == 21 * |s|
  {
    hide FieldsBytes, EntryFields;
    if s == [] {
      NoBytes();
    } else {
      EntriesSize(resolve, s[..|s| - 1]);
      EntrySize(resolve, s[|s| - 1]);
      FieldsConcat(Entries(resolve, s[..|s| - 1]), EntryFields(resolve, s[|s| - 1]));
    }
  }

  lemma {:induction false} CountsSize(counts: Option<seq<byte>>, s: seq<Server>)
    ensures |FieldsBytes(Counts(counts, s))| == 2 * |s|
  {
    hide FieldsBytes, CountFor, KindsSize;
    if s == [] {
      NoBytes();
    } else {
      var last := CountFields(counts, s[|s| - 1]);
      CountsSize(counts, s[..|s| - 1]);
      FieldsSize(last);
      PairSize(KByte, KByte);
      assert KindsOf(last) == [KByte, KByte];
      FieldsConcat(Counts(counts, s[..|s| - 1]), last);
    }
  }

  /** Each server without an IPv4 address shortens the packet by four bytes. */
  lemma ListSize(resolve: Resolver, s: seq<Server>, lastServer: int32, counts: Option<seq<byte>>)
    ensures |FieldsBytes(ListFields(resolve, s, lastServer, counts))| + 4 * Unaddressed(resolve, s) == 6 + 23 * |s|
  {
    hide FieldsBytes, Entries, Counts, KindsSize, Unaddressed;
    var (head, e) := ([Byte(LowByte(|s|)), Byte(LowByte(lastServer))], Entries(resolve, s));
    var (m, c) := ([Int16(0), Int16(0xA4)], Counts(counts, s));
    FieldsSize(head);
    FieldsSize(m);
    PairSize(KByte, KByte);
    PairSize(KI16, KI16);
    assert KindsOf(head) == [KByte, KByte] && KindsOf(m) == [KI16, KI16];
    EntriesSize(resolve, s);
    CountsSize(counts, s);
    FieldsConcat(head, e);
    FieldsConcat(head + e, m);
    FieldsConcat(head + e + m, c);
  }

  lemma {:induction false} RepeatedSize(ks: seq<Kind>, n: nat)
    requires KString !in ks
    ensures KindsSize(Repeated(ks, n)) == n * KindsSize(ks) && KString !in Repeated(ks, n)
  {
    if n > 0 {
      RepeatedSize(ks, n - 1);
      KindsSizeConcat(Repeated(ks, n - 1), ks);
      assert (n - 1) * KindsSize(ks) + KindsSize(ks) == n * KindsSize(ks);
    }
  }

  lemma EntryKindsSize()
    ensures KindsSize(ENTRY_KINDS) == 21 && KString !in ENTRY_KINDS
  {
    hide KindsSize;
    PairSize(KByte, KByte);
    PairSize(KByte, KI32);
    PairSize(KI16, KI16);
    PairSize(KByte, KI32);
    var a := [KByte, KByte] + [KByte, KByte];
    KindsSizeConcat([KByte, KByte], [KByte, KByte]);
    KindsSizeConcat(a, [KByte, KI32]);
    KindsSizeConcat(a + [KByte, KI32], [KByte, KByte]);
    KindsSizeConcat([KI16, KI16], [KByte, KI32]);
    KindsSizeConcat([KI16, KI16] + [KByte, KI32], [KByte]);
    KindsSizeConcat(a + [KByte, KI32] + [KByte, KByte], [KI16, KI16] + [KByte, KI32] + [KByte]);
    assert ENTRY_KINDS == a + [KByte, KI32] + [KByte, KByte] + ([KI16, KI16] + [KByte, KI32] + [KByte]);
  }

  lemma ListKindsSize(n: nat)
    ensures KindsSize(ListKinds(n)) == 6 + 23 * n && KString !in ListKinds(n)
  {
    hide KindsSize, Repeated;
    PairSize(KByte, KByte);
    PairSize(KI16, KI16);
    EntryKindsSize();
    RepeatedSize(ENTRY_KINDS, n);
    RepeatedSize([KByte, KByte], n);
    var (h, e, m, c) := ([KByte, KByte], Repeated(ENTRY_KINDS, n), [KI16, KI16], Repeated([KByte, KByte], n));
    KindsSizeConcat(h, e);
    KindsSizeConcat(h + e, m);
    KindsSizeConcat(h + e + m, c);
  }

  /** The packet can be read in the announced layout if and only if every address is IPv4; then it says exactly what it is
      meant to, and otherwise it is four bytes short for each server that has none. */
  lemma ListReadExact(resolve: Resolver, s: seq<Server>, lastServer: int32, counts: Option<seq<byte>>)
    requires |s| <= MAX_SUPPORTED_SERVERS
    ensures ReadList(FieldsBytes(ListFields(resolve, s, lastServer, counts)))
            == if AllIPv4(resolve, s) then Some(View(LowByte(lastServer), ShownList(resolve, s, counts))) else None
  {
    hide ListKinds, ReadEntries, ShownList, AllIPv4, FieldsBytes, ListFields, TakeFields, KindsSize, Unaddressed;
    var body := FieldsBytes(ListFields(resolve, s, lastServer, counts));
    NoneUnaddressed(resolve, s);
    if AllIPv4(resolve, s) {
      ListReadBack(resolve, s, lastServer, counts, []);
      assert body + [] == body;
    } else {
      ListSize(resolve, s, lastServer, counts);
      ListStart(resolve, s, lastServer, counts);
      ListKindsSize(|s|);
      FixedFieldsTaken(ListKinds(|s|), body);
    }
  }

  lemma ListStart(resolve: Resolver, s: seq<Server>, lastServer: int32, counts: Option<seq<byte>>)
    requires |s| <= MAX_SUPPORTED_SERVERS
    ensures var body := FieldsBytes(ListFields(resolve, s, lastServer, counts)); body != [] && body[0] == |s|
  {
    hide FieldsBytes, Entries, Counts;
    var f := ListFields(resolve, s, lastServer, counts);
    FirstByte(f, []);
    assert FieldsBytes(f) + [] == FieldsBytes(f);
  }

  // ---- The packet byte by byte ----

  /** The bytes of one server with an IPv4 address. */
  lemma EntryLayout(resolve: Resolver, srv: Server)
    requires resolve(srv.ip).Some?
    ensures var (b, o) := (FieldsBytes(EntryFields(resolve, srv)), resolve(srv.ip).value);
            && |b| == 21 && b[0] == srv.id % 256 && b[1..5] == [o.a, o.b, o.c, o.d] && b[5..9] == Le32(ToU32(srv.port))
            && b[9] == 0 && b[10] == (if srv.pvp then 1 else 0) && b[11..13] == Le16(ToU16(srv.currentPlayers))
            && b[13..15] == Le16(ToU16(srv.maxPlayers))
            && b[15] == (if srv.currentPlayers >= srv.maxPlayers then 0 else srv.status)
            && b[16..20] == Le32(ToU32(srv.serverType)) && b[20] == (if srv.brackets then 1 else 0)
  {
    hide FieldsBytes, Le16, Le32, ToU16, ToU32;
    var (o, t) := (resolve(srv.ip).value, TailFields(srv));
    var id: byte := srv.id % 256;
    ByteBytes([id, o.a, o.b, o.c, o.d], t);
    assert EntryFields(resolve, srv) == AllBytes([id, o.a, o.b, o.c, o.d]) + t;
    TailLayout(srv);
    assert FieldsBytes(EntryFields(resolve, srv)) == [id, o.a, o.b, o.c, o.d] + FieldsBytes(t);
  }

  function AllBytes(b: seq<byte>): seq<Field> {
    seq(|b|, i requires 0 <= i < |b| => Byte(b[i]))
  }

  lemma {:induction false} ByteBytes(b: seq<byte>, rest: seq<Field>)
    ensures FieldsBytes(AllBytes(b) + rest) == b + FieldsBytes(rest)
  {
    if b == [] {
      assert AllBytes(b) + rest == rest;
    } else {
      assert (AllBytes(b) + rest)[1..] == AllBytes(b[1..]) + rest;
      ByteBytes(b[1..], rest);
    }
  }

  lemma TailLayout(srv: Server)
    ensures FieldsBytes(TailFields(srv))
            == Le32(ToU32(srv.port)) + [0, if srv.pvp then 1 else 0] + Le16(ToU16(srv.currentPlayers))
               + Le16(ToU16(srv.maxPlayers)) + [if srv.currentPlayers >= srv.maxPlayers then 0 else srv.status]
               + Le32(ToU32(srv.serverType)) + [if srv.brackets then 1 else 0]
    ensures |Le32(ToU32(srv.port))| == |Le32(ToU32(srv.serverType))| == 4
    ensures |Le16(ToU16(srv.currentPlayers))| == |Le16(ToU16(srv.maxPlayers))| == 2
  {
    WordLengths();
    hide FieldsBytes, TailFields, Le16, Le32, ToU16, ToU32;
    TailBytes(srv);
  }

  lemma TailBytes(srv: Server)
    ensures FieldsBytes(TailFields(srv))
            == FieldBytes(Int32(srv.port)) + FieldBytes(Byte(0)) + FieldBytes(Byte(Flag(srv.pvp)))
               + FieldBytes(Int16(srv.currentPlayers)) + FieldBytes(Int16(srv.maxPlayers))
               + FieldBytes(Byte(ShownStatus(srv))) + FieldBytes(Int32(srv.serverType)) + FieldBytes(Byte(Flag(srv.brackets)))
  {
    hide FieldsBytes, FieldBytes;
    NoBytes();
    var four := [Int16(srv.maxPlayers), Byte(ShownStatus(srv)), Int32(srv.serverType), Byte(Flag(srv.brackets))];
    FourFields(four[0], four[1], four[2], four[3], []);
    assert four + [] == four;
    FourFields(Int32(srv.port), Byte(0), Byte(Flag(srv.pvp)), Int16(srv.currentPlayers), four);
    assert TailFields(srv) == [Int32(srv.port), Byte(0), Byte(Flag(srv.pvp)), Int16(srv.currentPlayers)] + four;
  }

  lemma FirstBytes(f: Field, rest: seq<Field>)
    ensures FieldsBytes([f] + rest) == FieldBytes(f) + FieldsBytes(rest)
  {
    hide FieldBytes;
    assert ([f] + rest)[1..] == rest;
  }

  lemma PairBytes(f: Field, g: Field, rest: seq<Field>)
    ensures FieldsBytes([f, g] + rest) == FieldBytes(f) + FieldBytes(g) + FieldsBytes(rest)
  {
    hide FieldsBytes, FieldBytes;
    FirstBytes(g, rest);
    FirstBytes(f, [g] + rest);
    assert [f, g] + rest == [f] + ([g] + rest);
  }

  lemma FourFields(f: Field, g: Field, h: Field, k: Field, rest: seq<Field>)
    ensures FieldsBytes([f, g, h, k] + rest)
            == FieldBytes(f) + FieldBytes(g) + FieldBytes(h) + FieldBytes(k) + FieldsBytes(rest)
  {
    hide FieldsBytes, FieldBytes;
    PairBytes(h, k, rest);
    PairBytes(f, g, [h, k] + rest);
    assert [f, g, h, k] + rest == [f, g] + ([h, k] + rest);
  }

  lemma WordLengths()
    ensures forall w :: |Le32(w)| == 4
    ensures forall w :: |Le16(w)| == 2
  {
  }

  /** Where everything is in the packet when every address is IPv4: the number of servers, the last server, 21 bytes for each
      server, a zero and 0xA4 on 16 bits each, and for each server its id and its number of characters. */
  lemma ListLayout(resolve: Resolver, s: seq<Server>, lastServer: int32, counts: Option<seq<byte>>, i: nat)
    requires AllIPv4(resolve, s) && i < |s|
    ensures var (b, n) := (FieldsBytes(ListFields(resolve, s, lastServer, counts)), |s|);
            && |b| == 6 + 23 * n && b[0] == n % 256 && b[1] == lastServer % 256
            && b[2 + 21 * i..23 + 21 * i] == FieldsBytes(EntryFields(resolve, s[i]))
            && b[2 + 21 * n..6 + 21 * n] == [0, 0, 0xA4, 0]
            && b[6 + 21 * n + 2 * i] == s[i].id % 256
            && b[7 + 21 * n + 2 * i] == (if counts.Some? && 0 <= s[i].id < 32 && s[i].id < |counts.value|
                                         then counts.value[s[i].id] else 0)
  {
    hide Entries, Counts, EntryFields, AllIPv4, FieldsBytes;
    var (e, c) := (FieldsBytes(Entries(resolve, s)), FieldsBytes(Counts(counts, s)));
    var b := FieldsBytes(ListFields(resolve, s, lastServer, counts));
    ListBytes(resolve, s, lastServer, counts);
    NoneUnaddressed(resolve, s);
    EntriesSize(resolve, s);
    CountsSize(counts, s);
    EntryBytesAt(resolve, s, i);
    CountBytesAt(counts, s, i);
    assert b[2..2 + 21 * |s|] == e && b[6 + 21 * |s|..] == c;
    assert b[2 + 21 * i..23 + 21 * i] == b[2..2 + 21 * |s|][21 * i..21 * i + 21];
    assert b[6 + 21 * |s| + 2 * i] == c[2 * i] && b[7 + 21 * |s| + 2 * i] == c[2 * i + 1];
  }

  lemma ListBytes(resolve: Resolver, s: seq<Server>, lastServer: int32, counts: Option<seq<byte>>)
    ensures FieldsBytes(ListFields(resolve, s, lastServer, counts))
            == [|s| % 256, lastServer % 256] + FieldsBytes(Entries(resolve, s)) + [0, 0, 0xA4, 0]
               + FieldsBytes(Counts(counts, s))
  {
    hide Entries, Counts, FieldsBytes;
    NoBytes();
    var (e, c) := (Entries(resolve, s), Counts(counts, s));
    var (head, mark) := ([Byte(LowByte(|s|)), Byte(LowByte(lastServer))], [Int16(0), Int16(0xA4)]);
    PairBytes(head[0], head[1], []);
    PairBytes(mark[0], mark[1], []);
    assert head + [] == head && mark + [] == mark;
    FieldsConcat(head, e);
    FieldsConcat(head + e, mark);
    FieldsConcat(head + e + mark, c);
  }

  lemma {:induction false} EntryBytesAt(resolve: Resolver, s: seq<Server>, i: nat)
    requires AllIPv4(resolve, s) && i < |s|
    ensures |FieldsBytes(Entries(resolve, s))| == 21 * |s|
    ensures FieldsBytes(Entries(resolve, s))[21 * i..21 * i + 21] == FieldsBytes(EntryFields(resolve, s[i]))
  {
    hide FieldsBytes, EntryFields;
    var init := s[..|s| - 1];
    NoneUnaddressed(resolve, s);
    NoneUnaddressed(resolve, init);
    EntriesSize(resolve, s);
    EntriesSize(resolve, init);
    FieldsConcat(Entries(resolve, init), EntryFields(resolve, s[|s| - 1]));
    if i < |init| {
      EntryBytesAt(resolve, init, i);
      assert FieldsBytes(Entries(resolve, s))[21 * i..21 * i + 21] == FieldsBytes(Entries(resolve, init))[21 * i..21 * i + 21];
    }
  }

  lemma {:induction false} CountBytesAt(counts: Option<seq<byte>>, s: seq<Server>, i: nat)
    requires i < |s|
    ensures var b := FieldsBytes(Counts(counts, s));
            |b| == 2 * |s| && b[2 * i] == LowByte(s[i].id) && b[2 * i + 1] == CountFor(counts, s[i].id)
  {
    hide FieldsBytes, CountFor;
    var (init, last) := (s[..|s| - 1], s[|s| - 1]);
    NoBytes();
    CountsSize(counts, s);
    CountsSize(counts, init);
    FieldsConcat(Counts(counts, init), CountFields(counts, last));
    PairBytes(Byte(LowByte(last.id)), Byte(CountFor(counts, last.id)), []);
    assert CountFields(counts, last) + [] == CountFields(counts, last);
    if i < |init| {
      CountBytesAt(counts, init, i);
    }
  }
}
