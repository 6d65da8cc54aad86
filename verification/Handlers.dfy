/** The packet handlers a login goes through: internal/packet/client/auth_gg.go, login.go, server_list.go and gs_login.go,
    and internal/packet/gs/validate.go. Each method is tied to what it does to the client's record and the handoff store. */
module Handlers {
  import opened Credentials
  import opened HandoffStore
  import opened PacketReaders
  import opened PacketWriters
  import opened ScrambledKey
  import opened ServerListPacket
  import opened ServerLists
  import opened SessionKeys
  import opened Wire
  import opened Words
  import opened Wrappers

  datatype State = Connected | AuthedGG | AuthedLogin | ServerListed

  /** The identity of one connection: internal/client/client.go. */
  datatype Record = Record(state: State, sessionId: int32, key: SessionKey, rsa: PrivateKey, account: string,
                           accountId: int64, lastServer: int32)

  /** The account row Authenticate returns. */
  datatype Row = Row(id: int64, lastServer: int32)

  /** A packet sent in answer, and whether the connection is closed after it. */
  datatype Reply = Reply(opcode: byte, fields: seq<Field>, closes: bool)

  // ---- Reading words off the front of a packet ----

  /** The i-th of the int32 fields a packet body starts with. */
  function Int32At(b: seq<byte>, i: nat): int32
    requires 4 * i + 4 <= |b|
  {
    ToI32(Word(b, 4 * i))
  }

  lemma TakeNext(b: seq<byte>, i: nat)
    requires 4 * i <= |b|
    ensures TakeU32(b[4 * i..]).Took? <==> 4 * i + 4 <= |b|
    ensures 4 * i + 4 <= |b| ==> TakeU32(b[4 * i..]) == Took(Word(b, 4 * i), 4)
  {
    if 4 * i + 4 <= |b| {
      var s := b[4 * i..];
      assert s[0] == b[4 * i] && s[1] == b[4 * i + 1] && s[2] == b[4 * i + 2] && s[3] == b[4 * i + 3];
    }
  }

  /** The next int32 of a packet whose body was b when i of them had been read. */
  method NextInt32(r: PacketReader, ghost b: seq<byte>, ghost i: nat) returns (v: Result<int32>)
    requires r.Valid() && 4 * i <= |b| && r.Remainder() == b[4 * i..]
    modifies r`pos
    ensures r.Valid()
    ensures v.Success? <==> 4 * i + 4 <= |b|
    ensures v.Success? ==> v.value == Int32At(b, i) && r.Remainder() == b[4 * (i + 1)..]
  {
    TakeNext(b, i);
    v := r.ReadInt32();
    if v.Success? {
      assert r.Remainder() == b[4 * i..][4..];
    }
  }

  // ---- What the handlers do ----

  ghost predicate OwnSessionId(c: Record, body: seq<byte>) {
    |body| >= 4 && Int32At(body, 0) == c.sessionId
  }

  ghost function AfterAuthGG(c: Record, body: seq<byte>): Record {
    if OwnSessionId(c, body) then c.(state := AuthedGG) else c
  }

  /** The blocks a login packet hands to a worker, if the client may log in at all. */
  ghost function StartsLogin(c: Record, body: seq<byte>): Option<(seq<byte>, Option<seq<byte>>)> {
    if c.state == AuthedGG then LoginBlocks(body) else None
  }

  /** The identity commit at the end of a login worker. */
  function AfterCommit(c: Record, username: string, row: Row): Record {
    c.(account := username, accountId := row.id, state := AuthedLogin, lastServer := row.lastServer)
  }

  ghost predicate OwnLoginPair(c: Record, body: seq<byte>) {
    |body| >= 8 && c.key.CheckLoginPair(Int32At(body, 0), Int32At(body, 1))
  }

  ghost function AfterServerList(c: Record, body: seq<byte>): Record {
    if c.state == AuthedLogin && OwnLoginPair(c, body) then c.(state := ServerListed) else c
  }

  /** A game-server login that goes through. */
  ghost predicate HandsOff(c: Record, body: seq<byte>) {
    c.state == ServerListed && |body| >= 12 && OwnLoginPair(c, body) && InRange(Int32At(body, 2))
  }

  ghost function AfterGSLogin(c: Record, body: seq<byte>): Record {
    if HandsOff(c, body) then c.(lastServer := Int32At(body, 2)) else c
  }

  /** The session it leaves for the game server. */
  ghost function Handoff(c: Record, body: seq<byte>, now: int, ttl: int): Session
    requires HandsOff(c, body)
  {
    Session(now + ttl, c.key, c.account, c.accountId, Int32At(body, 2))
  }

  /** A validation request: the account and the four words, in the order they are sent. */
  datatype Request = Request(account: string, playOk1: int32, playOk2: int32, loginOk1: int32, loginOk2: int32)

  ghost function ParseRequest(body: seq<byte>): Option<Request> {
    match TakeString(body)
    case Malformed(_) => None
    case Took(account, used) =>
      var b := body[used..];
      if |b| < 16 then None
      else Some(Request(account, Int32At(b, 0), Int32At(b, 1), Int32At(b, 2), Int32At(b, 3)))
  }

  /** strings.EqualFold, by way of a folding function. */
  predicate EqualFold(fold: string -> string, a: string, b: string) {
    fold(a) == fold(b)
  }

  /** The session behind a request, if it is there, in time, of the same account and with the same four words. */
  ghost function Granted(fold: string -> string, m: Sessions, q: Request, now: int): Option<Session> {
    match Validated(m, q.loginOk1, now)
    case None => None
    case Some(s) =>
      if EqualFold(fold, s.account, q.account) && s.key.CheckPlayPair(q.loginOk1, q.loginOk2, q.playOk1, q.playOk2)
      then Some(s) else None
  }

  /** The answer to the game server. */
  ghost function Verdict(fold: string -> string, m: Sessions, q: Request, now: int): Reply {
    var g := Granted(fold, m, q, now);
    Reply(0x03, [String(q.account), Byte(if g.Some? then 1 else 0), Int32(q.loginOk1),
                 Int64(if g.Some? then g.value.accountId else 0)], false)
  }

  // ---- What the packets say ----

  function Int32Bytes(v: int32): (b: seq<byte>) {
    Le32(ToU32(v))
  }

  /** The i-th int32 of a body is v exactly if its four bytes are v's. */
  lemma Int32Is(b: seq<byte>, i: nat, v: int32)
    requires 4 * i + 4 <= |b|
    ensures Int32At(b, i) == v <==> b[4 * i..4 * i + 4] == Int32Bytes(v)
  {
    hide Word, Le32, ToI32, ToU32;
    WordBytes(b, 4 * i);
    SignedIs(Word(b, 4 * i), v);
    Le32Injective(Word(b, 4 * i), ToU32(v));
  }

  lemma WordBytes(b: seq<byte>, pos: nat)
    requires pos + 4 <= |b|
    ensures Le32(Word(b, pos)) == b[pos..pos + 4]
  {
    hide Le32;
    Le32OfU32(b[pos], b[pos + 1], b[pos + 2], b[pos + 3]);
  }

  lemma SignedIs(w: uint32, v: int32)
    ensures ToI32(w) == v <==> w == ToU32(v)
  {
  }

  lemma Le32Injective(x: uint32, y: uint32)
    ensures Le32(x) == Le32(y) <==> x == y
  {
    hide Le32, U32;
    U32OfLe32(x);
    U32OfLe32(y);
  }

  /** What a client has to send: its session id for AuthGG, its two login words for the server list, those and a server from
      0 to 31 for the game, each as little-endian int32s at the front. */
  lemma PacketMeaning(c: Record, body: seq<byte>)
    ensures OwnSessionId(c, body) <==> Int32Bytes(c.sessionId) <= body
    ensures OwnLoginPair(c, body) <==> Int32Bytes(c.key.loginOk1) + Int32Bytes(c.key.loginOk2) <= body
    ensures HandsOff(c, body) <==>
            c.state == ServerListed && |body| >= 12
            && Int32Bytes(c.key.loginOk1) + Int32Bytes(c.key.loginOk2) <= body && 0 <= Int32At(body, 2) < 32
  {
    hide Int32At, Le32;
    FourBytes(c.sessionId);
    FourBytes(c.key.loginOk1);
    FourBytes(c.key.loginOk2);
    if |body| >= 4 {
      Int32Is(body, 0, c.sessionId);
      assert body[0..4] == body[..4];
    }
    if |body| >= 8 {
      var (a, b) := (Int32At(body, 0), Int32At(body, 1));
      ChecksAreEquality(c.key, a, b, 0, 0);
      Int32Is(body, 0, c.key.loginOk1);
      Int32Is(body, 1, c.key.loginOk2);
      assert body[..8] == body[0..4] + body[4..8];
    }
  }

  lemma FourBytes(v: int32)
    ensures |Int32Bytes(v)| == 4
  {
  }

  /** A client past AuthGG starts a worker on its first 128 bytes, and on the next 128 if they are there. */
  lemma LoginMeaning(c: Record, body: seq<byte>)
    ensures StartsLogin(c, body) == if c.state != AuthedGG || |body| < 128 then None
                                    else Some((body[..128], if |body| < 256 then None else Some(body[128..256])))
  {
  }

  // ---- What a game server reads in an answer ----

  datatype Told = Told(account: string, status: byte, loginOk1: int32, accountId: int64)

  function GameServerReads(body: seq<byte>): Option<Told> {
    match TakeFields([KString, KByte, KI32, KI64], body)
    case Malformed(_) => None
    case Took(f, _) =>
      if |f| == 4 && f[0].String? && f[1].Byte? && f[2].Int32? && f[3].Int64? then
        Some(Told(f[0].s, f[1].b, f[2].i32, f[3].i64))
      else None
  }

  /** A handoff is there for the login word, in time, of that account up to case, and with those four words. */
  ghost predicate Honoured(fold: string -> string, m: Sessions, q: Request, now: int) {
    q.loginOk1 in m && now <= m[q.loginOk1].expiresAt && fold(m[q.loginOk1].account) == fold(q.account)
    && m[q.loginOk1].key == SessionKey(q.loginOk1, q.loginOk2, q.playOk1, q.playOk2)
  }

  /** A game server reads status one and the handoff's account id exactly if the request is honoured, and zeros otherwise;
      with the account and the login word it asked about. */
  lemma VerdictRead(fold: string -> string, m: Sessions, q: Request, now: int)
    requires '\0' !in q.account
    ensures Granted(fold, m, q, now).Some? <==> Honoured(fold, m, q, now)
    ensures GameServerReads(FieldsBytes(Verdict(fold, m, q, now).fields))
            == Some(if Honoured(fold, m, q, now) then Told(q.account, 1, q.loginOk1, m[q.loginOk1].accountId)
                    else Told(q.account, 0, q.loginOk1, 0))
  {
    hide FieldsBytes, TakeFields, SessionKey.CheckPlayPair;
    var f := Verdict(fold, m, q, now).fields;
    if q.loginOk1 in m {
      ChecksAreEquality(m[q.loginOk1].key, q.loginOk1, q.loginOk2, q.playOk1, q.playOk2);
    }
    assert KindsOf(f) == [KString, KByte, KI32, KI64];
    FieldsRoundTrip(f, []);
    assert FieldsBytes(f) + [] == FieldsBytes(f);
  }

  /** No request that was parsed holds a NUL. */
  lemma RequestNulFree(body: seq<byte>)
    requires ParseRequest(body).Some?
    ensures '\0' !in ParseRequest(body).value.account
  {
    hide TakeString, Int32At;
    ReadNulFree(body);
  }

  // ---- The code ----

  class Client {
    const sessionId: int32
    const key: SessionKey
    const rsa: PrivateKey
    var state: State
    var account: string
    var accountId: int64
    var lastServer: int32

    function Rec(): Record
      reads this
    {
      Record(state, sessionId, key, rsa, account, accountId, lastServer)
    }

    /** OnOpen. */
    constructor (sessionId: int32, key: SessionKey, rsa: PrivateKey)
      ensures Rec() == Record(Connected, sessionId, key, rsa, "", 0, 0)
    {
      this.sessionId, this.key, this.rsa := sessionId, key, rsa;
      state, account, accountId, lastServer := Connected, "", 0, 0;
    }

    /** The committing lines of processLogin. */
    method Commit(username: string, row: Row)
      modifies this
      ensures Rec() == AfterCommit(old(Rec()), username, row)
      ensures state == AuthedLogin && account == username && accountId == row.id && lastServer == row.lastServer
    {
      accountId := row.id;
      account := username;
      state := AuthedLogin;
      lastServer := row.lastServer;
    }
  }

  method AuthGG(c: Client, r: PacketReader) returns (res: Result<()>, replies: seq<Reply>)
    requires r.Valid()
    modifies c`state, r`pos
    ensures c.Rec() == AfterAuthGG(old(c.Rec()), old(r.Remainder()))
    ensures c.state == if OwnSessionId(old(c.Rec()), old(r.Remainder())) then AuthedGG else old(c.state)
    ensures res.Success? <==> |old(r.Remainder())| >= 4
    ensures replies == if res.Failure? then []
                       else if OwnSessionId(old(c.Rec()), old(r.Remainder()))
                       then [Reply(0x0B, [Int32(c.sessionId)], false)] else [Reply(0x01, [Byte(0x01)], true)]
  {
    replies := [];
    ghost var b := r.Remainder();
    var sessionId := NextInt32(r, b, 0);
    if sessionId.Failure? {
      return Failure(sessionId.error), [];
    }
    if sessionId.value != c.sessionId {
      return Success(()), [Reply(0x01, [Byte(0x01)], true)];
    }
    c.state := AuthedGG;
    return Success(()), [Reply(0x0B, [Int32(c.sessionId)], false)];
  }

  /** Either starts a worker on copies of the blocks or answers with a login failure. */
  method HandleLogin(c: Client, r: PacketReader)
    returns (worker: Option<(seq<byte>, Option<seq<byte>>)>, replies: seq<Reply>)
    requires r.Valid()
    modifies r`pos
    ensures worker == StartsLogin(c.Rec(), old(r.Remainder()))
    ensures replies == if worker.None? then [Reply(0x01, [Byte(0x01)], true)] else []
  {
    if c.state != AuthedGG {
      return None, [Reply(0x01, [Byte(0x01)], true)];
    }
    var blocks := ReadLoginBlocks(r);
    if blocks.Failure? {
      return None, [Reply(0x01, [Byte(0x01)], true)];
    }
    return Some(blocks.value), [];
  }

  /** How HandleServerList ends: a refused state, a malformed packet, a wrong key, or the list. */
  datatype Listing = Unauthorized | Truncated | WrongKey | Listed(body: seq<byte>, requestsCharacters: bool)

  /** The body is the list of exactly the active servers, with the counts of this account. */
  ghost predicate ListsActive(body: seq<byte>, header: seq<byte>, active: Servers, resolve: Resolver, lastServer: int32,
                              counts: Option<seq<byte>>)
  {
    exists s :: IsSnapshot(s, active) && |s| <= MAX_SUPPORTED_SERVERS
                && body == header + FieldsBytes(ListFields(resolve, s, lastServer, counts))
  }

  function CountsFor(m: map<string, seq<byte>>, account: string): Option<seq<byte>> {
    if account in m then Some(m[account]) else None
  }

  /** The packet for an account. */
  method ListBody(list: ServerList, resolve: Resolver, account: string, lastServer: int32, w: PacketWriter)
    returns (body: seq<byte>)
    requires list.Valid() && w.Valid()
    modifies w, w.arr
    ensures ListsActive(body, old(w.Contents()), list.Active(), resolve, lastServer, CountsFor(list.charCounts, account))
  {
    hide ListFields, FieldsBytes, IsSnapshot;
    var snap, count := list.GetServers();
    WriteList(w, resolve, snap, count, lastServer, CountsFor(list.charCounts, account));
    body := w.arr[..w.len];
    assert IsSnapshot(snap[..count], list.Active());
  }

  /** Reads two words and compares them with the client's own; None if they are not there. */
  method ReadLoginPair(c: Client, r: PacketReader) returns (own: Option<bool>)
    requires r.Valid()
    modifies r`pos
    ensures r.Valid() && (own.None? <==> |old(r.Remainder())| < 8)
    ensures own == Some(true) <==> OwnLoginPair(c.Rec(), old(r.Remainder()))
  {
    hide SessionKey.CheckLoginPair;
    ghost var b := r.Remainder();
    var loginOk1 := NextInt32(r, b, 0);
    if loginOk1.Failure? {
      return None;
    }
    var loginOk2 := NextInt32(r, b, 1);
    if loginOk2.Failure? {
      return None;
    }
    own := Some(c.key.CheckLoginPair(loginOk1.value, loginOk2.value));
  }

  method HandleServerList(c: Client, r: PacketReader, list: ServerList, resolve: Resolver, w: PacketWriter)
    returns (out: Listing)
    requires r.Valid() && list.Valid() && w.Valid()
    modifies c`state, r`pos, w, w.arr
    ensures c.Rec() == AfterServerList(old(c.Rec()), old(r.Remainder()))
    ensures c.state == if out.Listed? then ServerListed else old(c.state)
    ensures out.Listed? <==> old(c.state) == AuthedLogin && OwnLoginPair(old(c.Rec()), old(r.Remainder()))
    ensures out.Unauthorized? <==> old(c.state) != AuthedLogin
    ensures out.Truncated? <==> old(c.state) == AuthedLogin && |old(r.Remainder())| < 8
    ensures out.Listed? ==> ListsActive(out.body, old(w.Contents()), old(list.Active()), resolve, c.lastServer,
                                        if c.account in old(list.charCounts)
                                        then Some(old(list.charCounts)[c.account]) else None)
    ensures out.Listed? ==> out.requestsCharacters == (c.account !in old(list.charCounts))
  {
    hide ListsActive, OwnLoginPair, ServerList.Valid, ServerList.Active;
    if c.state != AuthedLogin {
      return Unauthorized;
    }
    var own := ReadLoginPair(c, r);
    if own.None? {
      return Truncated;
    }
    if !own.value {
      return WrongKey;
    }
    c.state := ServerListed;
    var body := ListBody(list, resolve, c.account, c.lastServer, w);
    out := Listed(body, c.account !in list.charCounts);
  }

  /** A client that has the list gets its handoff, or is closed for a server or words that are wrong; before the list the
      request is dropped. */
  method GameServerLogin(c: Client, r: PacketReader, store: Store, now: int, ttl: int)
    returns (res: Result<()>, replies: seq<Reply>, closed: bool)
    requires r.Valid() && store.Valid()
    modifies c`lastServer, r`pos, store`Contents, store.shards
    ensures store.Valid() && c.Rec() == AfterGSLogin(old(c.Rec()), old(r.Remainder()))
    ensures c.state == old(c.state) && c.account == old(c.account) && c.accountId == old(c.accountId)
    ensures c.lastServer == if HandsOff(old(c.Rec()), old(r.Remainder())) then Int32At(old(r.Remainder()), 2)
                            else old(c.lastServer)
    ensures store.Contents ==
            if HandsOff(old(c.Rec()), old(r.Remainder()))
            then old(store.Contents)[c.key.loginOk1 := Handoff(old(c.Rec()), old(r.Remainder()), now, ttl)]
            else old(store.Contents)
    ensures HandsOff(old(c.Rec()), old(r.Remainder())) ==>
              store.Contents[c.key.loginOk1]
              == Session(now + ttl, c.key, c.account, c.accountId, Int32At(old(r.Remainder()), 2))
    ensures replies == if HandsOff(old(c.Rec()), old(r.Remainder()))
                       then [Reply(0x07, [Int32(c.key.playOk1), Int32(c.key.playOk2)], false)] else []
    ensures res.Failure? <==> c.state == ServerListed && |old(r.Remainder())| < 12
    ensures closed <==> c.state == ServerListed && |old(r.Remainder())| >= 12
                        && !HandsOff(old(c.Rec()), old(r.Remainder()))
  {
    hide SessionKey.CheckLoginPair, Store.Valid;
    replies, closed := [], false;
    if c.state != ServerListed {
      return Success(()), [], false;
    }
    ghost var b := r.Remainder();
    var loginOk1 := NextInt32(r, b, 0);
    if loginOk1.Failure? {
      return Failure(loginOk1.error), [], false;
    }
    var loginOk2 := NextInt32(r, b, 1);
    if loginOk2.Failure? {
      return Failure(loginOk2.error), [], false;
    }
    var serverId := NextInt32(r, b, 2);
    if serverId.Failure? {
      return Failure(serverId.error), [], false;
    }
    if serverId.value < 0 || serverId.value >= MAX_SUPPORTED_SERVERS {
      return Success(()), [], true;
    }
    if !c.key.CheckLoginPair(loginOk1.value, loginOk2.value) {
      return Success(()), [], true;
    }
    if c.lastServer != serverId.value {
      c.lastServer := serverId.value;
    }
    var s := Session(now + ttl, c.key, c.account, c.accountId, serverId.value);
    store.Put(c.key.loginOk1, s);
    return Success(()), [Reply(0x07, [Int32(c.key.playOk1), Int32(c.key.playOk2)], false)], false;
  }

  /** Consumes the handoff before it looks at account and key. */
  method HandleValidate(r: PacketReader, store: Store, fold: string -> string, now: int)
    returns (res: Result<()>, replies: seq<Reply>)
    requires r.Valid() && store.Valid()
    modifies r`pos, store`Contents, store.shards
    ensures store.Valid()
    ensures match ParseRequest(old(r.Remainder()))
            case None => res.Failure? && replies == [] && store.Contents == old(store.Contents)
            case Some(q) =>
              res.Success? && store.Contents == old(store.Contents) - {q.loginOk1}
              && replies == [Verdict(fold, old(store.Contents), q, now)]
              && replies[0].opcode == 0x03 && !replies[0].closes
  {
    hide SessionKey.CheckPlayPair, Store.Valid, ParseRequest, Validated;
    replies := [];
    var q :- ReadRequest(r);
    var sess := store.ValidateAndDelete(q.loginOk1, now);
    var success := sess.Some? && EqualFold(fold, sess.value.account, q.account)
                   && sess.value.key.CheckPlayPair(q.loginOk1, q.loginOk2, q.playOk1, q.playOk2);
    var statusByte: byte := 0;
    if success {
      statusByte := 1;
    }
    replies := [Reply(0x03, [String(q.account), Byte(statusByte), Int32(q.loginOk1),
                             Int64(if success then sess.value.accountId else 0)], false)];
    res := Success(());
  }

  method ReadRequest(r: PacketReader) returns (q: Result<Request>)
    requires r.Valid()
    modifies r`pos
    ensures r.Valid()
    ensures match ParseRequest(old(r.Remainder()))
            case None => q.Failure?
            case Some(v) => q == Success(v)
  {
    hide TakeString, Int32At;
    ghost var body := r.Remainder();
    var account :- r.ReadString();
    ghost var b := body[TakeString(body).used..];
    assert r.Remainder() == b;
    var playOk1 :- NextInt32(r, b, 0);
    var playOk2 :- NextInt32(r, b, 1);
    var loginOk1 :- NextInt32(r, b, 2);
    var loginOk2 :- NextInt32(r, b, 3);
    q := Success(Request(account, playOk1, playOk2, loginOk1, loginOk2));
  }
}
