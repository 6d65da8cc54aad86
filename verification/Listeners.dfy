/** internal/listener/client_listener.go and internal/listener/gs_listener.go outside their framing loops: admitting a
    connection, the Init packet that opens it, and what closing it does. */
module Listeners {
  import opened BanManagers
  import opened Blowfish
  import opened Connections
  import opened Credentials
  import opened Crypts
  import opened Framing
  import opened Handlers
  import opened NumberTheory
  import opened PacketWriters
  import opened Pipeline
  import opened RateLimiters
  import opened ScrambledKey
  import opened ServerListPacket
  import opened ServerLists
  import opened SessionKeys
  import opened SessionRegistries
  import opened Wire
  import opened Words
  import opened Wrappers

  // ---- The Init packet ----

  const PROTOCOL_REVISION := 0xc621

  /** Opcode and body of the Init packet. */
  function InitFields(sessionId: int32, modulus: seq<byte>, secretKey: seq<byte>): seq<Field> {
    [Byte(0x00), Int32(sessionId), Int32(PROTOCOL_REVISION), Bytes(modulus), UInt32(0x29DD954E), UInt32(0x77C39CFC),
     UInt32(0x97ADB620), UInt32(0x07BDE0F7), Bytes(secretKey), Byte(0x00)]
  }

  /** The Init packet's constants and where everything is. */
  lemma InitLayout(sessionId: int32, modulus: seq<byte>, secretKey: seq<byte>)
    requires |modulus| == 128 && |secretKey| == 16
    ensures FieldsBytes(InitFields(sessionId, modulus, secretKey))
            == [0] + Le32(ToU32(sessionId)) + (Le32(0xC621) + modulus + (Le32(0x29DD954E) + Le32(0x77C39CFC)
               + (Le32(0x97ADB620) + Le32(0x07BDE0F7) + (secretKey + [0]))))
  {
    hide FieldsBytes, Le32, ToU32;
    SmallUnsigned();
    var (a, b) := ([Bytes(secretKey), Byte(0x00)] + [], [UInt32(0x97ADB620), UInt32(0x07BDE0F7)]);
    NoBytes();
    PairBytes(Bytes(secretKey), Byte(0x00), []);
    assert secretKey + [0x00] + [] == secretKey + [0x00];
    PairBytes(b[0], b[1], a);
    PairBytes(UInt32(0x29DD954E), UInt32(0x77C39CFC), b + a);
    var rest := [UInt32(0x29DD954E), UInt32(0x77C39CFC)] + (b + a);
    PairBytes(Int32(PROTOCOL_REVISION), Bytes(modulus), rest);
    PairBytes(Byte(0x00), Int32(sessionId), [Int32(PROTOCOL_REVISION), Bytes(modulus)] + rest);
    assert InitFields(sessionId, modulus, secretKey)
           == [Byte(0x00), Int32(sessionId)] + ([Int32(PROTOCOL_REVISION), Bytes(modulus)] + rest);
  }

  lemma SmallUnsigned()
    ensures ToU32(PROTOCOL_REVISION) == 0xC621
  {
  }

  const INIT_KINDS: seq<Kind> := [KByte, KI32, KI32, KBytes(128), KU32, KU32, KU32, KU32, KBytes(16), KByte]

  /** What a client takes from the Init packet: its session id, the RSA modulus and its Blowfish key. */
  datatype Handshake = Handshake(sessionId: int32, modulus: nat, secretKey: seq<byte>)

  /** The client: deciphers under the static key, undoes the XOR pass, reads the fields, unscrambles the modulus. */
  ghost function ReadInit(staticKey: Schedule, body: seq<byte>): Option<Handshake> {
    match PeerReads(staticKey, true, INIT_KINDS, body)
    case Malformed(_) => None
    case Took(f, _) =>
      if |f| == 10 && f[1].Int32? && f[3].Bytes? && |f[3].bytes| == RSA_MODULUS_SIZE && f[8].Bytes? then
        Some(Handshake(f[1].i32, FromBytes(Unscramble(f[3].bytes)), f[8].bytes))
      else None
  }

  lemma InitShape(sessionId: int32, modulus: seq<byte>, secretKey: seq<byte>)
    requires |modulus| == RSA_MODULUS_SIZE && |secretKey| == 16
    ensures var f := InitFields(sessionId, modulus, secretKey);
            KindsOf(f) == INIT_KINDS && forall i :: 0 <= i < |f| ==> NulFree(f[i])
  {
  }

  /** From the Init packet a client recovers exactly the server's session id, modulus and Blowfish key, whatever the
      padding and the XOR key. */
  lemma InitRecovered(staticKey: Schedule, sessionId: int32, n: nat, secretKey: seq<byte>, junk: seq<byte>,
                      xorKey: uint32)
    requires Fits(n, RSA_MODULUS_SIZE) && |secretKey| == 16
    requires var f := InitFields(sessionId, Scramble(ToBytes(n, RSA_MODULUS_SIZE)), secretKey);
             Carries(Sent(FieldsBytes(f), junk, xorKey), f, true)
    ensures var f := InitFields(sessionId, Scramble(ToBytes(n, RSA_MODULUS_SIZE)), secretKey);
            ReadInit(staticKey, Sealed(staticKey, true, FieldsBytes(f), junk, xorKey))
            == Some(Handshake(sessionId, n, secretKey))
  {
    hide Scramble, Unscramble, Sealed, PeerReads, Carries, FieldsBytes, Fits;
    var modulus := Scramble(ToBytes(n, RSA_MODULUS_SIZE));
    var f := InitFields(sessionId, modulus, secretKey);
    InitShape(sessionId, modulus, secretKey);
    PacketSurvives(staticKey, true, Sent(FieldsBytes(f), junk, xorKey), f);
    PeerRecoversModulus(n);
  }

  // ---- Opening a client connection ----

  /** A key of the pool: the private key and the scrambled modulus. */
  datatype PoolKey = PoolKey(rsa: PrivateKey, modulus: Modulus) {
    function N(): nat {
      rsa.p * rsa.q
    }

    /** The modulus is the key's own. */
    ghost predicate Matched() {
      Fits(N(), RSA_MODULUS_SIZE) && modulus == Scramble(ToBytes(N(), RSA_MODULUS_SIZE))
    }
  }

  type Modulus = b: seq<byte> | |b| == RSA_MODULUS_SIZE witness seq(RSA_MODULUS_SIZE, i => 0)

  /** InitRSAPool, on the keys that were generated. */
  method InitRSAPool(generated: seq<PrivateKey>) returns (keys: seq<PoolKey>)
    requires generated != [] && forall i :: 0 <= i < |generated| ==> Usable(generated[i])
    ensures |keys| == |generated|
    ensures forall i :: 0 <= i < |keys| ==> keys[i].rsa == generated[i] && keys[i].Matched()
  {
    hide Scramble, ToBytes;
    keys := [];
    for i := 0 to |generated|
      invariant |keys| == i
      invariant forall j :: 0 <= j < i ==> keys[j].rsa == generated[j] && keys[j].Matched()
    {
      var modulus := new byte[RSA_MODULUS_SIZE];
      FillAndScrambleModulus(modulus, generated[i].p * generated[i].q);
      keys := keys + [PoolKey(generated[i], modulus[..])];
    }
  }

  datatype Connection = Connection(client: Client, crypt: Crypt)

  /** Writes and seals the Init packet. */
  method InitPacket(staticCipher: BlowfishCipher, sessionId: int32, modulus: seq<byte>, secretKey: seq<byte>,
                    xorKey: uint32) returns (out: seq<byte>, ghost junk: seq<byte>)
    requires staticCipher.Valid() && |modulus| == RSA_MODULUS_SIZE && |secretKey| == 16
    ensures var f := InitFields(sessionId, modulus, secretKey); Carries(Sent(FieldsBytes(f), junk, xorKey), f, true)
    ensures out == Frame(Sealed(staticCipher.Value(), true, FieldsBytes(InitFields(sessionId, modulus, secretKey)), junk,
                                xorKey))
  {
    hide Sealed, Blowfish.BlowfishCipher.Value, Frame, FieldsBytes;
    var fields := InitFields(sessionId, modulus, secretKey);
    var w := new PacketWriter();
    Build(w, fields);
    InitSize(sessionId, modulus, secretKey);
    InitShape(sessionId, modulus, secretKey);
    HeaderThenBody(w.Contents(), FieldsBytes(fields));
    SealedSizeLeast(|FieldsBytes(fields)|, true);
    junk := EncryptStatic(staticCipher, w, xorKey);
    assert w.Contents()[2..] == Sealed(staticCipher.Value(), true, FieldsBytes(fields), junk, xorKey);
    out := Finish(w);
  }

  lemma InitSize(sessionId: int32, modulus: seq<byte>, secretKey: seq<byte>)
    requires |modulus| == RSA_MODULUS_SIZE && |secretKey| == 16
    ensures |FieldsBytes(InitFields(sessionId, modulus, secretKey))| == 170
  {
    hide FieldsBytes, KindsSize;
    var f := InitFields(sessionId, modulus, secretKey);
    InitShape(sessionId, modulus, secretKey);
    FieldsSize(f);
    PairSize(KByte, KI32);
    PairSize(KI32, KBytes(128));
    PairSize(KU32, KU32);
    PairSize(KBytes(16), KByte);
    KindsSizeConcat([KByte, KI32], [KI32, KBytes(128)]);
    KindsSizeConcat([KU32, KU32], [KU32, KU32]);
    KindsSizeConcat([KByte, KI32] + [KI32, KBytes(128)], [KU32, KU32] + [KU32, KU32]);
    KindsSizeConcat([KByte, KI32] + [KI32, KBytes(128)] + ([KU32, KU32] + [KU32, KU32]), [KBytes(16), KByte]);
    assert INIT_KINDS == [KByte, KI32] + [KI32, KBytes(128)] + ([KU32, KU32] + [KU32, KU32]) + [KBytes(16), KByte];
  }

  /** What OnOpen sends for one key of the pool and whatever random values. */
  ghost predicate OpenedWith(out: seq<byte>, staticKey: Schedule, k: PoolKey, sessionId: int32, secretKey: Bytes16,
                             junk: seq<byte>, xorKey: uint32)
  {
    var f := InitFields(sessionId, k.modulus, secretKey);
    && k.Matched() && Carries(Sent(FieldsBytes(f), junk, xorKey), f, true)
    && |Sealed(staticKey, true, FieldsBytes(f), junk, xorKey)| + 2 < 0x1_0000
    && out == Frame(Sealed(staticKey, true, FieldsBytes(f), junk, xorKey))
  }

  /** The handshake end to end: from the bytes OnOpen sends a client reads exactly its session id, its Blowfish key and the
      modulus of the very key its connection got; and credentials it enciphers with that modulus are what the login worker
      decodes with that key, in the one-block and in the two-block form. */
  lemma HandshakeThenLogin(out: seq<byte>, staticKey: Schedule, k: PoolKey, sessionId: int32, secretKey: Bytes16,
                           junk: seq<byte>, xorKey: uint32, m1: seq<byte>, m2: seq<byte>) returns (h: Handshake)
    requires OpenedWith(out, staticKey, k, sessionId, secretKey, junk, xorKey) && Usable(k.rsa)
    requires |m1| == |m2| == RSA_MODULUS_SIZE
    ensures |out| >= 2 && ReadInit(staticKey, out[2..]) == Some(h)
    ensures h == Handshake(sessionId, k.N(), secretKey)
    ensures FromBytes(m1) < h.modulus && FromBytes(m2) < h.modulus ==> Understood(k.rsa, h.modulus, m1, m2)
  {
    hide Sealed, Frame, Carries, FieldsBytes, InitFields, ReadInit, Scramble, Usable, Decoded, WritesOne, WritesTwo, Fits,
         Enciphered, ClientEnciphers, CanEncipher;
    var n := k.N();
    h := Handshake(sessionId, n, secretKey);
    InitRecovered(staticKey, sessionId, n, secretKey, junk, xorKey);
    FrameBody(Sealed(staticKey, true, FieldsBytes(InitFields(sessionId, k.modulus, secretKey)), junk, xorKey));
    if FromBytes(m1) < n && FromBytes(m2) < n {
      SameCipher(k.rsa, m1);
      SameCipher(k.rsa, m2);
      forall w | WritesOne(m1, w)
        ensures Decoded(k.rsa, Enciphered(k.rsa, m1), None) == Success(w)
      {
        CredentialsRecovered(k.rsa, m1, None, w);
      }
      forall w | WritesTwo(m1 + m2, w)
        ensures Decoded(k.rsa, Enciphered(k.rsa, m1), Some(Enciphered(k.rsa, m2))) == Success(w)
      {
        CredentialsRecovered(k.rsa, m1, Some(m2), w);
      }
    }
  }

  lemma FrameBody(body: seq<byte>)
    requires |body| + 2 < 0x1_0000
    ensures |Frame(body)| >= 2 && Frame(body)[2..] == body
  {
  }

  /** A client knows a modulus and a public exponent, nothing else. */
  ghost predicate CanEncipher(n: nat, e: nat, m: seq<byte>) {
    n > 0 && Pow(FromBytes(m), e) >= 0 && Fits(Pow(FromBytes(m), e) % n, RSA_MODULUS_SIZE)
  }

  ghost function ClientEnciphers(n: nat, e: nat, m: seq<byte>): (c: seq<byte>)
    requires CanEncipher(n, e, m)
  {
    ToBytes(Pow(FromBytes(m), e) % n, RSA_MODULUS_SIZE)
  }

  /** What a client writes and enciphers with modulus n is what is decoded. */
  ghost predicate Understood(rsa: PrivateKey, n: nat, m1: seq<byte>, m2: seq<byte>) {
    && Usable(rsa) && |m1| == |m2| == RSA_MODULUS_SIZE && CanEncipher(n, rsa.e, m1) && CanEncipher(n, rsa.e, m2)
    && var (c1, c2) := (ClientEnciphers(n, rsa.e, m1), ClientEnciphers(n, rsa.e, m2));
       (forall w :: WritesOne(m1, w) ==> Decoded(rsa, c1, None) == Success(w))
       && (forall w :: WritesTwo(m1 + m2, w) ==> Decoded(rsa, c1, Some(c2)) == Success(w))
  }

  lemma SameCipher(rsa: PrivateKey, m: seq<byte>)
    requires Usable(rsa) && |m| == RSA_MODULUS_SIZE && FromBytes(m) < rsa.p * rsa.q
    ensures CanEncipher(rsa.p * rsa.q, rsa.e, m) && ClientEnciphers(rsa.p * rsa.q, rsa.e, m) == Enciphered(rsa, m)
  {
    hide Decrypted, Prime;
    DecryptsEncrypted(rsa, FromBytes(m));
  }

  function LoginOf(c: Client): Login
    reads c
  {
    Login(c.sessionId, c.account)
  }

  class ClientListener {
    const limiter: RateLimiter
    const bans: BanManager<Addr>
    const pool: KeyPool<PoolKey>
    const sessions: SessionRegistry
    const serverList: ServerList
    const staticCipher: BlowfishCipher
    var clients: map<Conn, Connection>

    ghost predicate Valid()
      reads limiter, limiter.shards, sessions, sessions.shards, serverList, serverList.servers, serverList.active,
            staticCipher
    {
      limiter.Valid() && sessions.Valid() && serverList.Valid() && staticCipher.Valid()
      && forall i :: 0 <= i < |pool.keys| ==> pool.keys[i].Matched()
    }

    constructor (limiter: RateLimiter, bans: BanManager<Addr>, pool: KeyPool<PoolKey>, sessions: SessionRegistry,
                 serverList: ServerList, staticCipher: BlowfishCipher)
      requires limiter.Valid() && sessions.Valid() && serverList.Valid() && staticCipher.Valid()
      requires forall i :: 0 <= i < |pool.keys| ==> pool.keys[i].Matched()
      ensures Valid() && clients == map[]
      ensures this.limiter == limiter && this.bans == bans && this.pool == pool && this.sessions == sessions
      ensures this.serverList == serverList && this.staticCipher == staticCipher
    {
      this.limiter, this.bans, this.pool, this.sessions := limiter, bans, pool, sessions;
      this.serverList, this.staticCipher, clients := serverList, staticCipher, map[];
    }

    /** The rate limiter is asked first; only then the ban list. */
    method Admit(ip: Addr, now: int, checked: int, deleted: int) returns (ok: bool)
      requires Valid() && checked <= deleted
      modifies limiter`Contents, limiter.shards, bans
      ensures Valid() && staticCipher.Valid() && limiter.Contents == AfterAllow(limiter.limits, old(limiter.Contents), ip, now)
      ensures bans.Value() == if Allows(limiter.limits, old(limiter.Contents), ip, now)
                              then Asked(bans.policy, old(bans.Value()), ip, checked) else old(bans.Value())
      ensures ok <==> Allows(limiter.limits, old(limiter.Contents), ip, now)
                      && !Banned(bans.policy, old(bans.Value()), ip, checked)
    {
      hide RateLimiter.Valid, Allows, AfterAllow, Banned, Asked;
      ok := limiter.Allow(ip, now);
      if !ok {
        return;
      }
      var banned := bans.IsBanned(ip, checked, deleted);
      ok := !banned;
    }

    lemma PoolMatched()
      requires Valid()
      ensures forall i :: 0 <= i < |pool.keys| ==> pool.keys[i].Matched()
    {
    }

    /** The key for a connection that is let in. */
    method Choose(ip: Addr, now: int, checked: int, deleted: int) returns (k: Option<PoolKey>)
      requires Valid() && checked <= deleted
      modifies limiter`Contents, limiter.shards, bans, pool
      ensures Valid() && staticCipher.Valid()
      ensures limiter.Contents == AfterAllow(limiter.limits, old(limiter.Contents), ip, now)
      ensures bans.Value() == if Allows(limiter.limits, old(limiter.Contents), ip, now)
                              then Asked(bans.policy, old(bans.Value()), ip, checked) else old(bans.Value())
      ensures k.Some? <==> Allows(limiter.limits, old(limiter.Contents), ip, now)
                           && !Banned(bans.policy, old(bans.Value()), ip, checked) && pool.keys != []
      ensures k.None? ==> pool.rsaIdx == old(pool.rsaIdx)
      ensures k.Some? ==> k.value == pool.keys[Pick(old(pool.rsaIdx), |pool.keys|, 0)] && k.value.Matched()
    {
      PoolMatched();
      hide ClientListener.Valid, PoolKey.Matched, Allows, AfterAllow, Banned, Asked, Pick;
      var ok := Admit(ip, now, checked, deleted);
      if !ok {
        return None;
      }
      var picked := pool.GetScrambledKey();
      k := if picked.Failure? then None else Some(picked.value);
    }

    /** Lets a connection in unless its address is over the limit or banned, or there is no RSA key. The session id, the
        session key, the Blowfish key and the XOR key are random. */
    method OnOpen(conn: Conn, ip: Addr, now: int, checked: int, deleted: int, sessionId: int32, key: SessionKey,
                  tables: Schedule, secretKey: Bytes16, xorKey: uint32)
      returns (out: Option<seq<byte>>, ghost junk: seq<byte>)
      requires Valid() && checked <= deleted
      modifies this`clients, limiter`Contents, limiter.shards, bans, pool
      ensures Valid() && limiter.Contents == AfterAllow(limiter.limits, old(limiter.Contents), ip, now)
      ensures bans.Value() == if Allows(limiter.limits, old(limiter.Contents), ip, now)
                              then Asked(bans.policy, old(bans.Value()), ip, checked) else old(bans.Value())
      ensures out.Some? <==> Allows(limiter.limits, old(limiter.Contents), ip, now)
                             && !Banned(bans.policy, old(bans.Value()), ip, checked) && pool.keys != []
      ensures out.None? ==> clients == old(clients) && pool.rsaIdx == old(pool.rsaIdx)
      ensures out.Some? ==>
                var k := pool.keys[Pick(old(pool.rsaIdx), |pool.keys|, 0)];
                && conn in clients && clients == old(clients)[conn := clients[conn]]
                && IsNew(conn, k, sessionId, key, tables, secretKey)
                && OpenedWith(out.value, staticCipher.Value(), k, sessionId, secretKey, junk, xorKey)
    {
      hide ClientListener.Valid, PoolKey.Matched, Allows, AfterAllow, Banned, Asked, Pick, IsNew, OpenedWith,
           BlowfishCipher.Value, BlowfishCipher.Valid, BanManager.Value;
      junk := [];
      out := None;
      var k := Choose(ip, now, checked, deleted);
      if k.Some? {
        var packet;
        packet, junk := Welcome(conn, k.value, sessionId, key, tables, secretKey, xorKey);
        out := Some(packet);
      }
    }

    /** A new client on a key of the pool, and its Init packet. */
    method Welcome(conn: Conn, k: PoolKey, sessionId: int32, key: SessionKey, tables: Schedule, secretKey: Bytes16,
                   xorKey: uint32) returns (out: seq<byte>, ghost junk: seq<byte>)
      requires staticCipher.Valid() && k.Matched()
      modifies this`clients
      ensures conn in clients && clients == old(clients)[conn := clients[conn]] && IsNew(conn, k, sessionId, key, tables, secretKey)
      ensures OpenedWith(out, staticCipher.Value(), k, sessionId, secretKey, junk, xorKey)
      ensures staticCipher.Value() == old(staticCipher.Value())
    {
      hide PoolKey.Matched, InitFields, Carries, KeySchedule, Crypt.Key, BlowfishCipher.Value, Sealed, FieldsBytes, Frame;
      var crypt := new Crypt(tables, secretKey);
      var client := new Client(sessionId, key, k.rsa);
      clients := clients[conn := Connection(client, crypt)];
      out, junk := InitPacket(staticCipher, sessionId, k.modulus, secretKey, xorKey);
      ghost var f := InitFields(sessionId, k.modulus, secretKey);
      CarriedSize(Sent(FieldsBytes(f), junk, xorKey), f, true);
    }

    /** The client of this connection has just connected, on this RSA key and with this Blowfish key. */
    ghost predicate IsNew(conn: Conn, k: PoolKey, sessionId: int32, key: SessionKey, tables: Schedule, secretKey: Bytes16)
      requires conn in clients
      reads this, clients[conn].client, clients[conn].crypt, clients[conn].crypt.cipher,
            clients[conn].crypt.cipher.pArray, clients[conn].crypt.cipher.sBoxes
    {
      var c := clients[conn];
      && c.client.Rec() == Record(Connected, sessionId, key, k.rsa, "", 0, 0)
      && c.crypt.Valid() && !c.crypt.updatedKey && c.crypt.Key() == KeySchedule(tables, secretKey)
    }

    /** Forgets the client, and frees its account if it is still registered under this very session and not in a game. */
    method OnClose(conn: Conn)
      requires sessions.Valid() && serverList.Valid()
      modifies this`clients, sessions`Contents, sessions.shards, serverList
      ensures sessions.Valid() && serverList.Valid() && serverList.Active() == old(serverList.Active())
      ensures clients == old(clients) - {conn}
      ensures if conn in old(clients) then
                var (c, m) := (old(clients)[conn].client, old(sessions.Contents));
                && sessions.Contents == AfterClose(m, LoginOf(c))
                && if c.account != "" && c.account in m && m[c.account].sessionId == c.sessionId
                      && m[c.account].serverId == 0
                   then sessions.Contents == m - {c.account}
                        && serverList.charCounts == old(serverList.charCounts) - {c.account}
                   else sessions.Contents == m && serverList.charCounts == old(serverList.charCounts)
              else sessions.Contents == old(sessions.Contents) && serverList.charCounts == old(serverList.charCounts)
    {
      hide SessionRegistry.Valid, ServerList.Valid, ServerList.Active;
      if conn in clients {
        var cl := clients[conn].client;
        clients := clients - {conn};
        if cl.account != "" {
          var sess := sessions.GetInfo(cl.account);
          if sess.Some? && sess.value.sessionId == cl.sessionId {
            if sess.value.serverId == 0 {
              var _ := sessions.Unregister(cl.account, cl.sessionId);
              serverList.RemoveAccount(cl.account);
            }
          }
        }
      }
    }

    /** Closes one connection logged in under this name, if there is one, and forgets it at once. */
    method KickAccount(username: string) returns (closed: Option<Conn>)
      modifies this`clients
      ensures closed.None? <==> forall c :: c in old(clients) ==> old(clients)[c].client.account != username
      ensures closed.Some? ==> closed.value in old(clients) && old(clients)[closed.value].client.account == username
      ensures clients == match closed case None => old(clients) case Some(c) => old(clients) - {c}
    {
      var todo := clients.Keys;
      while todo != {}
        invariant todo <= clients.Keys && clients == old(clients)
        invariant forall c :: c in clients && c !in todo ==> clients[c].client.account != username
        decreases |todo|
      {
        var c :| c in todo;
        if clients[c].client.account == username {
          clients := clients - {c};
          return Some(c);
        }
        todo := todo - {c};
      }
      closed := None;
    }
  }

  // ---- Game servers ----

  /** A game server's connection; its id is zero until it has introduced itself. */
  class GameServer {
    var serverId: int32
  }

  class GameServerListener {
    const sessions: SessionRegistry
    const serverList: ServerList
    var servers: map<Conn, GameServer>

    constructor (sessions: SessionRegistry, serverList: ServerList)
      ensures this.sessions == sessions && this.serverList == serverList && servers == map[]
    {
      this.sessions, this.serverList, servers := sessions, serverList, map[];
    }

    /** Takes the server off the list and drops its players; nobody waiting in the lobby is touched. */
    method OnClose(conn: Conn)
      requires sessions.Valid() && serverList.Valid()
      modifies this`servers, sessions`Contents, sessions.shards, serverList.servers, serverList.active
      ensures sessions.Valid() && serverList.Valid() && servers == old(servers) - {conn}
      ensures if conn in old(servers) && old(servers)[conn].serverId != 0 then
                var id := old(servers)[conn].serverId;
                && serverList.Active() == old(serverList.Active()) - {id}
                && (forall name :: name in sessions.Contents <==>
                      name in old(sessions.Contents) && old(sessions.Contents)[name].serverId != id)
                && (forall name :: name in sessions.Contents ==>
                      sessions.Contents[name] == old(sessions.Contents)[name])
                && (forall name :: InLobby(old(sessions.Contents), name) ==> InLobby(sessions.Contents, name))
              else serverList.Active() == old(serverList.Active()) && sessions.Contents == old(sessions.Contents)
    {
      hide SessionRegistry.Valid;
      if conn in servers {
        var gsc := servers[conn];
        servers := servers - {conn};
        if gsc.serverId != 0 {
          serverList.Unregister(gsc.serverId);
          sessions.ClearServer(gsc.serverId);
        }
      }
    }
  }
}
