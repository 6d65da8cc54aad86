/** internal/packet/client/login.go, processLogin: one login worker run alone from decryption to commit. The database is an
    oracle; the steps other goroutines can interleave with are modelled in Protocol. */
module Login {
  import opened BanManagers
  import opened Credentials
  import opened Handlers
  import opened ScrambledKey
  import opened SessionRegistries
  import opened Wire
  import opened Words
  import opened Wrappers

  import Connections
  import Listeners

  datatype AuthError = InvalidPassword | AccountNotFound | AccountBanned | SystemError

  datatype AuthResult = Authenticated(row: Row) | Rejected(error: AuthError)

  /** What the outside world supplies: lower-casing of the decoded name, and the account database, whose answers may
      change over time. */
  datatype World = World(lower: seq<byte> -> string, authenticate: (string, seq<byte>, int) -> AuthResult)

  /** Whom a login displaces. */
  datatype Kick = NoKick | KickFromLogin(account: string) | KickFromGame(account: string, server: int32)

  /** getFailReasonFromError. */
  function FailReason(e: AuthError): byte {
    if e.InvalidPassword? then 0x02 else 0x01
  }

  function LoginFailure(reason: byte): Reply {
    Reply(0x01, [Byte(reason)], true)
  }

  function LoginOk(c: Record): Reply {
    Reply(0x03, [Int32(c.key.loginOk1), Int32(c.key.loginOk2), Int32(0), Int32(0), Int32(0x3ea), Int32(0), Int32(0),
                 Int32(0), Int32(0), Int32(0), Int32(0), Int32(0)], false)
  }

  function AuthFailure(e: AuthError): Reply {
    if e.AccountBanned? then Reply(0x02, [Byte(0x20)], true) else LoginFailure(FailReason(e))
  }

  function Displaced(m: Sessions, username: string): Kick {
    if username !in m then NoKick
    else if m[username].serverId == 0 then KickFromLogin(username)
    else KickFromGame(username, m[username].serverId)
  }

  /** The worker's clock readings: when it asks the database, records a failure, tries to register, and registers. */
  datatype Times = Times(asked: int, failed: int, tried: int, registered: int)

  /** Everything one worker does. */
  datatype LoginOutcome<A> = LoginOutcome(client: Record, sessions: Sessions, bans: BanState<A>, reply: Reply, kick: Kick)

  /** What becomes of a login the database accepts. */
  ghost function Entered<A>(c: Record, sessions: Sessions, bans: BanState<A>, ip: A, username: string, row: Row, t: Times)
    : LoginOutcome<A>
  {
    var verdict := Judge(sessions, username, t.tried);
    var tried := Tried(sessions, username, t.tried);
    if verdict.Held? || verdict.Stamped? then LoginOutcome(c, tried, bans, LoginFailure(0x07), NoKick)
    else
      LoginOutcome(AfterCommit(c, username, row), Registered(tried, username, c.sessionId, t.registered), Reset(bans, ip),
                   LoginOk(c), if verdict.Kicking? then Displaced(tried, username) else NoKick)
  }

  ghost function Processed<A>(world: World, p: Policy<A>, c: Record, sessions: Sessions, bans: BanState<A>, ip: A,
                              block1: seq<byte>, block2: Option<seq<byte>>, t: Times): LoginOutcome<A>
    requires Usable(c.rsa)
  {
    match Decoded(c.rsa, block1, block2)
    case Failure(_) => LoginOutcome(c, sessions, bans, LoginFailure(0x01), NoKick)
    case Success(pair) =>
      var username := world.lower(pair.username);
      match world.authenticate(username, pair.password, t.asked)
      case Rejected(e) => LoginOutcome(c, sessions, Failed(p, bans, ip, t.failed), AuthFailure(e), NoKick)
      case Authenticated(row) =>
        Entered(c, sessions, bans, ip, username, row, t)
  }

  /** Kicking from the login server forgets one client of that account, if there is any; nothing else forgets clients. */
  twostate predicate KickDone(kicker: Listeners.ClientListener, kick: Kick, new closed: Option<Connections.Conn>)
    reads kicker
  {
    match closed
    case None =>
      kicker.clients == old(kicker.clients)
      && (kick.KickFromLogin? ==>
            forall x :: x in old(kicker.clients) ==> old(kicker.clients[x].client.account) != kick.account)
    case Some(c) =>
      kick.KickFromLogin? && c in old(kicker.clients) && old(kicker.clients[c].client.account) == kick.account
      && kicker.clients == old(kicker.clients) - {c}
  }

  method ProcessLogin<A(==, !new)>(world: World, c: Client, sessions: SessionRegistry, bans: BanManager<A>, ip: A,
                                   block1: seq<byte>, block2: Option<seq<byte>>, t: Times,
                                   kicker: Listeners.ClientListener, s: RsaScratch)
    returns (reply: Reply, kick: Kick, closed: Option<Connections.Conn>)
    requires Usable(c.rsa) && sessions.Valid()
    modifies c, sessions`Contents, sessions.shards, bans, kicker`clients, s
    ensures sessions.Valid() && KickDone(kicker, kick, closed)
    ensures LoginOutcome(c.Rec(), sessions.Contents, bans.Value(), reply, kick)
            == Processed(world, bans.policy, old(c.Rec()), old(sessions.Contents), old(bans.Value()), ip, block1, block2, t)
  {
    hide Usable, Decoded, Failed, SessionRegistry.Valid, Entered;
    var decoded := DecodeCredentials(c.rsa, block1, block2, s);
    if decoded.Failure? {
      return LoginFailure(0x01), NoKick, None;
    }
    var username := world.lower(decoded.value.username);
    var account := world.authenticate(username, decoded.value.password, t.asked);
    if account.Rejected? {
      bans.RecordFailure(ip, t.failed);
      return AuthFailure(account.error), NoKick, None;
    }
    reply, kick, closed := Enter(c, sessions, bans, ip, username, account.row, t, kicker);
  }

  /** The worker from the registry on. */
  method Enter<A(==, !new)>(c: Client, sessions: SessionRegistry, bans: BanManager<A>, ip: A, username: string, row: Row,
                            t: Times, kicker: Listeners.ClientListener)
    returns (reply: Reply, kick: Kick, closed: Option<Connections.Conn>)
    requires sessions.Valid()
    modifies c, sessions`Contents, sessions.shards, bans, kicker`clients
    ensures sessions.Valid() && KickDone(kicker, kick, closed)
    ensures LoginOutcome(c.Rec(), sessions.Contents, bans.Value(), reply, kick)
            == Entered(old(c.Rec()), old(sessions.Contents), old(bans.Value()), ip, username, row, t)
  {
    hide Judge, Tried, SessionRegistry.Valid;
    kick, closed := NoKick, None;
    var kickOld, allow := sessions.TryRegister(username, t.tried);
    if !allow {
      return LoginFailure(0x07), NoKick, None;
    }
    if kickOld {
      kick, closed := KickOld(username, sessions, kicker);
    }
    bans.ResetAttempts(ip);
    sessions.Register(username, c.sessionId, t.registered);
    c.Commit(username, row);
    reply := LoginOk(c.Rec());
  }

  /** The holder of an account is closed here, or reported to the game server it is on. */
  method KickOld(username: string, sessions: SessionRegistry, kicker: Listeners.ClientListener)
    returns (kick: Kick, closed: Option<Connections.Conn>)
    requires sessions.Valid()
    modifies kicker`clients
    ensures kick == Displaced(sessions.Contents, username) && KickDone(kicker, kick, closed)
  {
    hide SessionRegistry.Valid;
    kick, closed := NoKick, None;
    var sess := sessions.GetInfo(username);
    if sess.Some? {
      if sess.value.serverId == 0 {
        kick := KickFromLogin(username);
        closed := kicker.KickAccount(username);
      } else {
        kick := KickFromGame(username, sess.value.serverId);
      }
    }
  }

  /** A login succeeds only with credentials the database accepts for the name decrypted from the client's own blocks;
      it leaves the client authenticated under exactly that name and id, registered as its holder, with its failures
      forgotten. A login that fails leaves the client as it was. */
  lemma LoginSound<A>(world: World, p: Policy<A>, c: Record, sessions: Sessions, bans: BanState<A>, ip: A,
                      block1: seq<byte>, block2: Option<seq<byte>>, t: Times)
    requires Usable(c.rsa)
    ensures var o := Processed(world, p, c, sessions, bans, ip, block1, block2, t);
            var d := Decoded(c.rsa, block1, block2);
            if o.reply.opcode == 0x03 then
              d.Success? && var name := world.lower(d.value.username);
              var a := world.authenticate(name, d.value.password, t.asked);
              a.Authenticated? && o.client == AfterCommit(c, name, a.row)
              && name in o.sessions && o.sessions[name] == Info(t.registered, None, c.sessionId, 0)
              && (forall k :: k != name ==> (k in o.sessions <==> k in sessions)
                                            && (k in sessions ==> o.sessions[k] == sessions[k]))
              && ip !in o.bans.attempts && o.bans.bans == bans.bans
              && (o.kick != NoKick ==> name in sessions)
            else o.client == c && o.kick == NoKick
  {
    hide Decoded, Usable, AfterCommit;
  }

  ghost predicate Encipherable(rsa: PrivateKey, m: seq<byte>) {
    Usable(rsa) && |m| == RSA_MODULUS_SIZE && FromBytes(m) < rsa.p * rsa.q
  }

  /** A client is logged in if and only if the database accepts exactly the name and password it wrote into its blocks and
      the registry admits that name; and then as that name, with the row the database gave. */
  lemma LoginAsWritten<A>(world: World, p: Policy<A>, c: Record, sessions: Sessions, bans: BanState<A>, ip: A,
                          m1: seq<byte>, m2: Option<seq<byte>>, w: Pair, t: Times)
    requires Encipherable(c.rsa, m1) && (m2.Some? ==> Encipherable(c.rsa, m2.value)) && Writes(m1, m2, w)
    ensures var name := world.lower(w.username);
            var a := world.authenticate(name, w.password, t.asked);
            var o := Processed(world, p, c, sessions, bans, ip, Enciphered(c.rsa, m1),
                               if m2.Some? then Some(Enciphered(c.rsa, m2.value)) else None, t);
            && (o.reply.opcode == 0x03 <==> a.Authenticated? && Outcome(Judge(sessions, name, t.tried)).1)
            && (o.reply.opcode == 0x03 ==> o.client == AfterCommit(c, name, a.row))
            && (a.Rejected? ==> o.bans == Failed(p, bans, ip, t.failed))
  {
    hide Decoded, Usable, Enciphered, Judge, Tried, Failed, Writes;
    CredentialsRecovered(c.rsa, m1, m2, w);
  }

  /** What a client is told, and who is displaced, in every case. A client that gets in reads its two login words first and
      0x3EA as the fifth of twelve; a banned account is told 0x20 under opcode 2; a wrong password is reason 2, an account in
      use reason 7, anything else reason 1; every refusal closes the connection. The old session is closed on this server
      unless it is in a game, in which case that game server is asked to. */
  lemma LoginAnswers<A>(world: World, p: Policy<A>, c: Record, sessions: Sessions, bans: BanState<A>, ip: A,
                        block1: seq<byte>, block2: Option<seq<byte>>, t: Times)
    requires Usable(c.rsa)
    ensures var (o, d) := (Processed(world, p, c, sessions, bans, ip, block1, block2, t), Decoded(c.rsa, block1, block2));
            if d.Failure? then o.reply == Reply(1, [Byte(1)], true) && o.kick == NoKick
            else
              var name := world.lower(d.value.username);
              match world.authenticate(name, d.value.password, t.asked)
              case Rejected(e) =>
                o.kick == NoKick && o.reply == (match e
                  case AccountBanned => Reply(2, [Byte(32)], true)
                  case InvalidPassword => Reply(1, [Byte(2)], true)
                  case _ => Reply(1, [Byte(1)], true))
              case Authenticated(_) =>
                var (kick, allow) := Outcome(Judge(sessions, name, t.tried));
                if !allow then o.reply == Reply(1, [Byte(7)], true) && o.kick == NoKick
                else o.reply == Reply(3, [Int32(c.key.loginOk1), Int32(c.key.loginOk2), Int32(0), Int32(0), Int32(1002),
                                          Int32(0), Int32(0), Int32(0), Int32(0), Int32(0), Int32(0), Int32(0)], false)
                     && o.kick == if !kick || name !in sessions then NoKick
                                  else if sessions[name].serverId == 0 then KickFromLogin(name)
                                  else KickFromGame(name, sessions[name].serverId)
  {
    hide Decoded, Usable, AfterCommit, Failed;
  }
}
