/** Whose connection keeps an account occupied: client connections opening, logging in, closing and being dropped
    (internal/listener/client_listener.go), the login workers (internal/packet/client/login.go), and the session registry
    under them.

    The registry frees an account in OnClose, so every lobby entry should have an open connection behind it. That is not a
    law of the code; what is proved is exactly which steps break it. */
module Connections {
  import opened SessionRegistries
  import opened Sharding
  import opened Words
  import opened Wrappers

  type Conn = nat
  type Worker = nat

  /** What OnClose looks at in a client. */
  datatype Login = Login(sessionId: int32, account: string)

  /** OnClose frees an account that is still registered under the closing client's own session id and not in a game. */
  predicate Frees(m: Sessions, l: Login) {
    l.account != "" && Matches(m, l.account, l.sessionId) && m[l.account].serverId == 0
  }

  function AfterClose(m: Sessions, l: Login): Sessions {
    if Frees(m, l) then m - {l.account} else m
  }

  // ---- The system ----

  /** logins: every client ever connected; open: the keys of the listener's clients map; working: the workers that have
      registered a name for a client and not yet committed it. */
  datatype Lobby = Lobby(logins: map<Conn, Login>, open: set<Conn>, working: map<Worker, (Conn, string)>,
                         sessions: Sessions)

  datatype Event =
    | Opening(conn: Conn, sessionId: int32)                           // OnOpen lets a connection in
    | Trying(name: string, now: int)                                  // TryRegister
    | Registering(worker: Worker, conn: Conn, name: string, now: int) // Register
    | Committing(worker: Worker)                                      // the identity commit
    | Closing(conn: Conn)                                             // OnClose
    | Dropping(conn: Conn)                     // KickAccount or OnTick forgets the client before OnClose
    | Entering(name: string, server: int32)                           // SetGS
    | Leaving(name: string, id: int32)                                // Unregister, on a game server's report
    | ServerClosing(server: int32)                                    // ClearServer

  const EMPTY := Lobby(map[], {}, map[], map[])

  ghost function Next(s: Lobby, e: Event): Lobby {
    match e
    case Opening(c, id) =>
      if c in s.logins then s else s.(logins := s.logins[c := Login(id, "")], open := s.open + {c})
    case Trying(name, now) => s.(sessions := Tried(s.sessions, name, now))
    case Registering(w, c, name, now) =>
      if w in s.working || c !in s.logins then s
      else s.(working := s.working[w := (c, name)],
              sessions := Registered(s.sessions, name, s.logins[c].sessionId, now))
    case Committing(w) =>
      if w !in s.working || s.working[w].0 !in s.logins then s
      else
        var (c, name) := s.working[w];
        s.(working := s.working - {w}, logins := s.logins[c := s.logins[c].(account := name)])
    case Closing(c) =>
      if c !in s.open || c !in s.logins then s
      else s.(open := s.open - {c}, sessions := AfterClose(s.sessions, s.logins[c]))
    case Dropping(c) => s.(open := s.open - {c})
    case Entering(name, server) => s.(sessions := Moved(s.sessions, name, server))
    case Leaving(name, id) => s.(sessions := Unregistered(s.sessions, name, id))
    case ServerClosing(server) => s.(sessions := Kept(s.sessions, OnServer(server)))
  }

  /** The state after the first n events of a run. */
  ghost function At(es: seq<Event>, n: nat): Lobby
    requires n <= |es|
  {
    if n == 0 then EMPTY else Next(At(es, n - 1), es[n - 1])
  }

  // ---- Owned entries ----

  /** A logged-in account that is not in a game; an entry under -1 is a placeholder and lapses by itself. */
  predicate InLobby(m: Sessions, name: string) {
    name in m && m[name].sessionId != -1 && m[name].serverId == 0
  }

  ghost predicate HasWorker(s: Lobby, c: Conn, name: string, but: set<Worker>) {
    exists w :: w in s.working.Keys - but && s.working[w] == (c, name)
  }

  /** The client is logged in under this name and id, or a worker of it is about to see to that. */
  ghost predicate Claims(s: Lobby, c: Conn, l: Login) {
    c in s.logins && s.logins[c].sessionId == l.sessionId
    && (s.logins[c].account == l.account || HasWorker(s, c, l.account, {}))
  }

  /** Some open connection other than `but` is behind this entry. */
  ghost predicate HeldBy(s: Lobby, l: Login, but: set<Conn>) {
    l.account != "" && exists c :: c in s.open - but && Claims(s, c, l)
  }

  function EntryOf(m: Sessions, name: string): Login
    requires name in m
  {
    Login(m[name].sessionId, name)
  }

  ghost predicate OwnedName(s: Lobby, name: string) {
    InLobby(s.sessions, name) ==> HeldBy(s, EntryOf(s.sessions, name), {})
  }

  ghost predicate Owned(s: Lobby) {
    forall name :: OwnedName(s, name)
  }

  /** This connection, and no other open one, is behind the lobby entry of this name. */
  ghost predicate Alone(s: Lobby, c: Conn, name: string) {
    InLobby(s.sessions, name) && name != "" && c in s.open && Claims(s, c, EntryOf(s.sessions, name))
    && !HeldBy(s, EntryOf(s.sessions, name), {c})
  }

  /** The steps that keep every lobby entry owned, by what can be checked before they are taken. */
  ghost predicate Safe(s: Lobby, e: Event) {
    match e
    case Registering(w, c, name, _) =>
      // not under an empty name, and not after the client's connection is gone
      w in s.working || c !in s.logins || s.logins[c].sessionId == -1
      || (name != "" && (c in s.open || HeldBy(s, Login(s.logins[c].sessionId, name), {c})))
    case Committing(w) =>
      // not away from an account the client holds alone under another name
      w !in s.working || s.working[w].0 !in s.logins
      || (var (c, name) := s.working[w];
          s.logins[c].account == name || HasWorker(s, c, s.logins[c].account, {w}) || !Alone(s, c, s.logins[c].account))
    case Closing(c) =>
      // not between Register and the commit of a name the client alone stands behind
      c !in s.logins
      || forall w :: w in s.working && s.working[w].0 == c ==>
           s.working[w].1 == s.logins[c].account || !Alone(s, c, s.working[w].1)
    case Dropping(c) =>
      // not a client that alone stands behind any name
      c !in s.logins
      || (!Alone(s, c, s.logins[c].account)
          && forall w :: w in s.working && s.working[w].0 == c ==> !Alone(s, c, s.working[w].1))
    case Entering(name, server) =>
      // a game server without an id does not pull a session back whose connection is gone
      server != 0 || name !in s.sessions || s.sessions[name].sessionId == -1 || HeldBy(s, EntryOf(s.sessions, name), {})
    case _ => true
  }

  // ---- One connection singled out ----

  lemma HeldSplit(s: Lobby, l: Login, c: Conn)
    ensures HeldBy(s, l, {}) <==> HeldBy(s, l, {c}) || (l.account != "" && c in s.open && Claims(s, c, l))
  {
    hide Claims;
  }

  /** The two states differ at most in connection c and its workers. */
  ghost predicate SameElsewhere(s: Lobby, t: Lobby, c: Conn) {
    && (forall d :: d != c ==> (d in s.open <==> d in t.open) && (d in s.logins <==> d in t.logins))
    && (forall d :: d != c && d in s.logins ==> s.logins[d] == t.logins[d])
    && (forall w, d: Conn, x: string :: d != c ==>
          (w in s.working && s.working[w] == (d, x) <==> w in t.working && t.working[w] == (d, x)))
  }

  lemma ClaimsElsewhere(s: Lobby, t: Lobby, c: Conn, d: Conn, l: Login)
    requires SameElsewhere(s, t, c) && d != c
    ensures Claims(s, d, l) == Claims(t, d, l)
  {
    if w :| w in s.working && s.working[w] == (d, l.account) {
      assert w in t.working && t.working[w] == (d, l.account);
    }
    if w :| w in t.working && t.working[w] == (d, l.account) {
      assert w in s.working && s.working[w] == (d, l.account);
    }
  }

  lemma HeldElsewhere(s: Lobby, t: Lobby, c: Conn, l: Login)
    requires SameElsewhere(s, t, c)
    ensures HeldBy(s, l, {c}) == HeldBy(t, l, {c})
  {
    forall d | d != c
      ensures Claims(s, d, l) == Claims(t, d, l)
    {
      ClaimsElsewhere(s, t, c, d, l);
    }
    hide Claims;
  }

  /** A step on the sessions alone. */
  lemma HeldSame(s: Lobby, t: Lobby, l: Login)
    requires s.logins == t.logins && s.open == t.open && s.working == t.working
    ensures HeldBy(s, l, {}) == HeldBy(t, l, {})
  {
  }

  // ---- Step by step ----

  /** What Register adds to a client's claims. */
  lemma RegisterClaims(s: Lobby, w: Worker, c: Conn, name: string, now: int, l: Login)
    requires w !in s.working && c in s.logins
    ensures var t := Next(s, Registering(w, c, name, now));
            && SameElsewhere(s, t, c) && (Claims(s, c, l) ==> Claims(t, c, l))
            && Claims(t, c, Login(s.logins[c].sessionId, name))
  {
    var t := Next(s, Registering(w, c, name, now));
    assert t.working[w] == (c, name);
    if x :| x in s.working && s.working[x] == (c, l.account) {
      assert x in t.working && t.working[x] == (c, l.account);
    }
  }

  lemma RegisterExact(s: Lobby, w: Worker, c: Conn, name: string, now: int)
    requires Owned(s)
    ensures Owned(Next(s, Registering(w, c, name, now))) <==> Safe(s, Registering(w, c, name, now))
  {
    hide HeldBy, Claims, SameElsewhere;
    if w !in s.working && c in s.logins {
      var t := Next(s, Registering(w, c, name, now));
      forall x | x != name
        ensures OwnedName(t, x)
      {
        assert OwnedName(s, x);
        if InLobby(t.sessions, x) {
          var l := EntryOf(s.sessions, x);
          RegisterClaims(s, w, c, name, now, l);
          HeldElsewhere(s, t, c, l);
          HeldSplit(s, l, c);
          HeldSplit(t, l, c);
        }
      }
      var l := Login(s.logins[c].sessionId, name);
      RegisterClaims(s, w, c, name, now, l);
      HeldElsewhere(s, t, c, l);
      HeldSplit(t, l, c);
      HeldNamed(s, l, {c});
      assert t.sessions[name] == Info(now, None, l.sessionId, 0);
      assert OwnedName(t, name) <==> Safe(s, Registering(w, c, name, now));
    }
  }

  lemma HeldNamed(s: Lobby, l: Login, but: set<Conn>)
    ensures HeldBy(s, l, but) ==> l.account != ""
  {
  }

  /** What the commit does to a client's claims: only the old account may go. */
  lemma CommitClaims(s: Lobby, w: Worker, l: Login)
    requires w in s.working && s.working[w].0 in s.logins
    ensures var (t, c) := (Next(s, Committing(w)), s.working[w].0);
            && SameElsewhere(s, t, c)
            && (Claims(t, c, l) <==>
                Claims(s, c, l) && (l.account == s.working[w].1 || l.account != s.logins[c].account
                                    || HasWorker(s, c, l.account, {w})))
  {
    var (t, c) := (Next(s, Committing(w)), s.working[w].0);
    assert w in s.working.Keys - {} && s.working[w] == (c, s.working[w].1);
    if x :| x in s.working.Keys - {w} && s.working[x] == (c, l.account) {
      assert x in t.working.Keys - {} && t.working[x] == (c, l.account) && x in s.working.Keys - {};
    }
    if x :| x in t.working.Keys - {} && t.working[x] == (c, l.account) {
      assert x in s.working.Keys - {w} && s.working[x] == (c, l.account) && x in s.working.Keys - {};
    }
    if x :| x in s.working.Keys - {} && s.working[x] == (c, l.account) {
      assert x == w || (x in s.working.Keys - {w} && x in t.working.Keys - {});
    }
  }

  lemma CommitExact(s: Lobby, w: Worker)
    requires Owned(s)
    ensures Owned(Next(s, Committing(w))) <==> Safe(s, Committing(w))
  {
    hide HeldBy, Claims, SameElsewhere, HasWorker;
    if w in s.working && s.working[w].0 in s.logins {
      var (t, c, name) := (Next(s, Committing(w)), s.working[w].0, s.working[w].1);
      var account := s.logins[c].account;
      forall x
        ensures OwnedName(t, x) <==>
                x != account || account == name || HasWorker(s, c, account, {w}) || !Alone(s, c, account)
      {
        assert OwnedName(s, x);
        if InLobby(s.sessions, x) {
          var l := EntryOf(s.sessions, x);
          CommitClaims(s, w, l);
          HeldElsewhere(s, t, c, l);
          HeldSplit(s, l, c);
          HeldSplit(t, l, c);
          HeldNamed(s, l, {});
        }
      }
      assert OwnedName(t, account) <==> Safe(s, Committing(w));
    }
  }

  /** With a connection gone, an entry is held if another one is behind it. */
  lemma GoneHeld(s: Lobby, t: Lobby, c: Conn, l: Login)
    requires t.open == s.open - {c} && t.logins == s.logins && t.working == s.working
    ensures HeldBy(t, l, {}) == HeldBy(s, l, {c})
  {
    hide Claims;
    forall d
      ensures Claims(s, d, l) == Claims(t, d, l)
    {
      SameClaims(s, t, d, l);
    }
    assert t.open - {} == s.open - {c};
  }

  lemma SameClaims(s: Lobby, t: Lobby, d: Conn, l: Login)
    requires t.logins == s.logins && t.working == s.working
    ensures Claims(s, d, l) == Claims(t, d, l)
  {
  }

  /** The names a connection can be behind. */
  lemma AloneNames(s: Lobby, c: Conn, name: string)
    requires Alone(s, c, name)
    ensures c in s.logins && c in s.open
    ensures name == s.logins[c].account || exists w :: w in s.working && s.working[w] == (c, name)
  {
    hide HeldBy;
  }

  lemma DropExact(s: Lobby, c: Conn)
    requires Owned(s)
    ensures Owned(Next(s, Dropping(c))) <==> Safe(s, Dropping(c))
  {
    hide HeldBy, Claims;
    var t := Next(s, Dropping(c));
    forall x
      ensures OwnedName(t, x) <==> !Alone(s, c, x)
    {
      assert OwnedName(s, x);
      if InLobby(s.sessions, x) {
        GoneHeld(s, t, c, EntryOf(s.sessions, x));
        HeldSplit(s, EntryOf(s.sessions, x), c);
        HeldNamed(s, EntryOf(s.sessions, x), {});
      }
    }
    if x :| Alone(s, c, x) {
      AloneNames(s, c, x);
    }
  }

  lemma CloseExact(s: Lobby, c: Conn)
    requires Owned(s)
    ensures Owned(Next(s, Closing(c))) <==> Safe(s, Closing(c))
  {
    hide HeldBy, Claims;
    if c in s.open && c in s.logins {
      var t := Next(s, Closing(c));
      forall x
        ensures OwnedName(t, x) <==> x == s.logins[c].account || !Alone(s, c, x)
      {
        assert OwnedName(s, x);
        if InLobby(s.sessions, x) {
          GoneHeld(s, t, c, EntryOf(s.sessions, x));
          HeldSplit(s, EntryOf(s.sessions, x), c);
          HeldNamed(s, EntryOf(s.sessions, x), {});
          if x == s.logins[c].account && x != "" {
            ClaimFrees(s, c, x);
          }
        }
      }
      if x :| x != s.logins[c].account && Alone(s, c, x) {
        AloneNames(s, c, x);
      }
    }
  }

  /** OnClose frees what its client is committed to. */
  lemma ClaimFrees(s: Lobby, c: Conn, name: string)
    requires c in s.logins && InLobby(s.sessions, name) && name != "" && name == s.logins[c].account
    ensures Claims(s, c, EntryOf(s.sessions, name)) <==> Frees(s.sessions, s.logins[c])
  {
  }

  lemma OpenKeeps(s: Lobby, c: Conn, id: int32)
    requires Owned(s)
    ensures Owned(Next(s, Opening(c, id)))
  {
    hide HeldBy, Claims, SameElsewhere;
    var t := Next(s, Opening(c, id));
    if c !in s.logins {
      OpenElsewhere(s, c, id);
      forall x
        ensures OwnedName(t, x)
      {
        assert OwnedName(s, x);
        if InLobby(s.sessions, x) {
          var l := EntryOf(s.sessions, x);
          NoClaim(s, c, l);
          HeldElsewhere(s, t, c, l);
          HeldSplit(s, l, c);
          HeldSplit(t, l, c);
        }
      }
    }
  }

  lemma OpenElsewhere(s: Lobby, c: Conn, id: int32)
    ensures SameElsewhere(s, Next(s, Opening(c, id)), c)
  {
  }

  lemma NoClaim(s: Lobby, c: Conn, l: Login)
    requires c !in s.logins
    ensures !Claims(s, c, l)
  {
  }

  /** A step on the sessions alone, when it makes no entry a lobby entry that was none. */
  lemma SessionsShrink(s: Lobby, t: Lobby)
    requires Owned(s) && s.logins == t.logins && s.open == t.open && s.working == t.working
    requires forall name :: InLobby(t.sessions, name) ==>
               InLobby(s.sessions, name) && s.sessions[name].sessionId == t.sessions[name].sessionId
    ensures Owned(t)
  {
    hide HeldBy;
    forall x
      ensures OwnedName(t, x)
    {
      assert OwnedName(s, x);
      if InLobby(t.sessions, x) {
        HeldSame(s, t, EntryOf(t.sessions, x));
      }
    }
  }

  lemma EnterExact(s: Lobby, name: string, server: int32)
    requires Owned(s)
    ensures Owned(Next(s, Entering(name, server))) <==> Safe(s, Entering(name, server))
  {
    hide HeldBy;
    var t := Next(s, Entering(name, server));
    forall x
      ensures OwnedName(t, x) <==> x != name || Safe(s, Entering(name, server))
    {
      assert OwnedName(s, x);
      if InLobby(t.sessions, x) {
        HeldSame(s, t, EntryOf(t.sessions, x));
      }
    }
    assert OwnedName(t, name) <==> Safe(s, Entering(name, server));
  }

  /** Each kind of step keeps every lobby entry owned if and only if it is a safe one. */
  lemma StepExact(s: Lobby, e: Event)
    requires Owned(s)
    ensures Owned(Next(s, e)) <==> Safe(s, e)
  {
    hide HeldBy, Alone, Owned, HasWorker;
    match e
    case Opening(c, id) => OpenKeeps(s, c, id);
    case Registering(w, c, name, now) => RegisterExact(s, w, c, name, now);
    case Committing(w) => CommitExact(s, w);
    case Closing(c) => CloseExact(s, c);
    case Dropping(c) => DropExact(s, c);
    case Entering(name, server) => EnterExact(s, name, server);
    case _ => SessionsShrink(s, Next(s, e));
  }

  /** The entries stay owned throughout a run exactly when every step of it is safe where it is taken. */
  lemma {:induction false} OwnedThroughout(es: seq<Event>, m: nat)
    requires m <= |es|
    ensures (forall n :: 0 <= n <= m ==> Owned(At(es, n))) <==> (forall n :: 0 <= n < m ==> Safe(At(es, n), es[n]))
  {
    hide Owned, Safe, Next;
    if m == 0 {
      NothingOwned(es);
    } else {
      OwnedThroughout(es, m - 1);
      assert At(es, m) == Next(At(es, m - 1), es[m - 1]);
      assert (forall n :: 0 <= n <= m ==> Owned(At(es, n)))
             <==> (forall n :: 0 <= n <= m - 1 ==> Owned(At(es, n))) && Owned(At(es, m));
      if Owned(At(es, m - 1)) {
        StepExact(At(es, m - 1), es[m - 1]);
      }
    }
  }

  lemma NothingOwned(es: seq<Event>)
    ensures Owned(At(es, 0))
  {
  }

  /** Once every connection is gone, an owned registry holds only placeholders and players in a game. */
  lemma AllGone(s: Lobby, name: string)
    requires Owned(s) && s.open == {} && name in s.sessions
    ensures s.sessions[name].sessionId == -1 || s.sessions[name].serverId != 0
  {
    assert OwnedName(s, name);
  }

  // ---- The unsafe steps do happen ----

  /** A login of client 1 as "a", with one step in between and one after it. */
  ghost function LoginRun(between: Event, after: Event): (es: seq<Event>)
    ensures |es| == 6
  {
    [Opening(1, 7), Registering(0, 1, "a", 0), between, Committing(0), after, Closing(1)]
  }

  lemma FollowedBy(es: seq<Event>, n: nat)
    requires n < |es|
    ensures At(es, n + 1) == Next(At(es, n), es[n])
  {
  }

  lemma LoginStart(between: Event, after: Event)
    ensures At(LoginRun(between, after), 2)
            == Lobby(map[1 := Login(7, "")], {1}, map[0 := (1, "a")], map["a" := Info(0, None, 7, 0)])
  {
    var es := LoginRun(between, after);
    assert At(es, 0) == EMPTY;
    assert At(es, 1) == Lobby(map[1 := Login(7, "")], {1}, map[], map[]);
  }

  /** Kick a client, let its connection close, and its account stays occupied with nobody connected. */
  lemma KickedEntryOutlives()
    ensures var s := At(LoginRun(ServerClosing(1), Dropping(1)), 6); s.open == {} && InLobby(s.sessions, "a")
  {
    hide Tried, Moved, Unregistered, At;
    var es := LoginRun(ServerClosing(1), Dropping(1));
    var m: Sessions := map["a" := Info(0, None, 7, 0)];
    LoginStart(ServerClosing(1), Dropping(1));
    FollowedBy(es, 2);
    FollowedBy(es, 3);
    assert At(es, 3) == At(es, 2);
    assert At(es, 4) == Lobby(map[1 := Login(7, "a")], {1}, map[], m);
    FollowedBy(es, 4);
    assert At(es, 5) == Lobby(map[1 := Login(7, "a")], {}, map[], m);
    FollowedBy(es, 5);
  }

  /** The same after a close between Register and the commit. */
  lemma ClosedBetweenOutlives()
    ensures var s := At(LoginRun(Closing(1), ServerClosing(1)), 6); s.open == {} && InLobby(s.sessions, "a")
  {
    hide Tried, Moved, Unregistered, At;
    var es := LoginRun(Closing(1), ServerClosing(1));
    var m: Sessions := map["a" := Info(0, None, 7, 0)];
    LoginStart(Closing(1), ServerClosing(1));
    FollowedBy(es, 2);
    assert At(es, 3) == Lobby(map[1 := Login(7, "")], {}, map[0 := (1, "a")], m);
    FollowedBy(es, 3);
    assert At(es, 4) == Lobby(map[1 := Login(7, "a")], {}, map[], m);
    FollowedBy(es, 4);
    assert At(es, 5) == At(es, 4);
    FollowedBy(es, 5);
  }

  // ---- What closing does not touch ----

  /** A player in a game stays there whatever happens to connections: only being registered anew, moved, logged out by a
      game server or the end of that server ends it. */
  lemma {:induction false} PlayerOutlives(es: seq<Event>, n: nat, m: nat, name: string)
    requires n <= m <= |es| && name in At(es, n).sessions && At(es, n).sessions[name].serverId != 0
    requires forall k :: n <= k < m ==>
               !(es[k].Registering? && es[k].name == name) && !(es[k].Entering? && es[k].name == name)
               && !(es[k].Leaving? && es[k].name == name)
               && !(es[k].ServerClosing? && es[k].server == At(es, n).sessions[name].serverId)
    ensures name in At(es, m).sessions
            && At(es, m).sessions[name].serverId == At(es, n).sessions[name].serverId
            && At(es, m).sessions[name].sessionId == At(es, n).sessions[name].sessionId
    decreases m
  {
    if m > n {
      PlayerOutlives(es, n, m - 1, name);
      PlayerStays(At(es, m - 1), es[m - 1], name);
    }
  }

  lemma PlayerStays(s: Lobby, e: Event, name: string)
    requires name in s.sessions && s.sessions[name].serverId != 0
    requires !(e.Registering? && e.name == name) && !(e.Entering? && e.name == name) && !(e.Leaving? && e.name == name)
             && !(e.ServerClosing? && e.server == s.sessions[name].serverId)
    ensures var t := Next(s, e).sessions;
            name in t && t[name].serverId == s.sessions[name].serverId && t[name].sessionId == s.sessions[name].sessionId
  {
  }

  /** A closing connection frees exactly the account its client is logged in to, if that is still registered under its own
      session id and not in a game. */
  lemma ClosingFrees(s: Lobby, c: Conn, name: string)
    requires name in s.sessions
    ensures name !in Next(s, Closing(c)).sessions <==>
            c in s.open && c in s.logins && name != "" && s.logins[c] == Login(s.sessions[name].sessionId, name)
            && s.sessions[name].serverId == 0
  {
  }
}
