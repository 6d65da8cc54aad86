/** internal/packet/gs/player_status.go: a game server reports which accounts entered or left the game. */
module PlayerStatus {
  import opened PacketReaders
  import opened SessionRegistries
  import opened Wire
  import opened Words
  import opened Wrappers

  const MAX_PLAYER_SYNC_BATCH := 256

  /** The strings that n reads take from the front of b, and whether all n succeeded. */
  function ReadNames(b: seq<byte>, n: nat): (r: (seq<string>, bool)) {
    if n == 0 then ([], true)
    else
      match TakeString(b)
      case Malformed(_) => ([], false)
      case Took(s, used) =>
        var (names, ok) := ReadNames(b[used..], n - 1);
        ([s] + names, ok)
  }

  function MovedAll(m: Sessions, names: seq<string>, server: int32): Sessions {
    if names == [] then m else MovedAll(Moved(m, names[0], server), names[1..], server)
  }

  /** Moving a batch changes the server of the named accounts that have an entry, and nothing else. */
  lemma {:induction false} MovedAllMeaning(m: Sessions, names: seq<string>, server: int32)
    ensures var r := MovedAll(m, names, server);
            r.Keys == m.Keys && forall k :: k in m ==> r[k] == if k in names then m[k].(serverId := server) else m[k]
  {
    if names != [] {
      MovedAllMeaning(Moved(m, names[0], server), names[1..], server);
    }
  }

  /** What a batch packet with body b does to the sessions, and whether the handler reports success. */
  function BatchEffect(m: Sessions, b: seq<byte>, server: int32): (Sessions, bool) {
    match TakeU16(b)
    case Malformed(_) => (m, false)
    case Took(u, used) =>
      var size: int := ToI16(u);
      if size < 0 || size > MAX_PLAYER_SYNC_BATCH then (m, false)
      else
        var (names, ok) := ReadNames(b[used..], size);
        (MovedAll(m, names, server), ok)
  }

  method HandlePlayerInGame(serverId: int32, r: PacketReader, sessions: SessionRegistry) returns (res: Result<()>)
    requires r.Valid() && sessions.Valid()
    modifies r`pos, sessions`Contents, sessions.shards
    ensures r.Valid() && sessions.Valid()
    ensures (sessions.Contents, res.Success?) == BatchEffect(old(sessions.Contents), old(r.Remainder()), serverId)
  {
    hide TakeString, Moved, SessionRegistry.Valid;
    var size :- r.ReadInt16();
    if size < 0 || size > MAX_PLAYER_SYNC_BATCH {
      return Failure("player sync batch size exceeds maximum allowed limit");
    }
    ghost var (m, b) := (sessions.Contents, r.Remainder());
    assert b == old(r.Remainder())[2..];
    ghost var seen: seq<string> := [];
    var count: int := size;
    for i := 0 to count
      invariant r.Valid() && sessions.Valid()
      invariant (MovedAll(m, ReadNames(b, count).0, serverId), ReadNames(b, count).1)
                == (MovedAll(sessions.Contents, ReadNames(r.Remainder(), count - i).0, serverId),
                    ReadNames(r.Remainder(), count - i).1)
    {
      ghost var before := r.Remainder();
      var account :- r.ReadString();
      assert r.Remainder() == before[TakeString(before).Used()..];
      sessions.SetGS(account, serverId);
    }
    res := Success(());
  }

  /** A batch written by a game server moves exactly the accounts it names. */
  lemma BatchApplied(m: Sessions, names: seq<string>, server: int32)
    requires |names| <= 256 && forall i :: 0 <= i < |names| ==> '\0' !in names[i]
    ensures BatchEffect(m, FieldBytes(Int16(|names|)) + NamesBytes(names), server) == (MovedAll(m, names, server), true)
  {
    hide MovedAll, ReadNames, NamesBytes, Le16, TakeU16;
    TakeLe16(ToU16(|names|), NamesBytes(names));
    NamesRead(names);
  }

  /** A batch that announces a negative size or more than 256 names is refused before any name is read. */
  lemma BatchRefused(m: Sessions, size: int16, rest: seq<byte>, server: int32)
    requires size < 0 || size > 256
    ensures BatchEffect(m, FieldBytes(Int16(size)) + rest, server) == (m, false)
  {
    hide Le16, TakeU16, ReadNames;
    TakeLe16(ToU16(size), rest);
    TwosComplement(size, 0, 0);
  }

  /** A batch that breaks off moves the accounts that were whole, and is then refused. */
  lemma BatchBroken(m: Sessions, size: int16, names: seq<string>, rest: seq<byte>, server: int32)
    requires |names| < size <= 256 && (forall i :: 0 <= i < |names| ==> '\0' !in names[i]) && TakeString(rest).Malformed?
    ensures BatchEffect(m, FieldBytes(Int16(size)) + (NamesBytes(names) + rest), server) == (MovedAll(m, names, server), false)
  {
    hide MovedAll, ReadNames, NamesBytes, Le16, TakeU16, TakeString;
    TakeLe16(ToU16(size), NamesBytes(names) + rest);
    TwosComplement(size, 0, 0);
    BrokenRead(names, rest, size);
  }

  lemma {:induction false} BrokenRead(names: seq<string>, rest: seq<byte>, n: nat)
    requires |names| < n && (forall i :: 0 <= i < |names| ==> '\0' !in names[i]) && TakeString(rest).Malformed?
    ensures ReadNames(NamesBytes(names) + rest, n) == (names, false)
    decreases |names|
  {
    hide TakeString, StringBytes;
    if names == [] {
      assert NamesBytes(names) + rest == rest;
    } else {
      var tail := NamesBytes(names[1..]) + rest;
      StringRoundTrip(names[0], tail);
      assert NamesBytes(names) + rest == StringBytes(names[0]) + tail;
      assert (StringBytes(names[0]) + tail)[|StringBytes(names[0])|..] == tail;
      BrokenRead(names[1..], rest, n - 1);
      assert [names[0]] + names[1..] == names;
    }
  }

  function NamesBytes(names: seq<string>): seq<byte> {
    if names == [] then [] else StringBytes(names[0]) + NamesBytes(names[1..])
  }

  lemma {:induction false} NamesRead(names: seq<string>)
    requires forall i :: 0 <= i < |names| ==> '\0' !in names[i]
    ensures ReadNames(NamesBytes(names), |names|) == (names, true)
  {
    if names != [] {
      hide TakeString, StringBytes;
      var rest := NamesBytes(names[1..]);
      StringRoundTrip(names[0], rest);
      assert (StringBytes(names[0]) + rest)[|StringBytes(names[0])|..] == rest;
      NamesRead(names[1..]);
      assert [names[0]] + names[1..] == names;
    }
  }

  // ---- Logging out ----

  /** What the first of the handler's two locked sections finds: the session to remove, if it is on the reporting server. */
  function LogoutTarget(m: Sessions, account: string, server: int32): Option<int32> {
    if account in m && m[account].serverId == server then Some(m[account].sessionId) else None
  }

  /** The handler up to its second locked section, which is Unregister. */
  method FindLogout(serverId: int32, r: PacketReader, sessions: SessionRegistry)
    returns (res: Result<string>, target: Option<int32>)
    requires r.Valid() && sessions.Valid()
    modifies r`pos
    ensures r.Valid() && sessions.Valid() && res == TakeString(old(r.Remainder())).Value()
    ensures target == if res.Success? then LogoutTarget(sessions.Contents, res.value, serverId) else None
  {
    hide TakeString, SessionRegistry.Valid;
    target := None;
    res := r.ReadString();
    if res.Success? {
      var sess := sessions.GetInfo(res.value);
      if sess.Some? && sess.value.serverId == serverId {
        target := Some(sess.value.sessionId);
      }
    }
  }

  /** With nobody in between, a logout removes the account if it is on the reporting server, and is ignored otherwise. */
  method HandlePlayerLogout(serverId: int32, r: PacketReader, sessions: SessionRegistry) returns (res: Result<()>)
    requires r.Valid() && sessions.Valid()
    modifies r`pos, sessions`Contents, sessions.shards
    ensures r.Valid() && sessions.Valid()
    ensures var t := TakeString(old(r.Remainder()));
            res.Success? == t.Took? && sessions.Contents ==
            if t.Took? && t.value in old(sessions.Contents) && old(sessions.Contents)[t.value].serverId == serverId
            then old(sessions.Contents) - {t.value} else old(sessions.Contents)
  {
    hide TakeString, SessionRegistry.Valid;
    var account, target := FindLogout(serverId, r, sessions);
    if account.Failure? {
      return Failure(account.error);
    }
    if target.Some? {
      var _ := sessions.Unregister(account.value, target.value);
    }
    res := Success(());
  }

  /** The sessions after n of the events that come between the two sections. */
  ghost function Between(m: Sessions, es: seq<Event>, n: nat): Sessions
    requires n <= |es|
  {
    if n == 0 then m else Step(Between(m, es, n - 1), es[n - 1])
  }

  /** Under which session id and on which server an account is. */
  function Seat(m: Sessions, name: string): Option<(int32, int32)> {
    if name in m then Some((m[name].sessionId, m[name].serverId)) else None
  }

  /** An event that leaves the account under this session id, but on another server: a SetGS, or being registered anew under
      the same id. */
  predicate PutsElsewhere(m: Sessions, e: Event, name: string, id: int32, server: int32) {
    || (e.SetGS? && e.name == name && e.server != server && name in m && m[name].sessionId == id)
    || (e.Register? && e.name == name && e.id == id && server != 0)
    || (e.Try? && e.name == name && name !in m && id == -1 && server != 0)
  }

  /** Event k moves the account away, and none after it changes where it is. */
  ghost predicate MovedAway(m: Sessions, es: seq<Event>, n: nat, k: nat, name: string, id: int32, server: int32)
    requires n <= |es|
  {
    k < n && PutsElsewhere(Between(m, es, k), es[k], name, id, server)
    && forall j :: k < j < n ==> Seat(Between(m, es, j + 1), name) == Seat(Between(m, es, j), name)
  }

  /** What one event does to a seat that ends under `id` on some server but `server`. */
  lemma SeatStep(m: Sessions, e: Event, name: string, id: int32, server: int32)
    ensures var (a, b) := (Seat(m, name), Seat(Step(m, e), name));
            && (PutsElsewhere(m, e, name, id, server) ==> b.Some? && b.value.0 == id && b.value.1 != server)
            && (a != b && b.Some? && b.value.0 == id && b.value.1 != server ==> PutsElsewhere(m, e, name, id, server))
  {
  }

  lemma {:induction false} SeatedElsewhere(m: Sessions, es: seq<Event>, n: nat, name: string, id: int32, server: int32)
    requires n <= |es| && Seat(m, name) == Some((id, server))
    ensures var s := Seat(Between(m, es, n), name);
            s.Some? && s.value.0 == id && s.value.1 != server
            <==> exists k :: MovedAway(m, es, n, k, name, id, server)
  {
    hide Seat, PutsElsewhere;
    if n > 0 {
      var p: nat := n - 1;
      SeatedElsewhere(m, es, p, name, id, server);
      SeatStep(Between(m, es, p), es[p], name, id, server);
      MovedStep(m, es, n, name, id, server);
    }
  }

  /** One event more: the last move is the one before if the event kept the seat, and otherwise this event. */
  lemma MovedStep(m: Sessions, es: seq<Event>, n: nat, name: string, id: int32, server: int32)
    requires 0 < n <= |es|
    ensures var p: nat := n - 1;
            (exists k :: MovedAway(m, es, n, k, name, id, server)) <==>
            PutsElsewhere(Between(m, es, p), es[p], name, id, server)
            || (Seat(Between(m, es, n), name) == Seat(Between(m, es, p), name)
                && exists k :: MovedAway(m, es, p, k, name, id, server))
  {
    hide Seat, PutsElsewhere, Between;
    var p: nat := n - 1;
    forall k: nat | k < p
      ensures MovedAway(m, es, n, k, name, id, server) <==>
              MovedAway(m, es, p, k, name, id, server) && Seat(Between(m, es, n), name) == Seat(Between(m, es, p), name)
    {
    }
    assert MovedAway(m, es, n, p, name, id, server) <==> PutsElsewhere(Between(m, es, p), es[p], name, id, server);
  }

  /** With other events between the two sections, a logout removes a player who is not on the reporting server any more if
      and only if one of them put the account elsewhere under the same session id and none moved it again. */
  lemma SplitLogoutExact(m: Sessions, es: seq<Event>, name: string, server: int32)
    requires LogoutTarget(m, name, server).Some?
    ensures var (id, now) := (LogoutTarget(m, name, server).value, Between(m, es, |es|));
            (name in now && now[name].serverId != server && name !in Unregistered(now, name, id))
            <==> exists k :: MovedAway(m, es, |es|, k, name, id, server)
  {
    hide Between, MovedAway;
    SeatedElsewhere(m, es, |es|, name, LogoutTarget(m, name, server).value, server);
  }
}
