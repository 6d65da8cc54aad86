/** internal/session/session.go: the store that hands an authenticated client over to a game server. */
module HandoffStore {
  import opened SessionKeys
  import opened Sharding
  import opened Words
  import opened Wrappers

  datatype Session = Session(expiresAt: int, key: SessionKey, account: string, accountId: int64, serverId: int32)

  /** uint32(id): congruent to the id. */
  function IdHash(id: int32): (h: uint32)
    ensures var (a: int, b: int) := (h, id); (a - b) % 0x1_0000_0000 == 0
  {
    ToU32(id)
  }

  type Sessions = map<int32, Session>

  /** What ValidateAndDelete answers; afterwards the id is gone either way. */
  function Validated(m: Sessions, id: int32, now: int): Option<Session> {
    if id in m && now <= m[id].expiresAt then Some(m[id]) else None
  }

  function Expired(tick: int): (int32, Session) -> bool {
    (id: int32, s: Session) => tick > s.expiresAt
  }

  // ---- The code ----

  class Store {
    const shards: seq<Shard<int32, Session>>
    ghost var Contents: Sessions

    ghost predicate Valid()
      reads this, shards
    {
      Represents(shards, IdHash, Contents)
    }

    constructor ()
      ensures Valid() && fresh(shards) && Contents == map[]
    {
      var s := NewShards<int32, Session>(IdHash);
      shards := s;
      Contents := map[];
    }

    method Put(id: int32, session: Session)
      requires Valid()
      modifies this`Contents, shards
      ensures Valid() && Contents == old(Contents)[id := session]
    {
      hide Represents;
      Set(shards, IdHash, Contents, Masked(IdHash(id)), id, session);
      Contents := Contents[id := session];
    }

    /** Takes the session out whether or not it is still good. */
    method ValidateAndDelete(id: int32, now: int) returns (r: Option<Session>)
      requires Valid()
      modifies this`Contents, shards
      ensures Valid() && Contents == old(Contents) - {id}
      ensures r == Validated(old(Contents), id, now)
    {
      hide Represents;
      var at := Masked(IdHash(id));
      var found := Get(shards, IdHash, Contents, at, id);
      if found.Some? {
        Delete(shards, IdHash, Contents, at, id);
        Contents := Contents - {id};
      }
      if found.None? || now > found.value.expiresAt {
        return None;
      }
      r := found;
    }

    /** One tick of the collector. */
    method Collect(now: int)
      requires Valid()
      modifies this`Contents, shards
      ensures Valid() && Contents == Kept(old(Contents), Expired(now))
      ensures forall id :: id in Contents <==> id in old(Contents) && now <= old(Contents)[id].expiresAt
      ensures forall id :: id in Contents ==> Contents[id] == old(Contents)[id]
    {
      hide Represents;
      Sweep(shards, IdHash, Contents, Expired(now));
      Contents := Kept(Contents, Expired(now));
    }
  }

  // ---- Runs ----

  /** A locked step. A collecting step has reached the ids in scope with the time its tick began. */
  datatype Event =
    | Putting(id: int32, session: Session, now: int)
    | Validating(id: int32, now: int)
    | Collecting(scope: set<int32>, tick: int, now: int)

  ghost predicate Ordered(es: seq<Event>) {
    && (forall i :: 0 <= i < |es| && es[i].Collecting? ==> es[i].tick <= es[i].now)
    && (forall i, j :: 0 <= i < j < |es| ==> es[i].now <= es[j].now)
  }

  ghost function Step(m: Sessions, e: Event): Sessions {
    match e
    case Putting(id, s, _) => m[id := s]
    case Validating(id, _) => m - {id}
    case Collecting(scope, tick, _) => Kept(m, (id: int32, s: Session) => id in scope && tick > s.expiresAt)
  }

  ghost function After(es: seq<Event>): Sessions {
    if es == [] then map[] else Step(After(es[..|es| - 1]), es[|es| - 1])
  }

  /** A validation and its answer. */
  datatype Answer = Answer(id: int32, at: int, session: Option<Session>)

  ghost function Log(es: seq<Event>): seq<Answer> {
    if es == [] then []
    else
      var (init, e) := (es[..|es| - 1], es[|es| - 1]);
      if e.Validating? then Log(init) + [Answer(e.id, e.now, Validated(After(init), e.id, e.now))] else Log(init)
  }

  ghost function WithoutCollecting(es: seq<Event>): seq<Event> {
    if es == [] then []
    else
      var (init, e) := (WithoutCollecting(es[..|es| - 1]), es[|es| - 1]);
      if e.Collecting? then init else init + [e]
  }

  /** The session of the latest put of an id, unless a validation of that id came after it. Looks at no map and knows of
      no collector. */
  ghost function Latest(es: seq<Event>, id: int32): Option<Session> {
    if es == [] then None
    else
      match es[|es| - 1]
      case Putting(i, s, _) => if i == id then Some(s) else Latest(es[..|es| - 1], id)
      case Validating(i, _) => if i == id then None else Latest(es[..|es| - 1], id)
      case Collecting(_, _, _) => Latest(es[..|es| - 1], id)
  }

  /** The store holds the latest session, or it was collected after its time. */
  ghost predicate Tracks(m: Sessions, latest: Option<Session>, id: int32, last: int) {
    if id in m then latest == Some(m[id]) else latest.Some? ==> latest.value.expiresAt < last
  }

  lemma OrderedInit(es: seq<Event>)
    requires Ordered(es) && es != []
    ensures Ordered(es[..|es| - 1])
    ensures |es| > 1 ==> es[|es| - 2].now <= es[|es| - 1].now
  {
  }

  lemma {:induction false} AlwaysTracks(es: seq<Event>, id: int32)
    requires Ordered(es) && es != []
    ensures Tracks(After(es), Latest(es, id), id, es[|es| - 1].now)
  {
    var init := es[..|es| - 1];
    if init == [] {
      assert After(init) == map[] && Latest(init, id) == None;
    } else {
      OrderedInit(es);
      AlwaysTracks(init, id);
    }
  }

  /** In every time-ordered run a validation returns the session of the latest put of its id, if that was not validated
      since and has not expired: single use, no expired session, and collection by a tick however stale makes no
      difference. */
  lemma ValidationAnswers(es: seq<Event>, id: int32, now: int)
    requires Ordered(es + [Validating(id, now)])
    ensures Validated(After(es), id, now) ==
            match Latest(es, id) case Some(s) => (if now <= s.expiresAt then Some(s) else None) case None => None
  {
    var all := es + [Validating(id, now)];
    assert all[..|all| - 1] == es;
    OrderedInit(all);
    if es != [] {
      AlwaysTracks(es, id);
    }
  }

  lemma {:induction false} LatestIgnoresCollecting(es: seq<Event>, id: int32)
    ensures Latest(WithoutCollecting(es), id) == Latest(es, id)
  {
    if es != [] {
      var (init, e) := (es[..|es| - 1], es[|es| - 1]);
      LatestIgnoresCollecting(init, id);
      assert (WithoutCollecting(init) + [e])[..|WithoutCollecting(init)|] == WithoutCollecting(init);
    }
  }

  lemma {:induction false} WithoutCollectingOrdered(es: seq<Event>)
    requires Ordered(es)
    ensures Ordered(WithoutCollecting(es))
    ensures WithoutCollecting(es) != [] ==>
              es != [] && WithoutCollecting(es)[|WithoutCollecting(es)| - 1].now <= es[|es| - 1].now
  {
    hide Ordered;
    if es == [] {
      OrderedNone();
    } else {
      var (init, e) := (es[..|es| - 1], es[|es| - 1]);
      OrderedInit(es);
      WithoutCollectingOrdered(init);
      OrderedSnoc(WithoutCollecting(init), e);
    }
  }

  lemma OrderedNone()
    ensures Ordered([])
  {
  }

  lemma OrderedSnoc(es: seq<Event>, e: Event)
    requires Ordered(es) && (es != [] ==> es[|es| - 1].now <= e.now)
    ensures !e.Collecting? ==> Ordered(es + [e])
  {
  }

  /** Removing every collecting step from a run changes no answer. */
  lemma {:induction false} CollectingUnobservable(es: seq<Event>)
    requires Ordered(es)
    ensures Log(WithoutCollecting(es)) == Log(es)
  {
    if es != [] {
      var (init, e) := (es[..|es| - 1], es[|es| - 1]);
      var plain := WithoutCollecting(init);
      OrderedInit(es);
      CollectingUnobservable(init);
      assert (plain + [e])[..|plain|] == plain && init + [e] == es;
      if e.Validating? {
        hide Ordered, Validated, Latest, After;
        WithoutCollectingOrdered(es);
        ValidationAnswers(init, e.id, e.now);
        ValidationAnswers(plain, e.id, e.now);
        LatestIgnoresCollecting(init, e.id);
      }
    }
  }

  ghost function Puts(es: seq<Event>, id: int32): nat {
    if es == [] then 0
    else Puts(es[..|es| - 1], id) + if es[|es| - 1].Putting? && es[|es| - 1].id == id then 1 else 0
  }

  ghost function Successes(log: seq<Answer>, id: int32): nat {
    if log == [] then 0
    else Successes(log[..|log| - 1], id)
         + if log[|log| - 1].id == id && log[|log| - 1].session.Some? then 1 else 0
  }

  /** No id is validated successfully more often than it was put. */
  lemma {:induction false} NeverMoreThanPut(es: seq<Event>, id: int32)
    ensures Successes(Log(es), id) + (if id in After(es) then 1 else 0) <= Puts(es, id)
  {
    if es != [] {
      var (init, e) := (es[..|es| - 1], es[|es| - 1]);
      NeverMoreThanPut(init, id);
      hide Successes;
      if e.Validating? {
        var s := Validated(After(init), e.id, e.now);
        SuccessesNext(Log(init), Answer(e.id, e.now, s), id);
      }
    }
  }

  lemma SuccessesNext(log: seq<Answer>, a: Answer, id: int32)
    ensures Successes(log + [a], id) == Successes(log, id) + if a.id == id && a.session.Some? then 1 else 0
  {
    assert (log + [a])[..|log|] == log;
  }
}
