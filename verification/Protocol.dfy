/** The login and handoff protocol as one step system. Client packets, login workers, game-server validations and the
    collector interleave in any order; every packet body is arbitrary bytes. A connection that closes sends nothing more,
    but its worker may still commit and its handoff stays. The theorem is provenance: what must have happened before a
    validation can succeed. */
module Protocol {
  import opened Credentials
  import opened Handlers
  import opened HandoffStore
  import opened Login
  import opened ScrambledKey
  import opened ServerLists
  import opened SessionKeys
  import opened Wire
  import opened Words
  import opened Wrappers

  type ClientId = nat
  type WorkerId = nat

  /** The one or two credential blocks of a login packet. */
  type Blocks = (seq<byte>, Option<seq<byte>>)

  /** A login worker between HandleLogin and its commit; the row once the database has accepted. */
  datatype Worker = Worker(client: ClientId, blocks: Blocks, row: Option<Row>)

  datatype System = System(clients: map<ClientId, Record>, workers: map<WorkerId, Worker>, store: Sessions)

  /** handoffTTL, the lower-casing of names and the account database, and the folding behind EqualFold. */
  datatype Config = Config(ttl: int, world: World, fold: string -> string)

  datatype Step =
    | Connect(client: ClientId, sessionId: int32, key: SessionKey, rsa: PrivateKey, now: int)
    | SendAuthGG(client: ClientId, body: seq<byte>, now: int)
    | SendLogin(client: ClientId, worker: WorkerId, body: seq<byte>, now: int)
    | Authenticate(worker: WorkerId, now: int)                 // the worker asks the database
    | CommitLogin(worker: WorkerId, now: int)                  // the registry admitted
    | AbandonLogin(worker: WorkerId, now: int)                 // the registry refused
    | SendServerList(client: ClientId, body: seq<byte>, now: int)
    | SendGSLogin(client: ClientId, body: seq<byte>, now: int)
    | Validate(body: seq<byte>, now: int)
    | Collect(scope: set<int32>, tick: int, now: int)

  const INITIAL := System(map[], map[], map[])

  /** The database accepts the credentials decrypted from these blocks: under this name, with this row, at this time. */
  ghost predicate Accepts(cfg: Config, rsa: PrivateKey, b: Blocks, name: string, row: Row, now: int) {
    Usable(rsa) && Decoded(rsa, b.0, b.1).Success?
    && name == cfg.world.lower(Decoded(rsa, b.0, b.1).value.username)
    && cfg.world.authenticate(name, Decoded(rsa, b.0, b.1).value.password, now) == Authenticated(row)
  }

  /** The name a worker logs in under. */
  ghost function WorkerName(cfg: Config, rsa: PrivateKey, b: Blocks): string {
    if Usable(rsa) && Decoded(rsa, b.0, b.1).Success? then cfg.world.lower(Decoded(rsa, b.0, b.1).value.username) else ""
  }

  /** The row the database answers a worker with, if it accepts. */
  ghost function Answer(cfg: Config, rsa: PrivateKey, b: Blocks, now: int): (r: Option<Row>)
    ensures forall row :: Accepts(cfg, rsa, b, WorkerName(cfg, rsa, b), row, now) <==> r == Some(row)
  {
    if Usable(rsa) && Decoded(rsa, b.0, b.1).Success? then
      var a := cfg.world.authenticate(WorkerName(cfg, rsa, b), Decoded(rsa, b.0, b.1).value.password, now);
      if a.Authenticated? then Some(a.row) else None
    else None
  }

  ghost function Next(cfg: Config, s: System, e: Step): System {
    match e
    case Connect(c, sessionId, key, rsa, _) =>
      if c in s.clients then s
      else s.(clients := s.clients[c := Record(Connected, sessionId, key, rsa, "", 0, 0)])
    case SendAuthGG(c, body, _) =>
      if c !in s.clients then s else s.(clients := s.clients[c := AfterAuthGG(s.clients[c], body)])
    case SendLogin(c, w, body, _) =>
      if c !in s.clients || w in s.workers then s
      else (match StartsLogin(s.clients[c], body)
            case None => s
            case Some(b) => s.(workers := s.workers[w := Worker(c, b, None)]))
    case Authenticate(w, now) =>
      if w !in s.workers || s.workers[w].row.Some? || s.workers[w].client !in s.clients then s
      else (match Answer(cfg, s.clients[s.workers[w].client].rsa, s.workers[w].blocks, now)
            case None => s.(workers := s.workers - {w})
            case Some(row) => s.(workers := s.workers[w := s.workers[w].(row := Some(row))]))
    case CommitLogin(w, _) =>
      if w !in s.workers || s.workers[w].row.None? || s.workers[w].client !in s.clients then s
      else
        var (c, k) := (s.workers[w].client, s.workers[w]);
        s.(workers := s.workers - {w},
           clients := s.clients[c := AfterCommit(s.clients[c], WorkerName(cfg, s.clients[c].rsa, k.blocks), k.row.value)])
    case AbandonLogin(w, _) => s.(workers := s.workers - {w})
    case SendServerList(c, body, _) =>
      if c !in s.clients then s else s.(clients := s.clients[c := AfterServerList(s.clients[c], body)])
    case SendGSLogin(c, body, now) =>
      if c !in s.clients || !HandsOff(s.clients[c], body) then s
      else
        var r := s.clients[c];
        s.(clients := s.clients[c := AfterGSLogin(r, body)],
           store := s.store[r.key.loginOk1 := Handoff(r, body, now, cfg.ttl)])
    case Validate(body, _) =>
      (match ParseRequest(body) case None => s case Some(q) => s.(store := s.store - {q.loginOk1}))
    case Collect(scope, tick, _) =>
      s.(store := map id | id in s.store && !(id in scope && tick > s.store[id].expiresAt) :: s.store[id])
  }

  /** The state after the first n steps of a run. */
  ghost function At(cfg: Config, es: seq<Step>, n: nat): System
    requires n <= |es|
  {
    if n == 0 then INITIAL else Next(cfg, At(cfg, es, n - 1), es[n - 1])
  }

  ghost predicate Ordered(es: seq<Step>) {
    forall i, j :: 0 <= i < j < |es| ==> es[i].now <= es[j].now
  }

  // ---- What happened at a step ----

  /** Step i: client c answered AuthGG with its own session id. */
  ghost predicate PassedGG(cfg: Config, es: seq<Step>, i: nat, c: ClientId)
    requires i < |es|
  {
    es[i].SendAuthGG? && es[i].client == c && c in At(cfg, es, i).clients
    && OwnSessionId(At(cfg, es, i).clients[c], es[i].body)
  }

  /** Step i: client c, past AuthGG, started worker w on the blocks of this very packet. */
  ghost predicate StartedLogin(cfg: Config, es: seq<Step>, i: nat, c: ClientId, w: WorkerId, b: Blocks)
    requires i < |es|
  {
    var s := At(cfg, es, i);
    es[i].SendLogin? && es[i].client == c && es[i].worker == w && c in s.clients && w !in s.workers
    && s.clients[c].state == AuthedGG && StartsLogin(s.clients[c], es[i].body) == Some(b)
  }

  /** The worker started at step i on these blocks is still the one running at step n. */
  ghost predicate Running(cfg: Config, es: seq<Step>, i: nat, n: nat, c: ClientId, w: WorkerId, b: Blocks)
    requires n <= |es|
  {
    forall k :: i < k <= n ==>
      var s := At(cfg, es, k); w in s.workers && s.workers[w].client == c && s.workers[w].blocks == b
  }

  /** Step i: the database accepted what worker w of client c decrypted from its blocks. */
  ghost predicate PassedDatabase(cfg: Config, es: seq<Step>, i: nat, c: ClientId, w: WorkerId, b: Blocks, name: string,
                                 row: Row)
    requires i < |es|
  {
    es[i].Authenticate? && es[i].worker == w && c in At(cfg, es, i).clients
    && Accepts(cfg, At(cfg, es, i).clients[c].rsa, b, name, row, es[i].now)
  }

  /** Step i: worker w committed this name and row to client c. */
  ghost predicate CommittedLogin(cfg: Config, es: seq<Step>, i: nat, c: ClientId, w: WorkerId, name: string, row: Row)
    requires i < |es|
  {
    var (s, t) := (At(cfg, es, i), At(cfg, es, i + 1));
    es[i].CommitLogin? && es[i].worker == w && w in s.workers && s.workers[w].client == c && c in s.clients
    && c in t.clients && t.clients[c] == AfterCommit(s.clients[c], name, row)
  }

  /** Step i: client c asked for the server list with its own login words. */
  ghost predicate PassedList(cfg: Config, es: seq<Step>, i: nat, c: ClientId)
    requires i < |es|
  {
    var s := At(cfg, es, i);
    es[i].SendServerList? && es[i].client == c && c in s.clients && s.clients[c].state == AuthedLogin
    && OwnLoginPair(s.clients[c], es[i].body)
  }

  /** Step i: client c, past the list, put its handoff. */
  ghost predicate PutHandoff(cfg: Config, es: seq<Step>, i: nat, c: ClientId)
    requires i < |es|
  {
    var s := At(cfg, es, i);
    es[i].SendGSLogin? && es[i].client == c && c in s.clients && HandsOff(s.clients[c], es[i].body)
  }

  /** Step k asks about login word id. */
  ghost predicate Asks(es: seq<Step>, k: nat, id: int32)
    requires k < |es|
  {
    es[k].Validate? && ParseRequest(es[k].body).Some? && ParseRequest(es[k].body).value.loginOk1 == id
  }

  // ---- Lineage ----

  /** The steps behind a handoff, in order, with the blocks sent and the row they were accepted for. */
  datatype Path = Path(client: ClientId, worker: WorkerId, blocks: Blocks, row: Row,
                       gg: nat, start: nat, auth: nat, commit: nat, list: nat, put: nat)

  ghost predicate LoginPath(cfg: Config, es: seq<Step>, n: nat, p: Path)
    requires n <= |es|
  {
    p.gg < p.start < n && PassedGG(cfg, es, p.gg, p.client)
    && StartedLogin(cfg, es, p.start, p.client, p.worker, p.blocks)
  }

  /** The database has accepted the worker. */
  ghost predicate AcceptedPath(cfg: Config, es: seq<Step>, n: nat, p: Path, name: string)
    requires n <= |es|
  {
    LoginPath(cfg, es, n, p) && p.start < p.auth < n
    && PassedDatabase(cfg, es, p.auth, p.client, p.worker, p.blocks, name, p.row)
  }

  ghost predicate AuthPath(cfg: Config, es: seq<Step>, n: nat, p: Path, name: string, id: int64)
    requires n <= |es|
  {
    AcceptedPath(cfg, es, n, p, name) && p.auth < p.commit < n && p.row.id == id
    && CommittedLogin(cfg, es, p.commit, p.client, p.worker, name, p.row)
    && Running(cfg, es, p.start, p.commit, p.client, p.worker, p.blocks)
  }

  ghost predicate ListPath(cfg: Config, es: seq<Step>, n: nat, p: Path, name: string, id: int64)
    requires n <= |es|
  {
    AuthPath(cfg, es, n, p, name, id) && p.commit < p.list < n && PassedList(cfg, es, p.list, p.client)
  }

  /** s was put at step p.put with everything taken from the client then, and nobody asked for it before step n. */
  ghost predicate HandoffPath(cfg: Config, es: seq<Step>, n: nat, p: Path, id: int32, s: Session)
    requires n <= |es|
  {
    && ListPath(cfg, es, n, p, s.account, s.accountId) && p.list < p.put < n
    && PutHandoff(cfg, es, p.put, p.client) && s.expiresAt == es[p.put].now + cfg.ttl
    && s.key == At(cfg, es, p.put).clients[p.client].key && s.key.loginOk1 == id
    && forall k :: p.put < k < n ==> !Asks(es, k, id)
  }

  // ---- Invariants ----

  ghost predicate PastGG(cfg: Config, es: seq<Step>, n: nat, c: ClientId)
    requires n <= |es|
  {
    exists i :: 0 <= i < n && PassedGG(cfg, es, i, c)
  }

  ghost predicate ClientJustified(cfg: Config, es: seq<Step>, n: nat, c: ClientId, r: Record)
    requires n <= |es|
  {
    && (r.state == AuthedGG ==> PastGG(cfg, es, n, c))
    && (r.state == AuthedLogin ==> exists p: Path :: p.client == c && AuthPath(cfg, es, n, p, r.account, r.accountId))
    && (r.state == ServerListed ==> exists p: Path :: p.client == c && ListPath(cfg, es, n, p, r.account, r.accountId))
  }

  ghost predicate WorkerPath(cfg: Config, es: seq<Step>, n: nat, p: Path, w: WorkerId, k: Worker, name: string)
    requires n <= |es|
  {
    p.worker == w && p.client == k.client && p.blocks == k.blocks && LoginPath(cfg, es, n, p)
    && Running(cfg, es, p.start, n, p.client, w, p.blocks)
    && (k.row.Some? ==> p.row == k.row.value && AcceptedPath(cfg, es, n, p, name))
  }

  ghost predicate WorkerJustified(cfg: Config, es: seq<Step>, n: nat, w: WorkerId, k: Worker)
    requires n <= |es|
  {
    k.client in At(cfg, es, n).clients
    && exists p: Path ::
         WorkerPath(cfg, es, n, p, w, k, WorkerName(cfg, At(cfg, es, n).clients[k.client].rsa, k.blocks))
  }

  ghost predicate HandoffJustified(cfg: Config, es: seq<Step>, n: nat, id: int32, s: Session)
    requires n <= |es|
  {
    exists p: Path :: HandoffPath(cfg, es, n, p, id, s)
  }

  ghost predicate Justified(cfg: Config, es: seq<Step>, n: nat)
    requires n <= |es|
  {
    var s := At(cfg, es, n);
    && (forall c :: c in s.clients ==> ClientJustified(cfg, es, n, c, s.clients[c]))
    && (forall w :: w in s.workers ==> WorkerJustified(cfg, es, n, w, s.workers[w]))
    && (forall id :: id in s.store ==> HandoffJustified(cfg, es, n, id, s.store[id]))
  }

  // ---- One step at a time ----

  lemma ClientKept(cfg: Config, es: seq<Step>, n: nat, c: ClientId, r: Record)
    requires n < |es| && ClientJustified(cfg, es, n, c, r)
    ensures ClientJustified(cfg, es, n + 1, c, r)
  {
    hide PassedGG, StartedLogin, Running, PassedDatabase, CommittedLogin, PassedList;
    if r.state == AuthedLogin {
      var p: Path :| p.client == c && AuthPath(cfg, es, n, p, r.account, r.accountId);
      assert AuthPath(cfg, es, n + 1, p, r.account, r.accountId);
    } else if r.state == ServerListed {
      var p: Path :| p.client == c && ListPath(cfg, es, n, p, r.account, r.accountId);
      assert ListPath(cfg, es, n + 1, p, r.account, r.accountId);
    }
  }

  /** No step takes a client's record away or changes its RSA key. */
  lemma KeyKept(cfg: Config, es: seq<Step>, n: nat, c: ClientId)
    requires n < |es| && c in At(cfg, es, n).clients
    ensures c in At(cfg, es, n + 1).clients && At(cfg, es, n + 1).clients[c].rsa == At(cfg, es, n).clients[c].rsa
  {
    hide WorkerName, Answer, StartsLogin, HandsOff, AfterAuthGG, AfterServerList, AfterGSLogin, Handoff, ParseRequest;
    var (r, e) := (At(cfg, es, n).clients[c], es[n]);
    if e.SendAuthGG? || e.SendServerList? || e.SendGSLogin? {
      SameKey(r, e.body);
    }
  }

  lemma SameKey(r: Record, body: seq<byte>)
    ensures AfterAuthGG(r, body).rsa == AfterServerList(r, body).rsa == AfterGSLogin(r, body).rsa == r.rsa
  {
    hide OwnSessionId, OwnLoginPair;
  }

  lemma WorkerKept(cfg: Config, es: seq<Step>, n: nat, w: WorkerId, k: Worker)
    requires n < |es| && WorkerJustified(cfg, es, n, w, k)
    requires w in At(cfg, es, n + 1).workers && At(cfg, es, n + 1).workers[w] == k
    ensures WorkerJustified(cfg, es, n + 1, w, k)
  {
    hide PassedGG, StartedLogin, PassedDatabase, At, WorkerName;
    KeyKept(cfg, es, n, k.client);
    var name := WorkerName(cfg, At(cfg, es, n).clients[k.client].rsa, k.blocks);
    var p: Path :| WorkerPath(cfg, es, n, p, w, k, name);
    assert WorkerPath(cfg, es, n + 1, p, w, k, name);
  }

  /** The database accepts a worker. */
  lemma AcceptedStep(cfg: Config, es: seq<Step>, n: nat, w: WorkerId, k: Worker, row: Row)
    requires n < |es| && es[n].Authenticate? && es[n].worker == w && k.row.None? && WorkerJustified(cfg, es, n, w, k)
    requires Answer(cfg, At(cfg, es, n).clients[k.client].rsa, k.blocks, es[n].now) == Some(row)
    requires w in At(cfg, es, n + 1).workers && At(cfg, es, n + 1).workers[w] == k.(row := Some(row))
    ensures WorkerJustified(cfg, es, n + 1, w, k.(row := Some(row)))
  {
    hide PassedGG, StartedLogin, At, WorkerName, Accepts, Answer;
    KeyKept(cfg, es, n, k.client);
    var name := WorkerName(cfg, At(cfg, es, n).clients[k.client].rsa, k.blocks);
    var p: Path :| WorkerPath(cfg, es, n, p, w, k, name);
    assert Accepts(cfg, At(cfg, es, n).clients[k.client].rsa, k.blocks, name, row, es[n].now);
    assert WorkerPath(cfg, es, n + 1, p.(auth := n, row := row), w, k.(row := Some(row)), name);
  }

  lemma HandoffKept(cfg: Config, es: seq<Step>, n: nat, id: int32, s: Session)
    requires n < |es| && HandoffJustified(cfg, es, n, id, s) && !Asks(es, n, id)
    ensures HandoffJustified(cfg, es, n + 1, id, s)
  {
    hide PassedGG, StartedLogin, Running, PassedDatabase, CommittedLogin, PassedList, PutHandoff, Asks, At;
    var p: Path :| HandoffPath(cfg, es, n, p, id, s);
    assert HandoffPath(cfg, es, n + 1, p, id, s);
  }

  /** A client's record changes only by its own four steps. */
  lemma ClientStep(cfg: Config, es: seq<Step>, n: nat, c: ClientId)
    requires n < |es| && Justified(cfg, es, n) && c in At(cfg, es, n + 1).clients
    ensures ClientJustified(cfg, es, n + 1, c, At(cfg, es, n + 1).clients[c])
  {
    hide ClientJustified, WorkerJustified, HandoffJustified, WorkerName, AfterAuthGG, AfterServerList, AfterGSLogin,
         AfterCommit, HandsOff, StartsLogin, ParseRequest, Answer;
    var (s, t, e) := (At(cfg, es, n), At(cfg, es, n + 1), es[n]);
    if c !in s.clients {
      NewClient(cfg, es, n + 1, c, t.clients[c]);
    } else {
      var r := s.clients[c];
      ClientKept(cfg, es, n, c, r);
      if e.SendAuthGG? && e.client == c {
        AfterGGStep(cfg, es, n, c);
      } else if e.CommitLogin? && e.worker in s.workers && s.workers[e.worker].client == c && s.workers[e.worker].row.Some? {
        AfterCommitStep(cfg, es, n, c);
      } else if e.SendServerList? && e.client == c {
        AfterListStep(cfg, es, n, c);
      } else if e.SendGSLogin? && e.client == c {
        SameIdentity(cfg, es, n + 1, c, r, e.body);
      }
    }
  }

  lemma NewClient(cfg: Config, es: seq<Step>, n: nat, c: ClientId, r: Record)
    requires n <= |es| && r.state == Connected
    ensures ClientJustified(cfg, es, n, c, r)
  {
  }

  lemma AfterGGStep(cfg: Config, es: seq<Step>, n: nat, c: ClientId)
    requires n < |es| && es[n].SendAuthGG? && es[n].client == c && c in At(cfg, es, n).clients
    requires ClientJustified(cfg, es, n + 1, c, At(cfg, es, n).clients[c])
    ensures ClientJustified(cfg, es, n + 1, c, AfterAuthGG(At(cfg, es, n).clients[c], es[n].body))
  {
    hide AuthPath, ListPath, At;
    if OwnSessionId(At(cfg, es, n).clients[c], es[n].body) {
      assert PassedGG(cfg, es, n, c);
      assert PastGG(cfg, es, n + 1, c);
    }
  }

  lemma AfterCommitStep(cfg: Config, es: seq<Step>, n: nat, c: ClientId)
    requires n < |es| && es[n].CommitLogin? && es[n].worker in At(cfg, es, n).workers
    requires var k := At(cfg, es, n).workers[es[n].worker];
             k.client == c && k.row.Some? && WorkerJustified(cfg, es, n, es[n].worker, k)
    requires c in At(cfg, es, n).clients
    ensures c in At(cfg, es, n + 1).clients && ClientJustified(cfg, es, n + 1, c, At(cfg, es, n + 1).clients[c])
  {
    hide PassedGG, StartedLogin, PassedDatabase, WorkerName, ListPath, PastGG, Running;
    var (s, w) := (At(cfg, es, n), es[n].worker);
    var k := s.workers[w];
    var name := WorkerName(cfg, s.clients[c].rsa, k.blocks);
    var p: Path :| WorkerPath(cfg, es, n, p, w, k, name);
    assert CommittedLogin(cfg, es, n, c, w, name, p.row);
    assert AuthPath(cfg, es, n + 1, p.(commit := n), name, p.row.id);
  }

  lemma AfterListStep(cfg: Config, es: seq<Step>, n: nat, c: ClientId)
    requires n < |es| && es[n].SendServerList? && es[n].client == c && c in At(cfg, es, n).clients
    requires ClientJustified(cfg, es, n, c, At(cfg, es, n).clients[c])
    requires ClientJustified(cfg, es, n + 1, c, At(cfg, es, n).clients[c])
    ensures ClientJustified(cfg, es, n + 1, c, AfterServerList(At(cfg, es, n).clients[c], es[n].body))
  {
    hide PassedGG, StartedLogin, Running, PassedDatabase, CommittedLogin, PastGG, At, OwnLoginPair;
    var r := At(cfg, es, n).clients[c];
    if r.state == AuthedLogin && OwnLoginPair(r, es[n].body) {
      var p: Path :| p.client == c && AuthPath(cfg, es, n, p, r.account, r.accountId);
      assert PassedList(cfg, es, n, c);
      assert ListPath(cfg, es, n + 1, p.(list := n), r.account, r.accountId);
    }
  }

  lemma SameIdentity(cfg: Config, es: seq<Step>, n: nat, c: ClientId, r: Record, body: seq<byte>)
    requires n <= |es| && ClientJustified(cfg, es, n, c, r)
    ensures ClientJustified(cfg, es, n, c, AfterGSLogin(r, body))
  {
    hide AuthPath, ListPath, PastGG;
  }

  /** Workers come from clients past AuthGG, and have a row only from the database. */
  lemma WorkerStep(cfg: Config, es: seq<Step>, n: nat, w: WorkerId)
    requires n < |es| && Justified(cfg, es, n) && w in At(cfg, es, n + 1).workers
    ensures WorkerJustified(cfg, es, n + 1, w, At(cfg, es, n + 1).workers[w])
  {
    hide ClientJustified, WorkerJustified, HandoffJustified, WorkerName, AfterAuthGG, AfterServerList, AfterGSLogin,
         AfterCommit, HandsOff, StartsLogin, ParseRequest, Answer;
    var (s, t, e) := (At(cfg, es, n), At(cfg, es, n + 1), es[n]);
    if w !in s.workers {
      assert e.SendLogin? && e.worker == w && e.client in s.clients;
      NewWorker(cfg, es, n, w);
    } else if t.workers[w] == s.workers[w] {
      WorkerKept(cfg, es, n, w, s.workers[w]);
    } else {
      AcceptedStep(cfg, es, n, w, s.workers[w], t.workers[w].row.value);
    }
  }

  lemma NewWorker(cfg: Config, es: seq<Step>, n: nat, w: WorkerId)
    requires n < |es| && es[n].SendLogin? && es[n].worker == w && es[n].client in At(cfg, es, n).clients
    requires w !in At(cfg, es, n).workers && w in At(cfg, es, n + 1).workers
    requires var c := es[n].client; ClientJustified(cfg, es, n, c, At(cfg, es, n).clients[c])
    ensures WorkerJustified(cfg, es, n + 1, w, At(cfg, es, n + 1).workers[w])
  {
    hide PassedGG, LoginBlocks, AuthPath, ListPath, WorkerName, PassedDatabase;
    var c := es[n].client;
    var b := StartsLogin(At(cfg, es, n).clients[c], es[n].body).value;
    var i :| 0 <= i < n && PassedGG(cfg, es, i, c);
    var p := Path(c, w, b, Row(0, 0), i, n, 0, 0, 0, 0);
    assert At(cfg, es, n + 1).workers[w] == Worker(c, b, None);
    assert StartedLogin(cfg, es, n, c, w, b);
    assert WorkerPath(cfg, es, n + 1, p, w, Worker(c, b, None),
                      WorkerName(cfg, At(cfg, es, n + 1).clients[c].rsa, b));
  }

  /** Handoffs come from clients past the server list, and are gone once somebody asked for them. */
  lemma HandoffStep(cfg: Config, es: seq<Step>, n: nat, id: int32)
    requires n < |es| && Justified(cfg, es, n) && id in At(cfg, es, n + 1).store
    ensures HandoffJustified(cfg, es, n + 1, id, At(cfg, es, n + 1).store[id])
  {
    hide ClientJustified, WorkerJustified, HandoffJustified, WorkerName, AfterAuthGG, AfterServerList, AfterGSLogin,
         AfterCommit, HandsOff, StartsLogin, ParseRequest, Handoff, Answer;
    var (s, t, e) := (At(cfg, es, n), At(cfg, es, n + 1), es[n]);
    if e.SendGSLogin? && e.client in s.clients && HandsOff(s.clients[e.client], e.body)
       && s.clients[e.client].key.loginOk1 == id {
      NewHandoff(cfg, es, n, e.client);
    } else {
      assert id in s.store && t.store[id] == s.store[id] && !Asks(es, n, id);
      HandoffKept(cfg, es, n, id, s.store[id]);
    }
  }

  lemma NewHandoff(cfg: Config, es: seq<Step>, n: nat, c: ClientId)
    requires n < |es| && PutHandoff(cfg, es, n, c) && ClientJustified(cfg, es, n, c, At(cfg, es, n).clients[c])
    ensures var r := At(cfg, es, n).clients[c];
            HandoffJustified(cfg, es, n + 1, r.key.loginOk1, Handoff(r, es[n].body, es[n].now, cfg.ttl))
  {
    hide PassedGG, StartedLogin, Running, PassedDatabase, CommittedLogin, PassedList, PastGG, At, OwnLoginPair, Asks;
    var r := At(cfg, es, n).clients[c];
    var p: Path :| p.client == c && ListPath(cfg, es, n, p, r.account, r.accountId);
    var (p', s) := (p.(put := n), Handoff(r, es[n].body, es[n].now, cfg.ttl));
    assert ListPath(cfg, es, n + 1, p', r.account, r.accountId);
    assert HandoffPath(cfg, es, n + 1, p', r.key.loginOk1, s);
  }

  /** Every state of every run is justified by the steps before it. */
  lemma {:induction false} AlwaysJustified(cfg: Config, es: seq<Step>, n: nat)
    requires n <= |es|
    ensures Justified(cfg, es, n)
  {
    hide ClientJustified, WorkerJustified, HandoffJustified, Next;
    if n > 0 {
      AlwaysJustified(cfg, es, n - 1);
      forall c | c in At(cfg, es, n).clients
        ensures ClientJustified(cfg, es, n, c, At(cfg, es, n).clients[c])
      {
        ClientStep(cfg, es, n - 1, c);
      }
      forall w | w in At(cfg, es, n).workers
        ensures WorkerJustified(cfg, es, n, w, At(cfg, es, n).workers[w])
      {
        WorkerStep(cfg, es, n - 1, w);
      }
      forall id | id in At(cfg, es, n).store
        ensures HandoffJustified(cfg, es, n, id, At(cfg, es, n).store[id])
      {
        HandoffStep(cfg, es, n - 1, id);
      }
    }
  }

  // ---- The theorems ----

  /** Step j is a validation for request q, and from the answer's bytes the game server reads that it succeeded, for this
      very account and login word and with the account id of session s, which was there. */
  ghost predicate Grants(cfg: Config, es: seq<Step>, j: nat, q: Request, s: Session)
    requires j < |es|
  {
    var store := At(cfg, es, j).store;
    es[j].Validate? && ParseRequest(es[j].body) == Some(q) && q.loginOk1 in store && store[q.loginOk1] == s
    && GameServerReads(FieldsBytes(Verdict(cfg.fold, store, q, es[j].now).fields))
       == Some(Told(q.account, 1, q.loginOk1, s.accountId))
  }

  lemma GrantMeaning(cfg: Config, es: seq<Step>, j: nat, q: Request, s: Session)
    requires j < |es| && es[j].Validate? && ParseRequest(es[j].body) == Some(q)
    ensures Grants(cfg, es, j, q, s) <==>
            Honoured(cfg.fold, At(cfg, es, j).store, q, es[j].now) && At(cfg, es, j).store[q.loginOk1] == s
  {
    hide At, ParseRequest, GameServerReads, Verdict, FieldsBytes;
    RequestNulFree(es[j].body);
    VerdictRead(cfg.fold, At(cfg, es, j).store, q, es[j].now);
  }

  /** Provenance. Behind every successful validation, over all interleavings, lies one client that, in this order, passed
      AuthGG with its own session id; sent the login packet whose blocks its worker still held when it committed; had the
      database accept the name and password decrypted from those very blocks, with the row whose id is reported; committed
      that name and row; asked for the server list with its own login words; and put the handoff, at most the TTL before.
      Its four key words are the four presented, its account is the requested one up to case, and nobody has asked for the
      handoff since. */
  lemma ValidationProvenance(cfg: Config, es: seq<Step>, j: nat, q: Request, s: Session) returns (p: Path)
    requires j < |es| && Ordered(es) && Grants(cfg, es, j, q, s)
    ensures p.gg < p.start < p.auth < p.commit < p.list < p.put < j
    ensures PassedGG(cfg, es, p.gg, p.client)
    ensures StartedLogin(cfg, es, p.start, p.client, p.worker, p.blocks)
    ensures Running(cfg, es, p.start, p.commit, p.client, p.worker, p.blocks)
    ensures PassedDatabase(cfg, es, p.auth, p.client, p.worker, p.blocks, s.account, p.row) && p.row.id == s.accountId
    ensures CommittedLogin(cfg, es, p.commit, p.client, p.worker, s.account, p.row)
    ensures PassedList(cfg, es, p.list, p.client)
    ensures PutHandoff(cfg, es, p.put, p.client)
    ensures es[p.put].now <= es[j].now <= es[p.put].now + cfg.ttl
    ensures At(cfg, es, p.put).clients[p.client].key == SessionKey(q.loginOk1, q.loginOk2, q.playOk1, q.playOk2)
    ensures EqualFold(cfg.fold, s.account, q.account)
    ensures forall k :: p.put < k < j ==> !Asks(es, k, q.loginOk1)
  {
    hide PassedGG, StartedLogin, Running, PassedDatabase, CommittedLogin, PassedList, At, ClientJustified,
         WorkerJustified, ParseRequest, SessionKey.CheckPlayPair;
    hide GameServerReads, Verdict, FieldsBytes;
    AlwaysJustified(cfg, es, j);
    GrantMeaning(cfg, es, j, q, s);
    assert HandoffJustified(cfg, es, j, q.loginOk1, s);
    p :| HandoffPath(cfg, es, j, p, q.loginOk1, s);
  }

  /** Single use: a later success under the same login word goes back to a put after the earlier success. */
  lemma PutsUsedOnce(cfg: Config, es: seq<Step>, i: nat, j: nat, q: Request, q': Request, s: Session, s': Session)
    returns (p: Path, p': Path)
    requires i < j < |es| && Ordered(es) && Grants(cfg, es, i, q, s) && Grants(cfg, es, j, q', s')
    requires q.loginOk1 == q'.loginOk1
    ensures p.put < i < p'.put < j
    ensures PutHandoff(cfg, es, p.put, p.client) && PutHandoff(cfg, es, p'.put, p'.client)
  {
    hide At, ParseRequest, HandsOff, GameServerReads, Verdict, FieldsBytes, PassedGG, StartedLogin, Running, PassedDatabase, CommittedLogin, PassedList;
    p := ValidationProvenance(cfg, es, i, q, s);
    p' := ValidationProvenance(cfg, es, j, q', s');
    assert Asks(es, i, q'.loginOk1);
    assert p'.put != i;
  }

  ghost predicate TicksPast(es: seq<Step>) {
    forall i :: 0 <= i < |es| && es[i].Collect? ==> es[i].tick <= es[i].now
  }

  /** Nothing disturbs login word id at step k: no request for it and no other handoff under it. */
  ghost predicate Undisturbed(cfg: Config, es: seq<Step>, k: nat, id: int32)
    requires k < |es|
  {
    !Asks(es, k, id)
    && (es[k].SendGSLogin? && PutHandoff(cfg, es, k, es[k].client) ==>
          At(cfg, es, k).clients[es[k].client].key.loginOk1 != id)
  }

  lemma {:induction false} HandoffStays(cfg: Config, es: seq<Step>, i: nat, n: nat, j: nat, id: int32, s: Session)
    requires i < n <= j < |es| && Ordered(es) && TicksPast(es) && es[j].now <= s.expiresAt
    requires id in At(cfg, es, i + 1).store && At(cfg, es, i + 1).store[id] == s
    requires forall k :: i < k < j ==> Undisturbed(cfg, es, k, id)
    ensures id in At(cfg, es, n).store && At(cfg, es, n).store[id] == s
    decreases n
  {
    hide WorkerName, AfterAuthGG, AfterServerList, AfterGSLogin, AfterCommit, HandsOff, StartsLogin, ParseRequest, Handoff, Answer;
    if n > i + 1 {
      HandoffStays(cfg, es, i, n - 1, j, id, s);
      assert Undisturbed(cfg, es, n - 1, id);
      assert es[n - 1].now <= es[j].now;
    }
  }

  /** The other direction: a handoff that was put is honoured. The matching request succeeds within the TTL unless its
      login word was asked for, or put again, in between; the collector never takes it too early. */
  lemma HandoffHonoured(cfg: Config, es: seq<Step>, i: nat, j: nat, c: ClientId, q: Request)
    requires i < j < |es| && Ordered(es) && TicksPast(es) && PutHandoff(cfg, es, i, c)
    requires es[j].Validate? && ParseRequest(es[j].body) == Some(q) && es[j].now <= es[i].now + cfg.ttl
    requires var r := At(cfg, es, i).clients[c];
             r.key == SessionKey(q.loginOk1, q.loginOk2, q.playOk1, q.playOk2) && EqualFold(cfg.fold, r.account, q.account)
    requires forall k :: i < k < j ==> Undisturbed(cfg, es, k, q.loginOk1)
    ensures Grants(cfg, es, j, q, Handoff(At(cfg, es, i).clients[c], es[i].body, es[i].now, cfg.ttl))
  {
    hide ParseRequest, SessionKey.CheckPlayPair, HandsOff, Undisturbed;
    var r := At(cfg, es, i).clients[c];
    var s := Handoff(r, es[i].body, es[i].now, cfg.ttl);
    assert At(cfg, es, i + 1).store == At(cfg, es, i).store[q.loginOk1 := s];
    HandoffStays(cfg, es, i, j, j, q.loginOk1, s);
    hide Grants;
    GrantMeaning(cfg, es, j, q, s);
  }

  // ---- A client that follows the protocol ----

  /** The packets of one client and one game server, nobody else acting. */
  ghost function HonestRun(sessionId: int32, key: SessionKey, rsa: PrivateKey, block: seq<byte>, server: int32,
                           account: string, now: int, later: int): (es: seq<Step>)
    ensures |es| == 8
  {
    var pair := Int32Bytes(key.loginOk1) + Int32Bytes(key.loginOk2);
    [Connect(0, sessionId, key, rsa, now),
     SendAuthGG(0, Int32Bytes(sessionId), now),
     SendLogin(0, 0, block, now),
     Authenticate(0, now),
     CommitLogin(0, now),
     SendServerList(0, pair, now),
     SendGSLogin(0, pair + Int32Bytes(server), now),
     Validate(StringBytes(account) + (Int32Bytes(key.playOk1) + Int32Bytes(key.playOk2) + pair), later)]
  }

  lemma Int32Written(pre: seq<byte>, v: int32, post: seq<byte>, i: nat)
    requires |pre| == 4 * i
    ensures |Int32Bytes(v)| == 4 && Int32At(pre + Int32Bytes(v) + post, i) == v
  {
    hide Le32, Word;
    WordOfLe(pre, ToU32(v), post);
  }

  lemma PairWritten(a: int32, b: int32, post: seq<byte>)
    ensures var s := Int32Bytes(a) + Int32Bytes(b) + post;
            |s| == 8 + |post| && Int32At(s, 0) == a && Int32At(s, 1) == b
  {
    hide Int32Bytes, Int32At;
    Int32Written([], a, Int32Bytes(b) + post, 0);
    Int32Written(Int32Bytes(a), b, post, 1);
    assert [] + Int32Bytes(a) + (Int32Bytes(b) + post) == Int32Bytes(a) + Int32Bytes(b) + post;
  }

  lemma OwnPairWritten(r: Record, post: seq<byte>)
    ensures OwnLoginPair(r, Int32Bytes(r.key.loginOk1) + Int32Bytes(r.key.loginOk2) + post)
  {
    hide Int32Bytes, Int32At;
    PairWritten(r.key.loginOk1, r.key.loginOk2, post);
    ChecksAreEquality(r.key, r.key.loginOk1, r.key.loginOk2, 0, 0);
  }

  lemma RequestWritten(account: string, key: SessionKey)
    requires '\0' !in account
    ensures var pair := Int32Bytes(key.loginOk1) + Int32Bytes(key.loginOk2);
            ParseRequest(StringBytes(account) + (Int32Bytes(key.playOk1) + Int32Bytes(key.playOk2) + pair))
            == Some(Request(account, key.playOk1, key.playOk2, key.loginOk1, key.loginOk2))
  {
    hide Int32Bytes, Int32At, TakeString, StringBytes;
    var (a, b, c, d) := (Int32Bytes(key.playOk1), Int32Bytes(key.playOk2), Int32Bytes(key.loginOk1), Int32Bytes(key.loginOk2));
    var rest := a + b + (c + d);
    StringRoundTrip(account, rest);
    assert (StringBytes(account) + rest)[|StringBytes(account)|..] == rest;
    PairWritten(key.playOk1, key.playOk2, c + d);
    Int32Written(a + b, key.loginOk1, d, 2);
    Int32Written(a + b + c, key.loginOk2, [], 3);
    assert a + b + c + d == rest && a + b + c + d + [] == rest;
  }

  /** The name an honest client logs in under: the one its block decrypts to. */
  ghost function HonestName(cfg: Config, rsa: PrivateKey, block: seq<byte>): string {
    WorkerName(cfg, rsa, (block, None))
  }

  /** The first three steps start a worker on the client's block. */
  lemma HonestStart(cfg: Config, sessionId: int32, key: SessionKey, rsa: PrivateKey, block: seq<byte>, server: int32,
                    account: string, now: int, later: int)
    requires |block| == RSA_MODULUS_SIZE
    ensures var es := HonestRun(sessionId, key, rsa, block, server, account, now, later);
            At(cfg, es, 3) == System(map[0 := Record(AuthedGG, sessionId, key, rsa, "", 0, 0)],
                                     map[0 := Worker(0, (block, None), None)], map[])
  {
    hide Int32Bytes, Int32At, StringBytes, Answer, WorkerName;
    var es := HonestRun(sessionId, key, rsa, block, server, account, now, later);
    var r := Record(Connected, sessionId, key, rsa, "", 0, 0);
    assert At(cfg, es, 0) == INITIAL;
    assert At(cfg, es, 1) == System(map[0 := r], map[], map[]);
    Int32Written([], sessionId, [], 0);
    assert [] + Int32Bytes(sessionId) + [] == Int32Bytes(sessionId);
    assert At(cfg, es, 2) == System(map[0 := r.(state := AuthedGG)], map[], map[]);
    assert block[..128] == block && LoginBlocks(block) == Some((block, None));
  }

  /** The next two log it in. */
  lemma HonestLogin(cfg: Config, sessionId: int32, key: SessionKey, rsa: PrivateKey, block: seq<byte>, row: Row,
                    server: int32, account: string, now: int, later: int)
    requires |block| == RSA_MODULUS_SIZE && Accepts(cfg, rsa, (block, None), HonestName(cfg, rsa, block), row, now)
    ensures var es := HonestRun(sessionId, key, rsa, block, server, account, now, later);
            var s := At(cfg, es, 5);
            s.store == map[] && 0 in s.clients
            && s.clients[0] == Record(AuthedLogin, sessionId, key, rsa, HonestName(cfg, rsa, block), row.id, row.lastServer)
  {
    hide Int32Bytes, WorkerName, Accepts, Answer, StringBytes, StartsLogin, At;
    var es := HonestRun(sessionId, key, rsa, block, server, account, now, later);
    HonestStart(cfg, sessionId, key, rsa, block, server, account, now, later);
    FollowedBy(cfg, es, 3);
    FollowedBy(cfg, es, 4);
    assert Answer(cfg, rsa, (block, None), now) == Some(row);
    assert At(cfg, es, 4).workers == map[0 := Worker(0, (block, None), Some(row))];
  }

  /** The client asks for the list. */
  lemma HonestListed(cfg: Config, sessionId: int32, key: SessionKey, rsa: PrivateKey, block: seq<byte>, row: Row,
                     server: int32, account: string, now: int, later: int)
    requires |block| == RSA_MODULUS_SIZE && Accepts(cfg, rsa, (block, None), HonestName(cfg, rsa, block), row, now)
    ensures var es := HonestRun(sessionId, key, rsa, block, server, account, now, later);
            var s := At(cfg, es, 6);
            s.store == map[] && 0 in s.clients
            && s.clients[0] == Record(ServerListed, sessionId, key, rsa, HonestName(cfg, rsa, block), row.id, row.lastServer)
  {
    hide Int32Bytes, Accepts, HonestName, OwnLoginPair, StringBytes, At;
    var es := HonestRun(sessionId, key, rsa, block, server, account, now, later);
    HonestLogin(cfg, sessionId, key, rsa, block, row, server, account, now, later);
    FollowedBy(cfg, es, 5);
    OwnPairWritten(At(cfg, es, 5).clients[0], []);
    assert Int32Bytes(key.loginOk1) + Int32Bytes(key.loginOk2) + [] == es[5].body;
  }

  lemma HandsOffWritten(r: Record, server: int32)
    requires r.state == ServerListed && InRange(server)
    ensures var body := Int32Bytes(r.key.loginOk1) + Int32Bytes(r.key.loginOk2) + Int32Bytes(server);
            HandsOff(r, body) && Int32At(body, 2) == server
  {
    hide Int32Bytes, Int32At, OwnLoginPair;
    var pair := Int32Bytes(r.key.loginOk1) + Int32Bytes(r.key.loginOk2);
    OwnPairWritten(r, Int32Bytes(server));
    PairWritten(r.key.loginOk1, r.key.loginOk2, []);
    assert pair + [] == pair;
    Int32Written(pair, server, [], 2);
    assert pair + Int32Bytes(server) + [] == pair + Int32Bytes(server);
  }

  /** Provenance is not empty: a client that follows the protocol, with any keys and with credentials the database accepts,
      is let into the game under its own name and id within the TTL. */
  lemma HonestClientSucceeds(cfg: Config, sessionId: int32, key: SessionKey, rsa: PrivateKey, block: seq<byte>, row: Row,
                             server: int32, account: string, now: int, later: int)
    requires |block| == RSA_MODULUS_SIZE && Accepts(cfg, rsa, (block, None), HonestName(cfg, rsa, block), row, now)
    requires InRange(server) && '\0' !in account
    requires now <= later <= now + cfg.ttl && EqualFold(cfg.fold, HonestName(cfg, rsa, block), account)
    ensures Grants(cfg, HonestRun(sessionId, key, rsa, block, server, account, now, later), 7,
                   Request(account, key.playOk1, key.playOk2, key.loginOk1, key.loginOk2),
                   Session(now + cfg.ttl, key, HonestName(cfg, rsa, block), row.id, server))
  {
    hide Int32Bytes, Int32At, Accepts, HonestName, OwnLoginPair, StringBytes, ParseRequest, SessionKey.CheckPlayPair, At,
         HandsOff;
    var es := HonestRun(sessionId, key, rsa, block, server, account, now, later);
    HonestListed(cfg, sessionId, key, rsa, block, row, server, account, now, later);
    HandsOffWritten(At(cfg, es, 6).clients[0], server);
    FollowedBy(cfg, es, 6);
    RequestWritten(account, key);
    hide Grants;
    GrantMeaning(cfg, es, 7, Request(account, key.playOk1, key.playOk2, key.loginOk1, key.loginOk2),
                 Session(now + cfg.ttl, key, HonestName(cfg, rsa, block), row.id, server));
  }

  lemma Started(cfg: Config, es: seq<Step>)
    ensures At(cfg, es, 0) == INITIAL
  {
  }

  lemma FollowedBy(cfg: Config, es: seq<Step>, n: nat)
    requires n < |es|
    ensures At(cfg, es, n + 1) == Next(cfg, At(cfg, es, n), es[n])
  {
  }

  // ---- A client's state can go back ----

  function Rank(st: State): nat {
    match st case Connected => 0 case AuthedGG => 1 case AuthedLogin => 2 case ServerListed => 3
  }

  /** AuthGG once more after logging in, or the commit of another worker after the server list. */
  ghost predicate SetsBack(s: System, e: Step, c: ClientId)
    requires c in s.clients
  {
    var st := s.clients[c].state;
    || (e.SendAuthGG? && e.client == c && OwnSessionId(s.clients[c], e.body) && (st == AuthedLogin || st == ServerListed))
    || (e.CommitLogin? && e.worker in s.workers && s.workers[e.worker].client == c && s.workers[e.worker].row.Some?
        && st == ServerListed)
  }

  /** Exactly these steps lower a client's state. */
  lemma StateLowered(cfg: Config, s: System, e: Step, c: ClientId)
    requires c in s.clients
    ensures c in Next(cfg, s, e).clients
            && (Rank(Next(cfg, s, e).clients[c].state) < Rank(s.clients[c].state) <==> SetsBack(s, e, c))
  {
    hide WorkerName, Answer, StartsLogin, OwnSessionId, OwnLoginPair, ParseRequest, Handoff, Rank;
    RankOrder();
    if e.SendGSLogin? && e.client == c && HandsOff(s.clients[c], e.body) {
      hide HandsOff;
      assert AfterGSLogin(s.clients[c], e.body).state == s.clients[c].state;
    }
  }

  lemma RankOrder()
    ensures Rank(Connected) < Rank(AuthedGG) < Rank(AuthedLogin) < Rank(ServerListed)
  {
  }

  /** Both happen: a client on the server list that sends AuthGG again, and one whose second worker commits only then. */
  ghost function BackRun(sessionId: int32, key: SessionKey, rsa: PrivateKey, block: seq<byte>, last: Step): (es: seq<Step>)
    ensures |es| == 9
  {
    [Connect(0, sessionId, key, rsa, 0), SendAuthGG(0, Int32Bytes(sessionId), 0), SendLogin(0, 0, block, 0),
     SendLogin(0, 1, block, 0), Authenticate(0, 0), Authenticate(1, 0), CommitLogin(0, 0),
     SendServerList(0, Int32Bytes(key.loginOk1) + Int32Bytes(key.loginOk2), 0), last]
  }

  lemma BackStart(cfg: Config, sessionId: int32, key: SessionKey, rsa: PrivateKey, block: seq<byte>, last: Step)
    requires |block| == RSA_MODULUS_SIZE
    ensures var k := Worker(0, (block, None), None);
            At(cfg, BackRun(sessionId, key, rsa, block, last), 4)
            == System(map[0 := Record(AuthedGG, sessionId, key, rsa, "", 0, 0)], map[0 := k, 1 := k], map[])
  {
    hide Int32Bytes, Int32At, Answer, WorkerName, At;
    var es := BackRun(sessionId, key, rsa, block, last);
    Started(cfg, es);
    FollowedBy(cfg, es, 0);
    FollowedBy(cfg, es, 1);
    FollowedBy(cfg, es, 2);
    FollowedBy(cfg, es, 3);
    var r := Record(Connected, sessionId, key, rsa, "", 0, 0);
    var (r', k) := (r.(state := AuthedGG), Worker(0, (block, None), None));
    assert At(cfg, es, 1) == System(map[0 := r], map[], map[]);
    Int32Written([], sessionId, [], 0);
    assert [] + Int32Bytes(sessionId) + [] == Int32Bytes(sessionId);
    assert At(cfg, es, 2) == System(map[0 := r'], map[], map[]);
    assert block[..128] == block && LoginBlocks(block) == Some((block, None));
    assert StartsLogin(r', block) == Some((block, None));
    hide StartsLogin;
    assert At(cfg, es, 3) == System(map[0 := r'], map[0 := k], map[]);
  }

  lemma BackAccepted(cfg: Config, sessionId: int32, key: SessionKey, rsa: PrivateKey, block: seq<byte>, row: Row,
                     last: Step)
    requires |block| == RSA_MODULUS_SIZE && Accepts(cfg, rsa, (block, None), HonestName(cfg, rsa, block), row, 0)
    ensures var k := Worker(0, (block, None), Some(row));
            At(cfg, BackRun(sessionId, key, rsa, block, last), 6)
            == System(map[0 := Record(AuthedGG, sessionId, key, rsa, "", 0, 0)], map[0 := k, 1 := k], map[])
  {
    hide Int32Bytes, Accepts, Answer, WorkerName, StartsLogin, At;
    var es := BackRun(sessionId, key, rsa, block, last);
    FollowedBy(cfg, es, 4);
    FollowedBy(cfg, es, 5);
    BackStart(cfg, sessionId, key, rsa, block, last);
    assert Answer(cfg, rsa, (block, None), 0) == Some(row);
    var (s, k) := (At(cfg, es, 4), Worker(0, (block, None), None));
    assert At(cfg, es, 5) == s.(workers := map[0 := k.(row := Some(row)), 1 := k]);
  }

  lemma BackListed(cfg: Config, sessionId: int32, key: SessionKey, rsa: PrivateKey, block: seq<byte>, row: Row,
                   last: Step)
    requires |block| == RSA_MODULUS_SIZE && Accepts(cfg, rsa, (block, None), HonestName(cfg, rsa, block), row, 0)
    ensures var s := At(cfg, BackRun(sessionId, key, rsa, block, last), 8);
            && 0 in s.clients && s.clients[0].state == ServerListed && s.clients[0].sessionId == sessionId
            && s.workers == map[1 := Worker(0, (block, None), Some(row))]
  {
    hide Int32Bytes, Accepts, WorkerName, OwnLoginPair, HonestName, At, AfterAuthGG, Answer, StartsLogin, ParseRequest;
    var es := BackRun(sessionId, key, rsa, block, last);
    BackAccepted(cfg, sessionId, key, rsa, block, row, last);
    FollowedBy(cfg, es, 6);
    FollowedBy(cfg, es, 7);
    var s := At(cfg, es, 7);
    assert s.workers == map[1 := Worker(0, (block, None), Some(row))];
    OwnPairWritten(s.clients[0], []);
    assert Int32Bytes(key.loginOk1) + Int32Bytes(key.loginOk2) + [] == es[7].body;
  }

  lemma SetBack(cfg: Config, sessionId: int32, key: SessionKey, rsa: PrivateKey, block: seq<byte>, row: Row, last: Step)
    requires |block| == RSA_MODULUS_SIZE && Accepts(cfg, rsa, (block, None), HonestName(cfg, rsa, block), row, 0)
    requires last == SendAuthGG(0, Int32Bytes(sessionId), 0) || last == CommitLogin(1, 0)
    ensures var s := At(cfg, BackRun(sessionId, key, rsa, block, last), 8);
            0 in s.clients && s.clients[0].state == ServerListed && SetsBack(s, last, 0)
  {
    hide Int32Bytes, Int32At, At, Next, Accepts, HonestName;
    BackListed(cfg, sessionId, key, rsa, block, row, last);
    Int32Written([], sessionId, [], 0);
    assert [] + Int32Bytes(sessionId) + [] == Int32Bytes(sessionId);
  }
}
