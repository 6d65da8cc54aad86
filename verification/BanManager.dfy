/** internal/service/ban_manager.go: failed logins per address, and bans with lazy expiry. Writing bans to the database is
    left out; the bans loaded from it at start-up are a parameter. */
module BanManagers {
  import opened Arithmetic
  import opened Sharding
  import opened Wrappers

  datatype Policy<!A> = Policy(maxAttempts: int, banDuration: int, isLoopback: A -> bool)

  /** The attempts and ipBans maps. */
  datatype BanState<A> = BanState(attempts: map<A, int>, bans: map<A, int>)

  function Failures<A>(s: BanState<A>, ip: A): int {
    if ip in s.attempts then s.attempts[ip] else 0
  }

  function Failed<A>(p: Policy<A>, s: BanState<A>, ip: A, now: int): BanState<A> {
    if p.isLoopback(ip) then s
    else if Failures(s, ip) + 1 >= p.maxAttempts then
      BanState(s.attempts - {ip}, s.bans[ip := now + p.banDuration])
    else s.(attempts := s.attempts[ip := Failures(s, ip) + 1])
  }

  function Reset<A>(s: BanState<A>, ip: A): BanState<A> {
    s.(attempts := s.attempts - {ip})
  }

  function Banned<A>(p: Policy<A>, s: BanState<A>, ip: A, now: int): bool {
    !p.isLoopback(ip) && ip in s.bans && now <= s.bans[ip]
  }

  /** Asking about an address drops its ban once that has run out. */
  function Asked<A>(p: Policy<A>, s: BanState<A>, ip: A, now: int): BanState<A> {
    if !p.isLoopback(ip) && ip in s.bans && now > s.bans[ip] then s.(bans := s.bans - {ip}) else s
  }

  /** What IsBanned knows after its first lock: it sees no ban, a ban that holds, or one that has run out. */
  function Looked<A>(p: Policy<A>, s: BanState<A>, ip: A, read: int): Option<bool> {
    if p.isLoopback(ip) || ip !in s.bans then Some(false)
    else if read > s.bans[ip] then None
    else Some(true)
  }

  /** What it answers after its second: anything but an expired ban counts as a ban, a missing one too. */
  function Rechecked<A>(s: BanState<A>, ip: A, now: int): bool {
    !(ip in s.bans && now > s.bans[ip])
  }

  // ---- The code ----

  class BanManager<A(==, !new)> {
    const policy: Policy<A>
    var ipBans: map<A, int>
    var attempts: map<A, int>

    ghost function Value(): BanState<A>
      reads this
    {
      BanState(attempts, ipBans)
    }

    constructor (policy: Policy<A>, loaded: map<A, int>)
      ensures this.policy == policy && Value() == BanState(map[], loaded)
    {
      this.policy := policy;
      ipBans := loaded;
      attempts := map[];
    }

    /** IsBanned up to its second lock: the answer, or none yet if the ban it saw has run out. The clock is read after the
        first lock is released. */
    method Look(ip: A, read: int) returns (banned: Option<bool>)
      ensures banned == Looked(policy, Value(), ip, read)
    {
      if policy.isLoopback(ip) {
        return Some(false);
      }
      if ip !in ipBans {
        return Some(false);
      }
      var expiry := ipBans[ip];
      if read > expiry {
        return None;
      }
      return Some(true);
    }

    /** IsBanned under its second lock, which not every caller reaches. */
    method Recheck(ip: A, now: int) returns (banned: bool)
      requires !policy.isLoopback(ip)
      modifies this
      ensures banned == Rechecked(old(Value()), ip, now)
      ensures Value() == Asked(policy, old(Value()), ip, now)
    {
      if ip in ipBans && now > ipBans[ip] {
        ipBans := ipBans - {ip};
        return false;
      }
      return true;
    }

    /** The whole of IsBanned when nobody else runs between the two locks. */
    method IsBanned(ip: A, now: int, later: int) returns (banned: bool)
      requires now <= later
      modifies this
      ensures banned == Banned(policy, old(Value()), ip, now)
      ensures Value() == Asked(policy, old(Value()), ip, now)
    {
      var answer := Look(ip, now);
      if answer.Some? {
        return answer.value;
      }
      banned := Recheck(ip, later);
    }

    method RecordFailure(ip: A, now: int)
      modifies this
      ensures Value() == Failed(policy, old(Value()), ip, now)
      ensures policy.isLoopback(ip) ==> Value() == old(Value())
    {
      if policy.isLoopback(ip) {
        return;
      }
      attempts := attempts[ip := (if ip in attempts then attempts[ip] else 0) + 1];
      var count := attempts[ip];
      if count >= policy.maxAttempts {
        ipBans := ipBans[ip := now + policy.banDuration];
        attempts := attempts - {ip};
        assert attempts == old(attempts) - {ip};
      }
    }

    method ResetAttempts(ip: A)
      modifies this
      ensures Value() == Reset(old(Value()), ip)
    {
      attempts := attempts - {ip};
    }
  }

  // ---- Runs ----

  datatype Event<A> = Failure(ip: A, now: int) | Resetting(ip: A, now: int) | Asking(ip: A, now: int)

  ghost predicate Ordered<A>(es: seq<Event<A>>) {
    forall i, j :: 0 <= i < j < |es| ==> es[i].now <= es[j].now
  }

  ghost function Step<A>(p: Policy<A>, s: BanState<A>, e: Event<A>): BanState<A> {
    match e
    case Failure(ip, now) => Failed(p, s, ip, now)
    case Resetting(ip, _) => Reset(s, ip)
    case Asking(ip, now) => Asked(p, s, ip, now)
  }

  ghost function After<A>(p: Policy<A>, loaded: map<A, int>, es: seq<Event<A>>): BanState<A> {
    if es == [] then BanState(map[], loaded) else Step(p, After(p, loaded, es[..|es| - 1]), es[|es| - 1])
  }

  /** Failures of an address since its attempts were last reset: a plain count over the history. */
  function SinceReset<A(==)>(es: seq<Event<A>>, ip: A): nat {
    if es == [] then 0
    else
      var (init, e) := (es[..|es| - 1], es[|es| - 1]);
      if e.ip != ip then SinceReset(init, ip)
      else match e
        case Failure(_, _) => SinceReset(init, ip) + 1
        case Resetting(_, _) => 0
        case Asking(_, _) => SinceReset(init, ip)
  }

  /** A threshold below one bans at once, like one. */
  function Threshold<A>(p: Policy<A>): (n: nat)
    ensures n > 0
  {
    if p.maxAttempts < 1 then 1 else p.maxAttempts
  }

  /** The expiry of the latest ban the history calls for: a ban falls due at every failure that brings the count since the
      last reset to a multiple of the threshold. */
  ghost function DueBan<A>(p: Policy<A>, loaded: map<A, int>, es: seq<Event<A>>, ip: A): Option<int> {
    if es == [] then if ip in loaded then Some(loaded[ip]) else None
    else
      var e := es[|es| - 1];
      if e.Failure? && e.ip == ip && SinceReset(es, ip) % Threshold(p) == 0 then Some(e.now + p.banDuration)
      else DueBan(p, loaded, es[..|es| - 1], ip)
  }

  /** A failure, as one address sees it: it counts, or it bans and starts over; those of other addresses are not seen. */
  lemma FailedEffect<A>(p: Policy<A>, s: BanState<A>, a: A, now: int, ip: A)
    requires !p.isLoopback(ip)
    ensures var (t, n) := (Failed(p, s, a, now), Failures(s, ip) + 1);
            Failures(t, ip) == (if a != ip then n - 1 else if n >= p.maxAttempts then 0 else n)
            && Lookup(t.bans, ip) == if a == ip && n >= p.maxAttempts then Some(now + p.banDuration) else Lookup(s.bans, ip)
  {
  }

  lemma ResetEffect<A>(s: BanState<A>, a: A, ip: A)
    ensures Failures(Reset(s, a), ip) == (if a == ip then 0 else Failures(s, ip)) && Reset(s, a).bans == s.bans
  {
  }

  lemma AskedEffect<A>(p: Policy<A>, s: BanState<A>, a: A, now: int, ip: A)
    requires !p.isLoopback(ip)
    ensures var t := Asked(p, s, a, now);
            Failures(t, ip) == Failures(s, ip)
            && Lookup(t.bans, ip) == if a == ip && ip in s.bans && now > s.bans[ip] then None else Lookup(s.bans, ip)
  {
  }

  /** What is left of n failures after the bans they caused. */
  function Left<A>(p: Policy<A>, n: nat): nat {
    n % Threshold(p)
  }

  /** The count after one more failure. */
  lemma NextCount<A>(p: Policy<A>, n: nat)
    ensures Left(p, 0) == 0
    ensures Left(p, n + 1) == (if Left(p, n) + 1 >= p.maxAttempts then 0 else Left(p, n) + 1)
    ensures Left(p, n + 1) == 0 <==> Left(p, n) + 1 >= p.maxAttempts
  {
    ModUnique(0, 0, Threshold(p), 0);
    ModNext(n, Threshold(p));
  }

  /** The stored count is the remainder of the failures since the last reset: it stays below the threshold, and it wraps to
      zero exactly when a ban falls due. */
  lemma {:induction false} StoredCount<A>(p: Policy<A>, loaded: map<A, int>, es: seq<Event<A>>, ip: A)
    requires !p.isLoopback(ip)
    ensures Failures(After(p, loaded, es), ip) == SinceReset(es, ip) % Threshold(p)
    ensures p.maxAttempts >= 1 ==> Failures(After(p, loaded, es), ip) == SinceReset(es, ip) % p.maxAttempts < p.maxAttempts
    ensures p.maxAttempts < 1 ==> Failures(After(p, loaded, es), ip) == 0
  {
    if es != [] {
      hide Failed, Reset, Asked, Failures, Threshold;
      var (init, e) := (es[..|es| - 1], es[|es| - 1]);
      StoredCount(p, loaded, init, ip);
      var s := After(p, loaded, init);
      match e
      case Failure(a, now) => FailedEffect(p, s, a, now, ip); NextCount(p, SinceReset(init, ip));
      case Resetting(a, _) => ResetEffect(s, a, ip); NextCount(p, 0);
      case Asking(a, now) => AskedEffect(p, s, a, now, ip);
    }
  }

  /** A loopback address never has a failure counted and never gets a ban; asking about it drops none. */
  lemma {:induction false} LoopbackExempt<A>(p: Policy<A>, loaded: map<A, int>, es: seq<Event<A>>, ip: A, now: int)
    requires p.isLoopback(ip)
    ensures var s := After(p, loaded, es);
            ip !in s.attempts && Lookup(s.bans, ip) == Lookup(loaded, ip) && !Banned(p, s, ip, now)
  {
    if es != [] {
      LoopbackExempt(p, loaded, es[..|es| - 1], ip, now);
    }
  }

  /** A failure installs a ban if and only if it is the one the history calls for. */
  lemma BanExactlyWhenDue<A>(p: Policy<A>, loaded: map<A, int>, es: seq<Event<A>>, ip: A, now: int)
    requires !p.isLoopback(ip)
    ensures var s := After(p, loaded, es);
            Failed(p, s, ip, now).bans ==
            if p.maxAttempts < 1 || (SinceReset(es, ip) + 1) % p.maxAttempts == 0
            then s.bans[ip := now + p.banDuration] else s.bans
  {
    StoredCount(p, loaded, es, ip);
    ModNext(SinceReset(es, ip), Threshold(p));
  }

  /** The stored ban of an address is the due one, or the due one has run out. */
  ghost predicate Tracks(stored: Option<int>, due: Option<int>, now: int) {
    if stored.Some? then due == stored else due.Some? ==> due.value < now
  }

  lemma {:induction false} AlwaysTracks<A>(p: Policy<A>, loaded: map<A, int>, es: seq<Event<A>>, ip: A)
    requires !p.isLoopback(ip) && Ordered(es) && es != []
    ensures Tracks(Lookup(After(p, loaded, es).bans, ip), DueBan(p, loaded, es, ip), es[|es| - 1].now)
  {
    var (init, e) := (es[..|es| - 1], es[|es| - 1]);
    if init == [] {
      assert After(p, loaded, init) == BanState(map[], loaded);
      assert DueBan(p, loaded, init, ip) == if ip in loaded then Some(loaded[ip]) else None;
    } else {
      AlwaysTracks(p, loaded, init, ip);
    }
    if e.ip == ip && e.Failure? {
      BanExactlyWhenDue(p, loaded, init, ip, e.now);
    }
  }

  /** In every time-ordered run IsBanned, lazy deletion and all, says exactly whether a ban is due and has not run out. */
  lemma IsBannedExact<A>(p: Policy<A>, loaded: map<A, int>, es: seq<Event<A>>, ip: A, now: int)
    requires Ordered(es + [Asking(ip, now)])
    ensures Banned(p, After(p, loaded, es), ip, now) <==>
            !p.isLoopback(ip) && DueBan(p, loaded, es, ip).Some? && now <= DueBan(p, loaded, es, ip).value
  {
    if !p.isLoopback(ip) && es != [] {
      var all := es + [Asking(ip, now)];
      assert forall i, j :: 0 <= i < j < |es| ==> es[i] == all[i] && es[j] == all[j];
      assert all[|es| - 1].now <= all[|es|].now;
      AlwaysTracks(p, loaded, es, ip);
    }
  }

  // ---- Other callers between the two locks ----

  /** A call of IsBanned between its locks: for which address, the clock reading that sent it on, and the step at which it
      looked. */
  datatype Call<A> = Call(ip: A, read: int, began: nat)

  datatype Shared<A> = Shared(bans: BanState<A>, calls: map<nat, Call<A>>)

  /** Looking: the first lock of a call, and the clock reading after it. Rechecking: its second lock, where it has one. */
  datatype Act<A> =
    | Failing(ip: A, now: int)
    | Forgiving(ip: A, now: int)
    | Looking(caller: nat, ip: A, now: int, read: int)
    | Rechecking(caller: nat, now: int)

  ghost predicate Timed<A>(es: seq<Act<A>>) {
    && (forall i, j :: 0 <= i < j < |es| ==> es[i].now <= es[j].now)
    && (forall i :: 0 <= i < |es| && es[i].Looking? ==> es[i].now <= es[i].read)
  }

  /** A caller reaches its second lock only if it is between its locks, and not before its clock reading. */
  predicate Rechecks<A>(s: Shared<A>, e: Act<A>) {
    e.Rechecking? && e.caller in s.calls && s.calls[e.caller].read <= e.now
  }

  ghost function NextShared<A>(p: Policy<A>, s: Shared<A>, e: Act<A>, i: nat): Shared<A> {
    match e
    case Failing(ip, now) => s.(bans := Failed(p, s.bans, ip, now))
    case Forgiving(ip, _) => s.(bans := Reset(s.bans, ip))
    case Looking(c, ip, _, read) =>
      if c in s.calls || Looked(p, s.bans, ip, read).Some? then s
      else s.(calls := s.calls[c := Call(ip, read, i)])
    case Rechecking(c, now) =>
      if !Rechecks(s, e) then s else Shared(Asked(p, s.bans, s.calls[c].ip, now), s.calls - {c})
  }

  ghost function SharedAt<A>(p: Policy<A>, loaded: map<A, int>, es: seq<Act<A>>, n: nat): Shared<A>
    requires n <= |es|
  {
    if n == 0 then Shared(BanState(map[], loaded), map[])
    else NextShared(p, SharedAt(p, loaded, es, n - 1), es[n - 1], n - 1)
  }

  /** The answer some call of IsBanned gives at a step, for which address. */
  ghost function AnswerAt<A>(p: Policy<A>, s: Shared<A>, e: Act<A>): Option<(A, bool)> {
    match e
    case Looking(c, ip, _, read) =>
      if c in s.calls then None
      else (match Looked(p, s.bans, ip, read) case None => None case Some(b) => Some((ip, b)))
    case Rechecking(c, now) =>
      if Rechecks(s, e) then Some((s.calls[c].ip, Rechecked(s.bans, s.calls[c].ip, now))) else None
    case _ => None
  }

  /** The failures and resets among the first n acts: all that decides which bans are due. */
  ghost function History<A>(es: seq<Act<A>>, n: nat): seq<Event<A>>
    requires n <= |es|
  {
    if n == 0 then []
    else match es[n - 1]
      case Failing(ip, now) => History(es, n - 1) + [Event.Failure(ip, now)]
      case Forgiving(ip, now) => History(es, n - 1) + [Resetting(ip, now)]
      case _ => History(es, n - 1)
  }

  /** What should be answered: whether a ban is due by the history and has not run out. */
  ghost predicate TrulyBanned<A>(p: Policy<A>, loaded: map<A, int>, h: seq<Event<A>>, ip: A, now: int) {
    !p.isLoopback(ip) && DueBan(p, loaded, h, ip).Some? && now <= DueBan(p, loaded, h, ip).value
  }

  /** Some call of IsBanned gives a wrong answer at step i. */
  ghost predicate Wrong<A>(p: Policy<A>, loaded: map<A, int>, es: seq<Act<A>>, i: nat)
    requires i < |es|
  {
    var a := AnswerAt(p, SharedAt(p, loaded, es, i), es[i]);
    a.Some? && a.value.1 != TrulyBanned(p, loaded, History(es, i), a.value.0, es[i].now)
  }

  /** At step k a caller's second lock drops the expired ban of an address. */
  ghost predicate Drops<A>(p: Policy<A>, loaded: map<A, int>, es: seq<Act<A>>, k: nat, ip: A)
    requires k < |es|
  {
    var s := SharedAt(p, loaded, es, k);
    Rechecks(s, es[k]) && s.calls[es[k].caller].ip == ip && ip in s.bans.bans && es[k].now > s.bans.bans[ip]
  }

  /** At step m a failure of an address falls due for a ban. */
  ghost predicate Bans<A>(p: Policy<A>, es: seq<Act<A>>, m: nat, ip: A)
    requires m < |es|
  {
    es[m].Failing? && es[m].ip == ip && Left(p, SinceReset(History(es, m), ip) + 1) == 0
  }

  /** Since the call that rechecks at step i looked, another caller has dropped the ban it saw, and no failure has banned
      the address again. */
  ghost predicate LostBan<A>(p: Policy<A>, loaded: map<A, int>, es: seq<Act<A>>, i: nat, k: nat)
    requires i < |es|
  {
    var s := SharedAt(p, loaded, es, i);
    && Rechecks(s, es[i])
    && var call := s.calls[es[i].caller];
       && call.began < k < i && Drops(p, loaded, es, k, call.ip) && es[k].caller != es[i].caller
       && forall m :: k < m < i ==> !Bans(p, es, m, call.ip)
  }

  lemma HistoryNext<A>(p: Policy<A>, loaded: map<A, int>, h: seq<Event<A>>, e: Event<A>, ip: A)
    ensures After(p, loaded, h + [e]) == Step(p, After(p, loaded, h), e)
    ensures !e.Asking? ==> (DueBan(p, loaded, h + [e], ip)
            == if e.Failure? && e.ip == ip && Left(p, SinceReset(h, ip) + 1) == 0 then Some(e.now + p.banDuration)
               else DueBan(p, loaded, h, ip))
    ensures SinceReset(h + [e], ip) == if e.ip != ip || e.Asking? then SinceReset(h, ip)
                                       else if e.Failure? then SinceReset(h, ip) + 1 else 0
  {
    assert (h + [e])[..|h|] == h;
  }

  /** What an act adds to the history. */
  lemma HistoryAct<A>(es: seq<Act<A>>, n: nat)
    requires n < |es|
    ensures History(es, n + 1) == match es[n]
      case Failing(ip, now) => History(es, n) + [Event.Failure(ip, now)]
      case Forgiving(ip, now) => History(es, n) + [Resetting(ip, now)]
      case _ => History(es, n)
  {
  }

  /** What an act does to one address's failures and ban, with the calls put aside. */
  lemma ActEffect<A>(p: Policy<A>, loaded: map<A, int>, es: seq<Act<A>>, n: nat, ip: A)
    requires n < |es| && !p.isLoopback(ip)
    ensures var (s, t, c) := (SharedAt(p, loaded, es, n).bans, SharedAt(p, loaded, es, n + 1).bans, es[n]);
            && Failures(t, ip) == (if c.Failing? && c.ip == ip
                                   then (if Failures(s, ip) + 1 >= p.maxAttempts then 0 else Failures(s, ip) + 1)
                                   else if c.Forgiving? && c.ip == ip then 0 else Failures(s, ip))
            && Lookup(t.bans, ip) == if c.Failing? && c.ip == ip && Failures(s, ip) + 1 >= p.maxAttempts
                                     then Some(c.now + p.banDuration)
                                     else if Drops(p, loaded, es, n, ip) then None else Lookup(s.bans, ip)
  {
    hide Failed, Reset, Asked, Failures, Looked;
    var (sh, c) := (SharedAt(p, loaded, es, n), es[n]);
    assert SharedAt(p, loaded, es, n + 1) == NextShared(p, sh, c, n);
    match c
    case Failing(a, now) => FailedEffect(p, sh.bans, a, now, ip);
    case Forgiving(a, _) => ResetEffect(sh.bans, a, ip);
    case Looking(_, _, _, _) =>
    case Rechecking(k, now) =>
      if Rechecks(sh, c) {
        AskedEffect(p, sh.bans, sh.calls[k].ip, now, ip);
      }
  }

  /** What an act does to one address's history. */
  lemma HistoryEffect<A>(p: Policy<A>, loaded: map<A, int>, es: seq<Act<A>>, n: nat, ip: A)
    requires n < |es|
    ensures var (h, t, c) := (History(es, n), History(es, n + 1), es[n]);
            && SinceReset(t, ip) == (if c.Failing? && c.ip == ip then SinceReset(h, ip) + 1
                                     else if c.Forgiving? && c.ip == ip then 0 else SinceReset(h, ip))
            && DueBan(p, loaded, t, ip)
               == if Bans(p, es, n, ip) then Some(c.now + p.banDuration) else DueBan(p, loaded, h, ip)
  {
    hide SinceReset, DueBan, Left, History;
    HistoryAct(es, n);
    var h := History(es, n);
    match es[n]
    case Failing(a, now) => HistoryNext(p, loaded, h, Event.Failure(a, now), ip);
    case Forgiving(a, now) => HistoryNext(p, loaded, h, Resetting(a, now), ip);
    case _ =>
  }

  /** The stored count follows the history, whoever drops bans. */
  lemma {:induction false} CountsTrack<A>(p: Policy<A>, loaded: map<A, int>, es: seq<Act<A>>, n: nat, ip: A)
    requires n <= |es| && !p.isLoopback(ip)
    ensures Failures(SharedAt(p, loaded, es, n).bans, ip) == Left(p, SinceReset(History(es, n), ip))
  {
    hide SharedAt, Drops, History, Failures, Left, SinceReset, Bans, DueBan, Lookup;
    NextCount(p, 0);
    if n == 0 {
      NoActs(p, loaded, es, ip);
    } else {
      CountsTrack(p, loaded, es, n - 1, ip);
      ActEffect(p, loaded, es, n - 1, ip);
      HistoryEffect(p, loaded, es, n - 1, ip);
      NextCount(p, SinceReset(History(es, n - 1), ip));
    }
  }

  /** An act changes the stored ban of an address only by a due failure or by a drop. */
  lemma BanStep<A>(p: Policy<A>, loaded: map<A, int>, es: seq<Act<A>>, n: nat, ip: A)
    requires n < |es| && !p.isLoopback(ip)
    ensures Lookup(SharedAt(p, loaded, es, n + 1).bans.bans, ip)
            == if Bans(p, es, n, ip) then Some(es[n].now + p.banDuration)
               else if Drops(p, loaded, es, n, ip) then None else Lookup(SharedAt(p, loaded, es, n).bans.bans, ip)
  {
    hide SharedAt, History, Failures, Left, SinceReset, Lookup, Drops;
    CountsTrack(p, loaded, es, n, ip);
    ActEffect(p, loaded, es, n, ip);
    NextCount(p, SinceReset(History(es, n), ip));
  }

  lemma NoActs<A>(p: Policy<A>, loaded: map<A, int>, es: seq<Act<A>>, ip: A)
    ensures DueBan(p, loaded, History(es, 0), ip) == Lookup(SharedAt(p, loaded, es, 0).bans.bans, ip)
    ensures Failures(SharedAt(p, loaded, es, 0).bans, ip) == SinceReset(History(es, 0), ip) == 0
  {
    hide SinceReset;
    assert SharedAt(p, loaded, es, 0).bans == BanState(map[], loaded) && History(es, 0) == [];
    NoHistory(p, loaded, ip);
  }

  lemma NoHistory<A>(p: Policy<A>, loaded: map<A, int>, ip: A)
    ensures DueBan(p, loaded, [], ip) == Lookup(loaded, ip) && SinceReset<A>([], ip) == 0
  {
  }

  lemma {:induction false} BansTrack<A>(p: Policy<A>, loaded: map<A, int>, es: seq<Act<A>>, n: nat, ip: A, now: int)
    requires n <= |es| && !p.isLoopback(ip) && forall i :: 0 <= i < n ==> es[i].now <= now
    ensures Tracks(Lookup(SharedAt(p, loaded, es, n).bans.bans, ip), DueBan(p, loaded, History(es, n), ip), now)
  {
    hide SharedAt, History, DueBan, Lookup, Drops, Bans, SinceReset;
    if n == 0 {
      NoActs(p, loaded, es, ip);
    } else {
      BansTrack(p, loaded, es, n - 1, ip, now);
      BanStep(p, loaded, es, n - 1, ip);
      HistoryEffect(p, loaded, es, n - 1, ip);
      DroppedPast(p, loaded, es, n - 1, ip);
    }
  }

  /** A dropped ban had run out. */
  lemma DroppedPast<A>(p: Policy<A>, loaded: map<A, int>, es: seq<Act<A>>, k: nat, ip: A)
    requires k < |es|
    ensures Drops(p, loaded, es, k, ip) ==> var stored := Lookup(SharedAt(p, loaded, es, k).bans.bans, ip);
                                            stored.Some? && stored.value < es[k].now
  {
  }

  /** A call between its locks looked at a ban, and has been waiting ever since. */
  lemma {:induction false} CallsTrack<A>(p: Policy<A>, loaded: map<A, int>, es: seq<Act<A>>, n: nat, c: nat)
    requires n <= |es| && c in SharedAt(p, loaded, es, n).calls
    ensures var call := SharedAt(p, loaded, es, n).calls[c];
            && call.began < n && es[call.began].Looking? && !p.isLoopback(call.ip)
            && call.ip in SharedAt(p, loaded, es, call.began).bans.bans
            && (forall k :: call.began < k <= n ==>
                  c in SharedAt(p, loaded, es, k).calls && SharedAt(p, loaded, es, k).calls[c] == call)
  {
    hide Failed, Asked;
    if n > 0 && c in SharedAt(p, loaded, es, n - 1).calls {
      CallsTrack(p, loaded, es, n - 1, c);
    }
  }

  lemma {:induction false} LastDrop<A>(p: Policy<A>, loaded: map<A, int>, es: seq<Act<A>>, j: nat, n: nat, ip: A)
    returns (k: nat)
    requires j < n <= |es| && !p.isLoopback(ip) && es[j].Looking?
    requires ip in SharedAt(p, loaded, es, j).bans.bans && ip !in SharedAt(p, loaded, es, n).bans.bans
    ensures j < k < n && Drops(p, loaded, es, k, ip) && forall m :: k < m < n ==> !Bans(p, es, m, ip)
  {
    hide SharedAt, Bans;
    BanStep(p, loaded, es, n - 1, ip);
    if ip in SharedAt(p, loaded, es, n - 1).bans.bans {
      k := n - 1;
    } else {
      k := LastDrop(p, loaded, es, j, n - 1, ip);
    }
  }

  lemma {:induction false} StaysOut<A>(p: Policy<A>, loaded: map<A, int>, es: seq<Act<A>>, k: nat, n: nat, ip: A)
    requires k < n <= |es| && !p.isLoopback(ip) && Drops(p, loaded, es, k, ip)
    requires forall m :: k < m < n ==> !Bans(p, es, m, ip)
    ensures ip !in SharedAt(p, loaded, es, n).bans.bans
    decreases n
  {
    hide SharedAt, Bans;
    BanStep(p, loaded, es, n - 1, ip);
    if n - 1 > k {
      StaysOut(p, loaded, es, k, n - 1, ip);
    } else {
      DropsBanNot(p, loaded, es, k, ip);
    }
  }

  lemma DropsBanNot<A>(p: Policy<A>, loaded: map<A, int>, es: seq<Act<A>>, k: nat, ip: A)
    requires k < |es| && Drops(p, loaded, es, k, ip)
    ensures !Bans(p, es, k, ip)
  {
  }

  /** An answer from the first lock alone is always right. */
  lemma LookingRight<A>(p: Policy<A>, loaded: map<A, int>, es: seq<Act<A>>, i: nat)
    requires Timed(es) && i < |es| && es[i].Looking?
    ensures !Wrong(p, loaded, es, i)
  {
    hide SharedAt, History, DueBan;
    if !p.isLoopback(es[i].ip) {
      BansTrack(p, loaded, es, i, es[i].ip, es[i].now);
    }
  }

  /** An answer from the second lock is wrong exactly if there is no ban there any more. */
  lemma RecheckWrong<A>(p: Policy<A>, loaded: map<A, int>, es: seq<Act<A>>, i: nat)
    requires Timed(es) && i < |es| && Rechecks(SharedAt(p, loaded, es, i), es[i])
    ensures var s := SharedAt(p, loaded, es, i);
            !p.isLoopback(s.calls[es[i].caller].ip)
            && (Wrong(p, loaded, es, i) <==> s.calls[es[i].caller].ip !in s.bans.bans)
  {
    CallsTrack(p, loaded, es, i, es[i].caller);
    hide SharedAt, History, DueBan;
    BansTrack(p, loaded, es, i, SharedAt(p, loaded, es, i).calls[es[i].caller].ip, es[i].now);
  }

  /** In every time-ordered run of any number of callers an answer is wrong if and only if, between the two locks of its
      call, another caller's second lock dropped the address's expired ban and no failure banned it again. */
  lemma SplitAnswerExact<A>(p: Policy<A>, loaded: map<A, int>, es: seq<Act<A>>, i: nat)
    requires Timed(es) && i < |es|
    ensures Wrong(p, loaded, es, i) <==> exists k :: LostBan(p, loaded, es, i, k)
  {
    hide SharedAt, Wrong, Bans, Drops;
    var s := SharedAt(p, loaded, es, i);
    if es[i].Looking? {
      LookingRight(p, loaded, es, i);
    } else if Rechecks(s, es[i]) {
      var c := es[i].caller;
      var call := s.calls[c];
      RecheckWrong(p, loaded, es, i);
      CallsTrack(p, loaded, es, i, c);
      if call.ip !in s.bans.bans {
        var k := LastDrop(p, loaded, es, call.began, i, call.ip);
        DropEnds(p, loaded, es, k, call.ip);
        assert LostBan(p, loaded, es, i, k);
      }
      if k :| LostBan(p, loaded, es, i, k) {
        StaysOut(p, loaded, es, k, i, call.ip);
      }
    } else {
      Unanswered(p, loaded, es, i);
    }
  }

  /** The caller that drops a ban is done. */
  lemma DropEnds<A>(p: Policy<A>, loaded: map<A, int>, es: seq<Act<A>>, k: nat, ip: A)
    requires k < |es| && Drops(p, loaded, es, k, ip)
    ensures es[k].caller !in SharedAt(p, loaded, es, k + 1).calls
  {
  }

  lemma Unanswered<A>(p: Policy<A>, loaded: map<A, int>, es: seq<Act<A>>, i: nat)
    requires i < |es| && !es[i].Looking? && !Rechecks(SharedAt(p, loaded, es, i), es[i])
    ensures !Wrong(p, loaded, es, i)
  {
  }

  /** It does happen: two callers see the same expired ban, and the one whose second lock comes later answers that the
      address is banned. */
  lemma SplitAnswerCanBeWrong()
    ensures var p := Policy(3, 100, (a: int) => false);
            var es: seq<Act<int>> := [Looking(1, 7, 60, 60), Looking(2, 7, 60, 60), Rechecking(1, 60), Rechecking(2, 60)];
            Timed(es) && AnswerAt(p, SharedAt(p, map[7 := 50], es, 3), es[3]) == Some((7, true))
            && Wrong(p, map[7 := 50], es, 3)
  {
    var p := Policy(3, 100, (a: int) => false);
    var loaded := map[7 := 50];
    var es: seq<Act<int>> := [Looking(1, 7, 60, 60), Looking(2, 7, 60, 60), Rechecking(1, 60), Rechecking(2, 60)];
    var b: BanState<int> := BanState(map[], loaded);
    assert SharedAt(p, loaded, es, 0) == Shared(b, map[]);
    assert SharedAt(p, loaded, es, 1) == Shared(b, map[1 := Call(7, 60, 0)]);
    assert SharedAt(p, loaded, es, 2) == Shared(b, map[1 := Call(7, 60, 0), 2 := Call(7, 60, 1)]);
    assert SharedAt(p, loaded, es, 3) == Shared(BanState(map[], map[]), map[2 := Call(7, 60, 1)]);
    assert History(es, 0) == [] && History(es, 1) == [] && History(es, 2) == [] && History(es, 3) == [];
    assert DueBan(p, loaded, [], 7) == Some(50);
  }
}
