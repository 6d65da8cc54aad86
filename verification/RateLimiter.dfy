/** internal/middleware/rate_limiter.go: a sharded fixed-window counter per address. */
module RateLimiters {
  import opened Sharding
  import opened Words

  type Bytes16 = b: seq<byte> | |b| == 16 witness seq(16, i => 0)

  /** A netip.Addr: its 16-byte form, and what tells an IPv4 address, its IPv6-mapped twin and zones apart. */
  datatype Addr = Addr(as16: Bytes16, kind: nat)

  /** FNV-1a over the first n bytes. */
  function Fnv1a(b: seq<byte>, n: nat): uint32
    requires n <= |b|
  {
    if n == 0 then 2166136261 else Xor32(Fnv1a(b, n - 1), b[n - 1]) * 16777619 % 0x1_0000_0000
  }

  /** The published value for the one letter "a". */
  lemma Fnv1aOfA()
    ensures Fnv1a([0x61], 1) == 0xE40C292C
  {
    hide Xor;
    assert Fnv1a([0x61], 0) == 2166136261;
    Widths();
    XorLow(8461469, 0xC5, 0x61, 8);
    MaskC5();
  }

  /** C5 masked with 61, digit by digit. */
  lemma MaskC5()
    ensures Xor(0xC5, 0x61) == 0xA4
  {
    hide Xor;
    XorZero(1);
    XorDigits(1, 1, 1, 0);
    XorDigits(0, 1, 3, 1);
    XorDigits(0, 0, 6, 3);
    XorDigits(0, 0, 12, 6);
    XorDigits(1, 0, 24, 12);
    XorDigits(0, 0, 49, 24);
    XorDigits(1, 1, 98, 48);
  }

  function AddrHash(ip: Addr): uint32 {
    Fnv1a(ip.as16, |ip.as16|)
  }

  datatype Entry = Entry(windowStart: int, count: int)

  datatype Limits = Limits(window: int, limit: int)

  /** Go's map read: a missing entry reads as zeros. */
  function Current(m: map<Addr, Entry>, ip: Addr): Entry {
    if ip in m then m[ip] else Entry(0, 0)
  }

  function Refreshed(l: Limits, e: Entry, now: int): Entry {
    if now - e.windowStart >= l.window then Entry(now, 0) else e
  }

  function Allows(l: Limits, m: map<Addr, Entry>, ip: Addr, now: int): bool {
    Refreshed(l, Current(m, ip), now).count < l.limit
  }

  function AfterAllow(l: Limits, m: map<Addr, Entry>, ip: Addr, now: int): map<Addr, Entry> {
    var e := Refreshed(l, Current(m, ip), now);
    if e.count < l.limit then m[ip := Entry(e.windowStart, e.count + 1)] else m
  }

  function Expired(cutoff: int): (Addr, Entry) -> bool {
    (ip: Addr, e: Entry) => e.windowStart < cutoff
  }

  // ---- The code ----

  class RateLimiter {
    const shards: seq<Shard<Addr, Entry>>
    const limits: Limits
    ghost var Contents: map<Addr, Entry>

    ghost predicate Valid()
      reads this, shards
    {
      Represents(shards, AddrHash, Contents)
    }

    constructor (limit: int32, window: int)
      ensures Valid() && fresh(shards) && Contents == map[] && limits == Limits(window, limit)
    {
      var s := NewShards<Addr, Entry>(AddrHash);
      shards := s;
      limits := Limits(window, limit);
      Contents := map[];
    }

    /** Records an attempt and says whether it is within the limit; the clock is read inside the call. */
    method Allow(ip: Addr, now: int) returns (ok: bool)
      requires Valid()
      modifies this`Contents, shards
      ensures Valid()
      ensures ok == Allows(limits, old(Contents), ip, now)
      ensures Contents == AfterAllow(limits, old(Contents), ip, now)
    {
      hide Represents;
      var at := ShardIndex(ip);
      var found := Get(shards, AddrHash, Contents, at, ip);
      var e := if found.Some? then found.value else Entry(0, 0);
      if now - e.windowStart >= limits.window {
        e := Entry(now, 0);
      }
      if e.count >= limits.limit {
        return false;
      }
      e := e.(count := e.count + 1);
      Set(shards, AddrHash, Contents, at, ip, e);
      Contents := Contents[ip := e];
      ok := true;
    }

    /** Evicts the addresses whose window is older than the limiter's. */
    method Cleanup(now: int)
      requires Valid()
      modifies this`Contents, shards
      ensures Valid()
      ensures forall ip :: ip in Contents <==> ip in old(Contents) && now - old(Contents)[ip].windowStart <= limits.window
      ensures forall ip :: ip in Contents ==> Contents[ip] == old(Contents)[ip]
      ensures Contents == Kept(old(Contents), Expired(now - limits.window))
    {
      hide Represents;
      var cutoff := now - limits.window;
      Sweep(shards, AddrHash, Contents, Expired(cutoff));
      Contents := Kept(Contents, Expired(cutoff));
    }
  }

  method ShardIndex(ip: Addr) returns (i: nat)
    ensures i == Masked(AddrHash(ip)) < SHARD_COUNT
  {
    hide Xor32;
    var h: uint32 := 2166136261;
    for j := 0 to 16
      invariant h == Fnv1a(ip.as16, j)
    {
      h := Xor32(h, ip.as16[j]);
      h := h * 16777619 % 0x1_0000_0000;
    }
    i := Masked(h);
  }

  // ---- Runs ----

  /** A locked step: an attempt, or part of a cleanup pass that computed its cutoff earlier and has reached the addresses
      in scope. */
  datatype Event = Attempt(ip: Addr, now: int) | Cleaning(scope: set<Addr>, startedAt: int, now: int)

  /** One answered attempt. */
  datatype Answer = Answer(ip: Addr, at: int, ok: bool)

  ghost predicate Ordered(es: seq<Event>) {
    && (forall i :: 0 <= i < |es| ==> 0 <= es[i].now && (es[i].Cleaning? ==> es[i].startedAt <= es[i].now))
    && (forall i, j :: 0 <= i < j < |es| ==> es[i].now <= es[j].now)
  }

  function LastTime(es: seq<Event>): int {
    if es == [] then 0 else es[|es| - 1].now
  }

  ghost function Step(l: Limits, m: map<Addr, Entry>, e: Event): map<Addr, Entry> {
    match e
    case Attempt(ip, now) => AfterAllow(l, m, ip, now)
    case Cleaning(scope, startedAt, _) =>
      Kept(m, (ip: Addr, en: Entry) => ip in scope && Expired(startedAt - l.window)(ip, en))
  }

  /** The entries after a run from an empty limiter. */
  ghost function After(l: Limits, es: seq<Event>): map<Addr, Entry> {
    if es == [] then map[] else Step(l, After(l, es[..|es| - 1]), es[|es| - 1])
  }

  /** The answers a run gives, in order. */
  ghost function Log(l: Limits, es: seq<Event>): seq<Answer> {
    if es == [] then []
    else
      var init := es[..|es| - 1];
      match es[|es| - 1]
      case Attempt(ip, now) => Log(l, init) + [Answer(ip, now, Allows(l, After(l, init), ip, now))]
      case Cleaning(_, _, _) => Log(l, init)
  }

  ghost function AttemptsOnly(es: seq<Event>): seq<Event> {
    if es == [] then []
    else
      var init := AttemptsOnly(es[..|es| - 1]);
      if es[|es| - 1].Attempt? then init + [es[|es| - 1]] else init
  }

  /** Admitted attempts of one address in the interval lo .. hi. */
  function Admitted(log: seq<Answer>, ip: Addr, lo: int, hi: int): nat {
    if log == [] then 0
    else
      var a := log[|log| - 1];
      Admitted(log[..|log| - 1], ip, lo, hi) + if a.ip == ip && a.ok && lo <= a.at < hi then 1 else 0
  }

  /** When the last window of an address began, by the answers alone: a window begins with the first admitted attempt at or
      past the window's length after the one before began. Before any, it counts as begun at time zero. */
  function WindowStart(l: Limits, log: seq<Answer>, ip: Addr): int {
    if log == [] then 0
    else
      var (start, a) := (WindowStart(l, log[..|log| - 1], ip), log[|log| - 1]);
      if a.ip == ip && a.ok && a.at - start >= l.window then a.at else start
  }

  /** The start of the window an attempt at `now` falls in: the last one's, or now if that is over. */
  function WindowOf(l: Limits, log: seq<Answer>, ip: Addr, now: int): int {
    var start := WindowStart(l, log, ip);
    if now - start >= l.window then now else start
  }

  function Cap(l: Limits): nat {
    if l.limit > 0 then l.limit else 0
  }

  // ---- Cleanup cannot be observed ----

  ghost predicate Stale(l: Limits, e: Entry, now: int) {
    now - e.windowStart >= l.window
  }

  /** Two limiters that answer alike from `now` on: each address has the same entry in both, or stale ones. */
  ghost predicate Alike(l: Limits, m: map<Addr, Entry>, m': map<Addr, Entry>, now: int) {
    forall ip :: Current(m, ip) == Current(m', ip) || (Stale(l, Current(m, ip), now) && Stale(l, Current(m', ip), now))
  }

  ghost predicate Started(m: map<Addr, Entry>, now: int) {
    forall ip :: ip in m ==> 0 <= m[ip].windowStart <= now
  }

  lemma AlikeLater(l: Limits, m: map<Addr, Entry>, m': map<Addr, Entry>, now: int, later: int)
    requires Alike(l, m, m', now) && now <= later
    ensures Alike(l, m, m', later)
  {
  }

  lemma AlikeSelf(l: Limits, now: int)
    ensures Alike(l, map[], map[], now)
  {
  }

  lemma AlikeAttempt(l: Limits, m: map<Addr, Entry>, m': map<Addr, Entry>, ip: Addr, now: int)
    requires Alike(l, m, m', now)
    ensures Allows(l, m, ip, now) == Allows(l, m', ip, now)
    ensures Alike(l, AfterAllow(l, m, ip, now), AfterAllow(l, m', ip, now), now)
  {
    var (n, n') := (AfterAllow(l, m, ip, now), AfterAllow(l, m', ip, now));
    forall a
      ensures Current(n, a) == Current(n', a) || (Stale(l, Current(n, a), now) && Stale(l, Current(n', a), now))
    {
      assert a != ip ==> Current(n, a) == Current(m, a) && Current(n', a) == Current(m', a);
    }
  }

  lemma AlikeCleaning(l: Limits, m: map<Addr, Entry>, m': map<Addr, Entry>, e: Event)
    requires e.Cleaning? && e.startedAt <= e.now && Alike(l, m, m', e.now) && Started(m, e.now)
    ensures Alike(l, Step(l, m, e), m', e.now)
  {
    var n := Step(l, m, e);
    forall a
      ensures Current(n, a) == Current(m', a) || (Stale(l, Current(n, a), e.now) && Stale(l, Current(m', a), e.now))
    {
      if a in m && a !in n {
        assert m[a].windowStart < e.startedAt - l.window;
      } else {
        assert Current(n, a) == Current(m, a);
      }
    }
  }

  lemma OrderedInit(es: seq<Event>)
    requires Ordered(es) && es != []
    ensures Ordered(es[..|es| - 1]) && 0 <= LastTime(es[..|es| - 1]) <= LastTime(es)
    ensures es[|es| - 1].Cleaning? ==> es[|es| - 1].startedAt <= es[|es| - 1].now
  {
  }

  lemma {:induction false} AlwaysStarted(l: Limits, es: seq<Event>)
    requires Ordered(es)
    ensures Started(After(l, es), LastTime(es))
  {
    if es != [] {
      OrderedInit(es);
      AlwaysStarted(l, es[..|es| - 1]);
    }
  }

  /** Cleanup steps anywhere in a run, with any scope and a cutoff as old as it likes, change no answer. */
  lemma {:induction false} CleanupUnobservable(l: Limits, es: seq<Event>)
    requires Ordered(es)
    ensures Log(l, es) == Log(l, AttemptsOnly(es))
    ensures Alike(l, After(l, es), After(l, AttemptsOnly(es)), LastTime(es))
  {
    hide Ordered, Alike, Started, Allows, AfterAllow, Current;
    if es == [] {
      AlikeSelf(l, 0);
    } else {
      var (init, e) := (es[..|es| - 1], es[|es| - 1]);
      var (m, m') := (After(l, init), After(l, AttemptsOnly(init)));
      OrderedInit(es);
      CleanupUnobservable(l, init);
      AlikeLater(l, m, m', LastTime(init), e.now);
      match e
      case Attempt(ip, now) =>
        var all := AttemptsOnly(es);
        assert all[..|all| - 1] == AttemptsOnly(init);
        AlikeAttempt(l, m, m', ip, now);
      case Cleaning(_, _, now) =>
        AlwaysStarted(l, init);
        AlikeCleaning(l, m, m', e);
    }
  }

  // ---- How many are admitted ----

  ghost predicate OnlyAttempts(es: seq<Event>) {
    forall i :: 0 <= i < |es| ==> es[i].Attempt?
  }

  /** What the entry of an address says about the answers given so far, the last at or before `last`. */
  ghost predicate Accounted(l: Limits, log: seq<Answer>, ip: Addr, e: Entry, last: int) {
    && 0 <= e.windowStart <= last && 0 <= e.count <= Cap(l) && e.windowStart == WindowStart(l, log, ip)
    && (forall i :: 0 <= i < |log| && log[i].ip == ip && log[i].ok ==>
          0 <= log[i].at <= last && log[i].at - e.windowStart < l.window)
    && (forall hi :: hi > last ==> Admitted(log, ip, e.windowStart, hi) == e.count)
  }

  /** How much of the quota of an interval of one window's length can be gone already. */
  ghost predicate Spread(l: Limits, log: seq<Answer>, ip: Addr, e: Entry, lo: int) {
    var n := Admitted(log, ip, lo, lo + l.window);
    && n <= 2 * Cap(l)
    && (e.windowStart < lo ==> n <= e.count)
    && (lo <= e.windowStart < lo + l.window ==> n <= Cap(l) + e.count)
  }

  lemma {:induction false} NoneAdmitted(log: seq<Answer>, ip: Addr, lo: int, hi: int)
    requires forall i :: 0 <= i < |log| && log[i].ip == ip && log[i].ok ==> log[i].at < lo
    ensures Admitted(log, ip, lo, hi) == 0
  {
    if log != [] {
      NoneAdmitted(log[..|log| - 1], ip, lo, hi);
    }
  }

  lemma AdmittedNext(log: seq<Answer>, a: Answer, ip: Addr, lo: int, hi: int)
    ensures Admitted(log + [a], ip, lo, hi)
            == Admitted(log, ip, lo, hi) + if a.ip == ip && a.ok && lo <= a.at < hi then 1 else 0
  {
    assert (log + [a])[..|log|] == log;
  }

  /** The entry an attempt of this address leaves behind. */
  function NextEntry(l: Limits, e: Entry, now: int): Entry {
    var f := Refreshed(l, e, now);
    if f.count < l.limit then Entry(f.windowStart, f.count + 1) else e
  }

  lemma StartNext(l: Limits, log: seq<Answer>, a: Answer, ip: Addr)
    ensures WindowStart(l, log + [a], ip)
            == if a.ip == ip && a.ok && a.at - WindowStart(l, log, ip) >= l.window then a.at else WindowStart(l, log, ip)
  {
    assert (log + [a])[..|log|] == log;
  }

  lemma AccountedNext(l: Limits, log: seq<Answer>, ip: Addr, e: Entry, last: int, now: int)
    requires Accounted(l, log, ip, e, last) && last <= now && l.window > 0
    ensures Accounted(l, log + [Answer(ip, now, Refreshed(l, e, now).count < l.limit)], ip, NextEntry(l, e, now), now)
  {
    hide Admitted, WindowStart;
    var a := Answer(ip, now, Refreshed(l, e, now).count < l.limit);
    StartNext(l, log, a, ip);
    AdmittedTimes(l, log, ip, e, last, a);
    forall hi | hi > now
      ensures Admitted(log + [a], ip, NextEntry(l, e, now).windowStart, hi) == NextEntry(l, e, now).count
    {
      CountedNext(l, log, ip, e, last, now, hi);
    }
  }

  /** Every admission lies in a window no later than the current one's end. */
  lemma AdmittedTimes(l: Limits, log: seq<Answer>, ip: Addr, e: Entry, last: int, a: Answer)
    requires Accounted(l, log, ip, e, last) && last <= a.at && a.ip == ip && l.window > 0
    requires a.ok == (Refreshed(l, e, a.at).count < l.limit)
    ensures var n := NextEntry(l, e, a.at);
            forall i :: 0 <= i < |log + [a]| && (log + [a])[i].ip == ip && (log + [a])[i].ok ==>
              0 <= (log + [a])[i].at <= a.at && (log + [a])[i].at - n.windowStart < l.window
  {
    hide Admitted, WindowStart;
    var (n, all) := (NextEntry(l, e, a.at), log + [a]);
    assert e.windowStart <= n.windowStart;
    forall i | 0 <= i < |all| && all[i].ip == ip && all[i].ok
      ensures 0 <= all[i].at <= a.at && all[i].at - n.windowStart < l.window
    {
      if i < |log| {
        assert all[i] == log[i];
      }
    }
  }

  lemma CountedNext(l: Limits, log: seq<Answer>, ip: Addr, e: Entry, last: int, now: int, hi: int)
    requires Accounted(l, log, ip, e, last) && last <= now < hi && l.window > 0
    ensures var (a, n) := (Answer(ip, now, Refreshed(l, e, now).count < l.limit), NextEntry(l, e, now));
            Admitted(log + [a], ip, n.windowStart, hi) == n.count
  {
    hide Admitted, WindowStart;
    var (a, n) := (Answer(ip, now, Refreshed(l, e, now).count < l.limit), NextEntry(l, e, now));
    AdmittedNext(log, a, ip, n.windowStart, hi);
    assert Admitted(log, ip, e.windowStart, hi) == e.count;
    if a.ok && Stale(l, e, now) {
      NoneAdmitted(log, ip, now, hi);
    }
  }

  lemma AccountedOther(l: Limits, log: seq<Answer>, ip: Addr, e: Entry, last: int, a: Answer)
    requires Accounted(l, log, ip, e, last) && a.ip != ip && last <= a.at
    ensures Accounted(l, log + [a], ip, e, a.at)
  {
    hide Admitted, WindowStart;
    StartNext(l, log, a, ip);
    forall hi | hi > a.at
      ensures Admitted(log + [a], ip, e.windowStart, hi) == e.count
    {
      AdmittedNext(log, a, ip, e.windowStart, hi);
    }
  }

  lemma SpreadNext(l: Limits, log: seq<Answer>, ip: Addr, e: Entry, last: int, now: int, lo: int)
    requires Accounted(l, log, ip, e, last) && last <= now && l.window > 0 && Spread(l, log, ip, e, lo)
    ensures Spread(l, log + [Answer(ip, now, Refreshed(l, e, now).count < l.limit)], ip, NextEntry(l, e, now), lo)
  {
    var a := Answer(ip, now, Refreshed(l, e, now).count < l.limit);
    AdmittedNext(log, a, ip, lo, lo + l.window);
    if now < lo {
      NoneAdmitted(log, ip, lo, lo + l.window);
    }
  }

  lemma {:induction false} CountsKept(l: Limits, es: seq<Event>, ip: Addr, lo: int)
    requires Ordered(es) && OnlyAttempts(es) && l.window > 0
    ensures Accounted(l, Log(l, es), ip, Current(After(l, es), ip), LastTime(es))
    ensures Spread(l, Log(l, es), ip, Current(After(l, es), ip), lo)
  {
    hide Accounted, Spread;
    if es == [] {
      NothingYet(l, ip, lo);
    } else {
      var (init, e) := (es[..|es| - 1], es[|es| - 1]);
      var (m, log) := (After(l, init), Log(l, init));
      OrderedInit(es);
      CountsKept(l, init, ip, lo);
      var a := Answer(e.ip, e.now, Allows(l, m, e.ip, e.now));
      if e.ip == ip {
        AccountedNext(l, log, ip, Current(m, ip), LastTime(init), e.now);
        SpreadNext(l, log, ip, Current(m, ip), LastTime(init), e.now, lo);
      } else {
        AccountedOther(l, log, ip, Current(m, ip), LastTime(init), a);
        SpreadOther(l, log, ip, Current(m, ip), a, lo);
      }
    }
  }

  lemma NothingYet(l: Limits, ip: Addr, lo: int)
    requires l.window > 0
    ensures Accounted(l, [], ip, Entry(0, 0), 0) && Spread(l, [], ip, Entry(0, 0), lo)
  {
  }

  lemma SpreadOther(l: Limits, log: seq<Answer>, ip: Addr, e: Entry, a: Answer, lo: int)
    requires Spread(l, log, ip, e, lo) && a.ip != ip
    ensures Spread(l, log + [a], ip, e, lo)
  {
    AdmittedNext(log, a, ip, lo, lo + l.window);
  }

  lemma {:induction false} AttemptsOrdered(es: seq<Event>)
    requires Ordered(es)
    ensures Ordered(AttemptsOnly(es)) && OnlyAttempts(AttemptsOnly(es)) && LastTime(AttemptsOnly(es)) <= LastTime(es)
  {
    hide Ordered;
    if es == [] {
      OrderedNone();
    } else {
      var (init, e) := (es[..|es| - 1], es[|es| - 1]);
      OrderedInit(es);
      AttemptsOrdered(init);
      if e.Attempt? {
        OrderedSnoc(AttemptsOnly(init), e, LastTime(init));
      }
    }
  }

  lemma OrderedNone()
    ensures Ordered([])
  {
  }

  lemma OrderedSnoc(es: seq<Event>, e: Event, last: int)
    requires Ordered(es) && LastTime(es) <= last <= e.now && e.Attempt? && 0 <= e.now
    ensures Ordered(es + [e])
  {
  }

  lemma {:induction false} EmptyInterval(log: seq<Answer>, ip: Addr, lo: int, hi: int)
    requires hi <= lo
    ensures Admitted(log, ip, lo, hi) == 0
  {
    if log != [] {
      EmptyInterval(log[..|log| - 1], ip, lo, hi);
    }
  }

  /** In every time-ordered run, no interval as long as the window admits more than twice the limit of one address. */
  lemma WindowBound(l: Limits, es: seq<Event>, ip: Addr, lo: int)
    requires Ordered(es)
    ensures Admitted(Log(l, es), ip, lo, lo + l.window) <= 2 * Cap(l)
  {
    hide Ordered, OnlyAttempts, Accounted, Alike, Log, After, AttemptsOnly;
    if l.window > 0 {
      CleanupUnobservable(l, es);
      AttemptsOrdered(es);
      CountsKept(l, AttemptsOnly(es), ip, lo);
    } else {
      EmptyInterval(Log(l, es), ip, lo, lo + l.window);
    }
  }

  /** An attempt is answered by counting: it is admitted if and only if fewer than the limit were admitted since its window
      began, where the answers given before it say when that was. A window of no length limits each attempt by itself. */
  lemma AnsweredByCount(l: Limits, es: seq<Event>, ip: Addr, now: int)
    requires Ordered(es + [Attempt(ip, now)])
    ensures l.window > 0 ==> now - l.window < WindowOf(l, Log(l, es), ip, now) <= now
    ensures Allows(l, After(l, es), ip, now) <==>
            if l.window > 0 then Admitted(Log(l, es), ip, WindowOf(l, Log(l, es), ip, now), now + 1) < l.limit
            else 0 < l.limit
  {
    OrderedLast(es, Attempt(ip, now));
    if l.window > 0 {
      hide Ordered, OnlyAttempts, Accounted, Alike, Log, After, AttemptsOnly, Allows, Admitted, LastTime, WindowOf;
      var plain := AttemptsOnly(es);
      CleanupUnobservable(l, es);
      AttemptsOrdered(es);
      AlikeLater(l, After(l, es), After(l, plain), LastTime(es), now);
      AlikeAttempt(l, After(l, es), After(l, plain), ip, now);
      PlainAnswer(l, plain, ip, now);
    } else {
      AlwaysStarted(l, es);
      NoWindow(l, After(l, es), ip, now, LastTime(es));
    }
  }

  lemma NoWindow(l: Limits, m: map<Addr, Entry>, ip: Addr, now: int, last: int)
    requires l.window <= 0 && Started(m, last) && 0 <= last <= now
    ensures Allows(l, m, ip, now) <==> 0 < l.limit
  {
  }

  lemma OrderedLast(es: seq<Event>, e: Event)
    requires Ordered(es + [e])
    ensures Ordered(es) && 0 <= LastTime(es) <= e.now
  {
    var all := es + [e];
    assert all[..|all| - 1] == es;
    OrderedInit(all);
  }

  lemma PlainAnswer(l: Limits, es: seq<Event>, ip: Addr, now: int)
    requires Ordered(es) && OnlyAttempts(es) && LastTime(es) <= now && l.window > 0
    ensures now - l.window < WindowOf(l, Log(l, es), ip, now) <= now
    ensures Allows(l, After(l, es), ip, now) <==> Admitted(Log(l, es), ip, WindowOf(l, Log(l, es), ip, now), now + 1) < l.limit
  {
    hide Ordered, OnlyAttempts, Spread, Log, After, Admitted;
    CountsKept(l, es, ip, 0);
    var e := Current(After(l, es), ip);
    if Stale(l, e, now) {
      OverByNow(l, Log(l, es), ip, e, LastTime(es), now);
      NoneAdmitted(Log(l, es), ip, now, now + 1);
    }
  }

  lemma OverByNow(l: Limits, log: seq<Answer>, ip: Addr, e: Entry, last: int, now: int)
    requires Accounted(l, log, ip, e, last) && Stale(l, e, now)
    ensures forall i :: 0 <= i < |log| && log[i].ip == ip && log[i].ok ==> log[i].at < now
  {
  }
}
