/** internal/service/session_registry.go: who is logged in, and who may log in again. Times are nanoseconds. */
module SessionRegistries {
  import opened Sharding
  import opened Words
  import opened Wrappers

  const SECOND := 1_000_000_000
  const PLACEHOLDER_HOLD := 5 * SECOND
  const REJECTION_WINDOW := 30 * SECOND

  /** SessionInfo; a zero LastRejectionTime is None. */
  datatype Info = Info(loginTime: int, lastRejection: Option<int>, sessionId: int32, serverId: int32)

  type Sessions = map<string, Info>

  /** The UTF-8 bytes of a string, which is what Go indexes. */
  function Utf8Char(c: char): (b: seq<byte>)
    ensures 1 <= |b| <= 4
  {
    var r := c as int;
    if r < 0x80 then [r]
    else if r < 0x800 then [0xC0 + r / 0x40, 0x80 + r % 0x40]
    else if r < 0x1_0000 then [0xE0 + r / 0x1000, 0x80 + r / 0x40 % 0x40, 0x80 + r % 0x40]
    else [0xF0 + r / 0x4_0000, 0x80 + r / 0x1000 % 0x40, 0x80 + r / 0x40 % 0x40, 0x80 + r % 0x40]
  }

  /** One byte below 80; otherwise a first byte that says how many follow, and six bits in each of those (section 3 of
      RFC 3629). */
  lemma Utf8Meaning(c: char)
    ensures var (b: seq<int>, r) := (Utf8Char(c), c as int);
            && (forall i :: 0 < i < |b| ==> 0x80 <= b[i] < 0xC0)
            && if r < 0x80 then b == [r]
               else if r < 0x800 then |b| == 2 && 0xC0 <= b[0] < 0xE0 && r == 0x40 * (b[0] - 0xC0) + (b[1] - 0x80)
               else if r < 0x1_0000 then
                 |b| == 3 && 0xE0 <= b[0] < 0xF0 && r == 0x40 * (0x40 * (b[0] - 0xE0) + (b[1] - 0x80)) + (b[2] - 0x80)
               else |b| == 4 && 0xF0 <= b[0] < 0xF8
                    && r == 0x40 * (0x40 * (0x40 * (b[0] - 0xF0) + (b[1] - 0x80)) + (b[2] - 0x80)) + (b[3] - 0x80)
  {
    var r := c as int;
    assert r / 0x1000 == r / 0x40 / 0x40 && r / 0x4_0000 == r / 0x1000 / 0x40;
  }

  function Utf8(s: string): seq<byte> {
    if s == [] then [] else Utf8Char(s[0]) + Utf8(s[1..])
  }

  /** FNV-1 over the first n bytes. */
  function Fnv1(b: seq<byte>, n: nat): uint32
    requires n <= |b|
  {
    if n == 0 then 2166136261 else Xor32(Fnv1(b, n - 1) * 16777619 % 0x1_0000_0000, b[n - 1])
  }

  /** The published value for the one letter "a". */
  lemma Fnv1OfA()
    ensures Fnv1([0x61], 1) == 0x050C5D7E
  {
    hide Xor;
    assert Fnv1([0x61], 0) == 2166136261;
    Widths();
    XorLow(330845, 0x1F, 0x61, 8);
    Mask1F();
  }

  /** 1F masked with 61, digit by digit. */
  lemma Mask1F()
    ensures Xor(0x1F, 0x61) == 0x7E
  {
    hide Xor;
    XorCommutes(0, 1);
    XorZero(1);
    XorDigits(0, 1, 0, 1);
    XorDigits(1, 0, 0, 3);
    XorDigits(1, 0, 1, 6);
    XorDigits(1, 0, 3, 12);
    XorDigits(1, 0, 7, 24);
    XorDigits(1, 1, 15, 48);
  }

  function NameHash(name: string): uint32 {
    Fnv1(Utf8(name), |Utf8(name)|)
  }

  // ---- What the operations do to the flat map ----

  /** The four ways a login attempt ends. */
  datatype Verdict = Fresh | Held | Kicking | Stamped

  /** TryRegister's pair (kick the old session, allow the new one). */
  function Outcome(v: Verdict): (bool, bool) {
    match v
    case Fresh => (false, true)
    case Held => (false, false)
    case Kicking => (true, true)
    case Stamped => (false, false)
  }

  function Judge(m: Sessions, name: string, now: int): Verdict {
    if name !in m then Fresh
    else if m[name].sessionId == -1 && now - m[name].loginTime < PLACEHOLDER_HOLD then Held
    else if m[name].lastRejection.Some? && now - m[name].lastRejection.value < REJECTION_WINDOW then Kicking
    else Stamped
  }

  function Tried(m: Sessions, name: string, now: int): Sessions {
    match Judge(m, name, now)
    case Fresh => m[name := Info(now, None, -1, 0)]
    case Held => m
    case Kicking => m[name := m[name].(lastRejection := None)]
    case Stamped => m[name := m[name].(lastRejection := Some(now))]
  }

  function Registered(m: Sessions, name: string, id: int32, now: int): Sessions {
    m[name := Info(now, None, id, 0)]
  }

  function Matches(m: Sessions, name: string, id: int32): bool {
    name in m && m[name].sessionId == id
  }

  function Unregistered(m: Sessions, name: string, id: int32): Sessions {
    if Matches(m, name, id) then m - {name} else m
  }

  function Moved(m: Sessions, name: string, server: int32): Sessions {
    if name in m then m[name := m[name].(serverId := server)] else m
  }

  function OnServer(server: int32): (string, Info) -> bool {
    (name: string, s: Info) => s.serverId == server
  }

  // ---- The code ----

  class SessionRegistry {
    const shards: seq<Shard<string, Info>>
    ghost var Contents: Sessions

    ghost predicate Valid()
      reads this, shards
    {
      Represents(shards, NameHash, Contents)
    }

    constructor ()
      ensures Valid() && fresh(shards) && Contents == map[]
    {
      var s := NewShards<string, Info>(NameHash);
      shards := s;
      Contents := map[];
    }

    method TryRegister(name: string, now: int) returns (kick: bool, allow: bool)
      requires Valid()
      modifies this`Contents, shards
      ensures Valid()
      ensures (kick, allow) == Outcome(Judge(old(Contents), name, now))
      ensures Contents == Tried(old(Contents), name, now)
    {
      hide Represents;
      var at := GetShard(name);
      var found := Get(shards, NameHash, Contents, at, name);
      if found.None? {
        Store(at, name, Info(now, None, -1, 0));
        return false, true;
      }
      var sess := found.value;
      if sess.sessionId == -1 && now - sess.loginTime < PLACEHOLDER_HOLD {
        return false, false;
      }
      if sess.lastRejection.Some? && now - sess.lastRejection.value < REJECTION_WINDOW {
        Store(at, name, sess.(lastRejection := None));
        return true, true;
      }
      Store(at, name, sess.(lastRejection := Some(now)));
      return false, false;
    }

    method Store(at: nat, name: string, sess: Info)
      requires Valid() && at == Masked(NameHash(name))
      modifies this`Contents, shards
      ensures Valid() && Contents == old(Contents)[name := sess]
    {
      hide Represents;
      Set(shards, NameHash, Contents, at, name, sess);
      Contents := Contents[name := sess];
    }

    method Register(name: string, id: int32, now: int)
      requires Valid()
      modifies this`Contents, shards
      ensures Valid() && Contents == Registered(old(Contents), name, id, now)
      ensures Contents == old(Contents)[name := Info(now, None, id, 0)]
    {
      hide Represents;
      var at := GetShard(name);
      Store(at, name, Info(now, None, id, 0));
    }

    method Unregister(name: string, id: int32) returns (removed: bool)
      requires Valid()
      modifies this`Contents, shards
      ensures Valid() && Contents == Unregistered(old(Contents), name, id)
      ensures removed == Matches(old(Contents), name, id)
      ensures removed <==> name in old(Contents) && old(Contents)[name].sessionId == id
      ensures Contents == if removed then old(Contents) - {name} else old(Contents)
    {
      hide Represents;
      var at := GetShard(name);
      var found := Get(shards, NameHash, Contents, at, name);
      removed := found.Some? && found.value.sessionId == id;
      if removed {
        Delete(shards, NameHash, Contents, at, name);
        Contents := Contents - {name};
      }
    }

    method SetGS(name: string, server: int32)
      requires Valid()
      modifies this`Contents, shards
      ensures Valid() && Contents == Moved(old(Contents), name, server)
      ensures Contents == if name in old(Contents)
                          then old(Contents)[name := old(Contents)[name].(serverId := server)] else old(Contents)
    {
      hide Represents;
      var at := GetShard(name);
      var found := Get(shards, NameHash, Contents, at, name);
      if found.Some? {
        Store(at, name, found.value.(serverId := server));
      }
    }

    method GetInfo(name: string) returns (r: Option<Info>)
      requires Valid()
      ensures r == Lookup(Contents, name)
    {
      hide Represents;
      var at := GetShard(name);
      r := Get(shards, NameHash, Contents, at, name);
    }

    /** The nested loops over shards and entries are one filter on the server. */
    method ClearServer(server: int32)
      requires Valid()
      modifies this`Contents, shards
      ensures Valid() && Contents == Kept(old(Contents), OnServer(server))
      ensures forall name :: name in Contents <==> name in old(Contents) && old(Contents)[name].serverId != server
      ensures forall name :: name in Contents ==> Contents[name] == old(Contents)[name]
    {
      hide Represents;
      Sweep(shards, NameHash, Contents, OnServer(server));
      Contents := Kept(Contents, OnServer(server));
    }
  }

  method GetShard(name: string) returns (i: nat)
    ensures i == Masked(NameHash(name)) < SHARD_COUNT
  {
    hide Xor32;
    var b := Utf8(name);
    var hash: uint32 := 2166136261;
    for j := 0 to |b|
      invariant hash == Fnv1(b, j)
    {
      hash := hash * 16777619 % 0x1_0000_0000;
      hash := Xor32(hash, b[j]);
    }
    i := Masked(hash);
  }

  // ---- Runs ----

  datatype Event =
    | Try(name: string, now: int)
    | Register(name: string, id: int32, now: int)
    | Unregister(name: string, id: int32, now: int)
    | SetGS(name: string, server: int32, now: int)
    | ClearServer(server: int32, now: int)

  ghost predicate Ordered(es: seq<Event>) {
    forall i, j :: 0 <= i < j < |es| ==> es[i].now <= es[j].now
  }

  ghost function Step(m: Sessions, e: Event): Sessions {
    match e
    case Try(name, now) => Tried(m, name, now)
    case Register(name, id, now) => Registered(m, name, id, now)
    case Unregister(name, id, _) => Unregistered(m, name, id)
    case SetGS(name, server, _) => Moved(m, name, server)
    case ClearServer(server, _) => Kept(m, OnServer(server))
  }

  /** The sessions after the first n events. */
  ghost function At(es: seq<Event>, n: nat): Sessions
    requires n <= |es|
  {
    if n == 0 then map[] else Step(At(es, n - 1), es[n - 1])
  }

  /** Event number i is an attempt for this name that ends with verdict v. */
  ghost predicate Ends(es: seq<Event>, i: nat, name: string, v: Verdict)
    requires i < |es|
  {
    es[i].Try? && es[i].name == name && Judge(At(es, i), name, es[i].now) == v
  }

  ghost predicate Admitted(es: seq<Event>, i: nat, name: string)
    requires i < |es|
  {
    Ends(es, i, name, Fresh) || Ends(es, i, name, Kicking)
  }

  /** The name has an entry before every event from i + 1 to j. */
  ghost predicate PresentThroughout(es: seq<Event>, name: string, i: nat, j: nat)
    requires j <= |es|
  {
    forall n :: i < n <= j ==> name in At(es, n)
  }

  /** A rejection between i and n left exactly this stamp. */
  ghost predicate StampedAt(es: seq<Event>, name: string, i: nat, n: nat, stamp: int)
    requires n <= |es|
  {
    exists k :: i < k < n && Ends(es, k, name, Stamped) && es[k].now == stamp
  }

  lemma {:induction false} StampHasSource(es: seq<Event>, name: string, i: nat, n: nat)
    requires i < n <= |es| && Admitted(es, i, name) && PresentThroughout(es, name, i, n)
    ensures var stamp := At(es, n)[name].lastRejection;
            stamp.Some? ==> StampedAt(es, name, i, n, stamp.value)
  {
    if n > i + 1 {
      StampHasSource(es, name, i, n - 1);
      var stamp := At(es, n)[name].lastRejection;
      if stamp.Some? && !StampedAt(es, name, i, n - 1, stamp.value) {
        assert Ends(es, n - 1, name, Stamped);
      }
    }
  }

  ghost predicate RejectedShortlyBefore(es: seq<Event>, name: string, i: nat, j: nat)
    requires j < |es|
  {
    exists k :: i < k < j && Ends(es, k, name, Stamped) && es[j].now - es[k].now < REJECTION_WINDOW
  }

  /** Between two admissions of one name, either its entry was removed in between or a rejected attempt lies between them,
      stamped less than 30 seconds before the second. */
  lemma RejectedBetweenAdmissions(es: seq<Event>, name: string, i: nat, j: nat)
    requires i < j < |es| && Admitted(es, i, name) && Admitted(es, j, name)
    ensures !PresentThroughout(es, name, i, j)
            || (Ends(es, j, name, Kicking) && RejectedShortlyBefore(es, name, i, j))
  {
    if PresentThroughout(es, name, i, j) {
      StampHasSource(es, name, i, j);
      assert name in At(es, j);
      var stamp := At(es, j)[name].lastRejection.value;
      var k :| i < k < j && Ends(es, k, name, Stamped) && es[k].now == stamp;
      assert RejectedShortlyBefore(es, name, i, j);
    }
  }

  /** How many of the first n events are attempts for this name with verdict v. */
  ghost function Count(es: seq<Event>, n: nat, name: string, v: Verdict): nat
    requires n <= |es|
  {
    if n == 0 then 0 else Count(es, n - 1, name, v) + if Ends(es, n - 1, name, v) then 1 else 0
  }

  /** Every admission that kicks somebody is paid for by its own stamped rejection. */
  lemma {:induction false} KicksNeedStamps(es: seq<Event>, n: nat, name: string)
    requires n <= |es|
    ensures var pending := if name in At(es, n) && At(es, n)[name].lastRejection.Some? then 1 else 0;
            Count(es, n, name, Kicking) + pending <= Count(es, n, name, Stamped)
  {
    if n > 0 {
      KicksNeedStamps(es, n - 1, name);
    }
  }

  /** The entry a fresh admission at event i put there is still its placeholder. */
  ghost predicate StillPlaceholder(es: seq<Event>, name: string, i: nat, n: nat)
    requires i < n <= |es|
  {
    name in At(es, n) && At(es, n)[name].sessionId == -1 && At(es, n)[name].loginTime == es[i].now
  }

  lemma {:induction false} PlaceholderStays(es: seq<Event>, name: string, i: nat, n: nat)
    requires i < n <= |es| && Ends(es, i, name, Fresh) && PresentThroughout(es, name, i, n)
    requires forall k :: i < k < n ==> !(es[k].Register? && es[k].name == name)
    ensures StillPlaceholder(es, name, i, n)
  {
    if n > i + 1 {
      PlaceholderStays(es, name, i, n - 1);
    }
  }

  /** For five seconds after a fresh admission nobody else is admitted, or even stamped, unless the placeholder was removed
      or overwritten by Register. */
  lemma PlaceholderHolds(es: seq<Event>, name: string, i: nat, j: nat)
    requires i < j < |es| && Ends(es, i, name, Fresh) && PresentThroughout(es, name, i, j)
    requires forall k :: i < k < j ==> !(es[k].Register? && es[k].name == name)
    requires es[j].Try? && es[j].name == name && es[j].now - es[i].now < PLACEHOLDER_HOLD
    ensures Ends(es, j, name, Held)
  {
    PlaceholderStays(es, name, i, j);
  }

  // ---- Who is let in, by the history alone ----

  /** TryRegister's pair (kick, allow) for the attempt at event i. */
  ghost function Answer(es: seq<Event>, i: nat): (bool, bool)
    requires i < |es| && es[i].Try?
  {
    Outcome(Judge(At(es, i), es[i].name, es[i].now))
  }

  /** An account is there after the first n events: an attempt or Register puts it there, Unregister under its id or the end
      of its server takes it away. */
  ghost predicate Present(es: seq<Event>, n: nat, name: string)
    requires n <= |es|
  {
    n > 0 && match es[n - 1]
      case Try(a, _) => a == name || Present(es, n - 1, name)
      case Register(a, _, _) => a == name || Present(es, n - 1, name)
      case Unregister(a, id, _) => Present(es, n - 1, name) && !(a == name && id == IdOf(es, n - 1, name))
      case SetGS(_, _, _) => Present(es, n - 1, name)
      case ClearServer(v, _) => Present(es, n - 1, name) && v != ServerOf(es, n - 1, name)
  }

  /** Its id: the one last registered, or -1 since an attempt put it there. */
  ghost function IdOf(es: seq<Event>, n: nat, name: string): int32
    requires n <= |es|
  {
    if n == 0 then -1
    else match es[n - 1]
      case Try(a, _) => if a == name && !Present(es, n - 1, name) then -1 else IdOf(es, n - 1, name)
      case Register(a, id, _) => if a == name then id else IdOf(es, n - 1, name)
      case _ => IdOf(es, n - 1, name)
  }

  /** Its server: the one last set since it was put there or registered. */
  ghost function ServerOf(es: seq<Event>, n: nat, name: string): int32
    requires n <= |es|
  {
    if n == 0 then 0
    else match es[n - 1]
      case Try(a, _) => if a == name && !Present(es, n - 1, name) then 0 else ServerOf(es, n - 1, name)
      case Register(a, _, _) => if a == name then 0 else ServerOf(es, n - 1, name)
      case SetGS(a, v, _) => if a == name && Present(es, n - 1, name) then v else ServerOf(es, n - 1, name)
      case _ => ServerOf(es, n - 1, name)
  }

  /** When it was put there or last registered. */
  ghost function Since(es: seq<Event>, n: nat, name: string): int
    requires n <= |es|
  {
    if n == 0 then 0
    else match es[n - 1]
      case Try(a, now) => if a == name && !Present(es, n - 1, name) then now else Since(es, n - 1, name)
      case Register(a, _, now) => if a == name then now else Since(es, n - 1, name)
      case _ => Since(es, n - 1, name)
  }

  /** A login of this account is under way: nobody has registered it since an attempt put it there, under five seconds ago. */
  ghost predicate UnderWay(es: seq<Event>, n: nat, name: string, now: int)
    requires n <= |es|
  {
    Present(es, n, name) && IdOf(es, n, name) == -1 && now - Since(es, n, name) < 5_000_000_000
  }

  /** Something that settles who comes next: an attempt while no login is under way, a Register, or the end of the entry. */
  ghost predicate Settles(es: seq<Event>, k: nat, name: string)
    requires k < |es|
  {
    (es[k].Try? && es[k].name == name && !UnderWay(es, k, name, es[k].now))
    || (es[k].Register? && es[k].name == name) || (Present(es, k, name) && !Present(es, k + 1, name))
  }

  /** The latest of these before n is an attempt at this time that was turned down. */
  ghost predicate TurnedDownAt(es: seq<Event>, n: nat, name: string, k: nat)
    requires n <= |es|
  {
    k < n && Settles(es, k, name) && es[k].Try? && es[k].name == name && Answer(es, k) == (false, false)
    && forall j :: k < j < n ==> !Settles(es, j, name)
  }

  /** What the registry holds is what the history says. */
  ghost predicate Holds(es: seq<Event>, n: nat, name: string)
    requires n <= |es|
  {
    var m := At(es, n);
    && (name in m <==> Present(es, n, name))
    && (name in m ==> m[name].sessionId == IdOf(es, n, name) && m[name].serverId == ServerOf(es, n, name)
                      && m[name].loginTime == Since(es, n, name))
  }

  lemma {:induction false} AlwaysHolds(es: seq<Event>, n: nat, name: string)
    requires n <= |es|
    ensures Holds(es, n, name)
  {
    if n > 0 {
      AlwaysHolds(es, n - 1, name);
      assert At(es, n) == Step(At(es, n - 1), es[n - 1]);
    }
  }

  /** A stamp is the time of the attempt turned down last. */
  ghost predicate Stamps(es: seq<Event>, n: nat, name: string, stamp: Option<int>)
    requires n <= |es|
  {
    match stamp
    case None => forall k: nat :: !TurnedDownAt(es, n, name, k)
    case Some(t) => exists k: nat :: k < n && TurnedDownAt(es, n, name, k) && es[k].now == t
  }

  lemma TurnedDownNext(es: seq<Event>, n: nat, name: string, k: nat)
    requires n < |es|
    ensures TurnedDownAt(es, n + 1, name, k) <==>
            if Settles(es, n, name)
            then k == n && es[n].Try? && es[n].name == name && Answer(es, n) == (false, false)
            else TurnedDownAt(es, n, name, k)
  {
    hide Settles, Answer;
  }

  /** The stamp over one event. */
  lemma StampNext(es: seq<Event>, n: nat, name: string, stamp: Option<int>)
    requires n < |es| && Stamps(es, n, name, stamp)
    ensures Stamps(es, n + 1, name,
                   if !Settles(es, n, name) then stamp
                   else if es[n].Try? && es[n].name == name && Answer(es, n) == (false, false) then Some(es[n].now)
                   else None)
  {
    hide Settles, Answer, TurnedDownAt;
    var after: nat := n + 1;
    if !Settles(es, n, name) && stamp.Some? {
      var k: nat :| k < n && TurnedDownAt(es, n, name, k) && es[k].now == stamp.value;
      TurnedDownNext(es, n, name, k);
      assert k < after && TurnedDownAt(es, after, name, k);
    } else if Settles(es, n, name) && es[n].Try? && es[n].name == name && Answer(es, n) == (false, false) {
      TurnedDownNext(es, n, name, n);
      assert n < after && TurnedDownAt(es, after, name, n);
    } else {
      assert stamp.None? || Settles(es, n, name);
      forall k: nat
        ensures !TurnedDownAt(es, after, name, k)
      {
        TurnedDownNext(es, n, name, k);
      }
    }
  }

  /** The stamp an entry carries; there is none without an entry. */
  function StampOf(m: Sessions, name: string): Option<int> {
    if name in m then m[name].lastRejection else None
  }

  lemma {:induction false} AlwaysStamps(es: seq<Event>, n: nat, name: string)
    requires n <= |es|
    ensures Stamps(es, n, name, StampOf(At(es, n), name))
  {
    if n > 0 {
      hide Stamps, Settles, Answer;
      AlwaysStamps(es, n - 1, name);
      AlwaysHolds(es, n - 1, name);
      AlwaysHolds(es, n, name);
      StampNext(es, n - 1, name, StampOf(At(es, n - 1), name));
      StampStep(es, n - 1, name);
    }
  }

  /** What one event does to the stamp. */
  lemma StampStep(es: seq<Event>, n: nat, name: string)
    requires n < |es| && Holds(es, n, name) && Holds(es, n + 1, name)
    ensures StampOf(At(es, n + 1), name)
            == if !Settles(es, n, name) then StampOf(At(es, n), name)
               else if es[n].Try? && es[n].name == name && Answer(es, n) == (false, false) then Some(es[n].now)
               else None
  {
    var (m, t) := (At(es, n), At(es, n + 1));
    assert t == Step(m, es[n]);
    hide At, Present, IdOf, ServerOf, Since;
  }

  /** Who is let in. An account that is not there is let in; one whose login is under way is not; otherwise an attempt is
      let in, and the old session kicked, if and only if the latest thing to settle the matter is an attempt turned down
      less than thirty seconds before. Where the account is playing makes no difference. */
  lemma AdmittedExactly(es: seq<Event>, i: nat)
    requires i < |es| && es[i].Try?
    ensures var (name, now) := (es[i].name, es[i].now);
            Answer(es, i) ==
            if !Present(es, i, name) then (false, true)
            else if UnderWay(es, i, name, now) then (false, false)
            else if exists k: nat :: TurnedDownAt(es, i, name, k) && now - es[k].now < 30_000_000_000 then (true, true)
            else (false, false)
  {
    var (name, now) := (es[i].name, es[i].now);
    AlwaysHolds(es, i, name);
    AlwaysStamps(es, i, name);
    forall j: nat, k: nat | TurnedDownAt(es, i, name, j) && TurnedDownAt(es, i, name, k)
      ensures j == k
    {
    }
    hide TurnedDownAt, Present, IdOf, Since, At;
  }
}
