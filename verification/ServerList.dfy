/** internal/service/server_list.go: the registered game servers and the character counts of accounts. */
module ServerLists {
  import opened Words
  import opened Wrappers

  const MAX_SUPPORTED_SERVERS := 32
  const INFO_STATUS := 0x01
  const INFO_CURRENT_PLAYERS := 0x02

  datatype Server = Server(ip: string, port: int32, id: int32, serverType: int32, maxPlayers: int16,
                           currentPlayers: int16, pvp: bool, brackets: bool, status: byte)

  const NO_SERVER := Server("", 0, 0, 0, 0, 0, false, false, 0)

  type Servers = map<int, Server>

  predicate InRange(id: int) {
    0 <= id < MAX_SUPPORTED_SERVERS
  }

  // ---- What the operations do to the active servers, by id ----

  function Registered(m: Servers, srv: Server): Servers {
    if InRange(srv.id) then m[srv.id := srv] else m
  }

  /** byte(value) and int16(value) keep the low bits. */
  function Updated(srv: Server, infoType: int, value: int32): Server {
    if infoType == INFO_STATUS then srv.(status := value % 0x100)
    else if infoType == INFO_CURRENT_PLAYERS then srv.(currentPlayers := ToI16(value % 0x1_0000))
    else srv
  }

  function UpdatedAt(m: Servers, id: int, infoType: int, value: int32): Servers {
    if id in m then m[id := Updated(m[id], infoType, value)] else m
  }

  ghost predicate Keyed(m: Servers) {
    forall id :: id in m ==> InRange(id) && m[id].id == id
  }

  /** s lists exactly the servers of m, in strictly increasing order of id. */
  ghost predicate IsSnapshot(s: seq<Server>, m: Servers) {
    && (forall i, j :: 0 <= i < j < |s| ==> s[i].id < s[j].id)
    && (forall k :: 0 <= k < |s| ==> s[k].id in m && m[s[k].id] == s[k])
    && (forall id :: id in m ==> m[id] in s)
  }

  lemma {:induction false} SnapshotUnique(s: seq<Server>, t: seq<Server>, m: Servers)
    requires Keyed(m) && IsSnapshot(s, m) && IsSnapshot(t, m)
    ensures s == t
    decreases |s|
  {
    hide IsSnapshot, Keyed;
    LastAtLeast(s, t, m);
    LastAtLeast(t, s, m);
    if s != [] {
      var (s', t', last) := (s[..|s| - 1], t[..|t| - 1], s[|s| - 1]);
      SnapshotInit(s, m);
      SnapshotInit(t, m);
      KeyedRest(m, last.id);
      SnapshotUnique(s', t', m - {last.id});
      assert s == s' + [last] && t == t' + [last];
    }
  }

  lemma KeyedRest(m: Servers, id: int)
    requires Keyed(m)
    ensures Keyed(m - {id})
  {
  }

  /** The last server of one snapshot is in the other, so not past its last. */
  lemma LastAtLeast(s: seq<Server>, t: seq<Server>, m: Servers)
    requires IsSnapshot(s, m) && IsSnapshot(t, m)
    ensures s != [] ==> t != [] && s[|s| - 1].id <= t[|t| - 1].id
    ensures s != [] && s[|s| - 1].id == t[|t| - 1].id ==> s[|s| - 1] == t[|t| - 1]
  {
    if s != [] {
      InBoth(s, t, m, |s| - 1);
      var k :| 0 <= k < |t| && t[k] == s[|s| - 1];
      assert k < |t| - 1 ==> t[k].id < t[|t| - 1].id;
    }
  }

  lemma InBoth(s: seq<Server>, t: seq<Server>, m: Servers, k: nat)
    requires IsSnapshot(s, m) && IsSnapshot(t, m) && k < |s|
    ensures s[k] in t
  {
    assert m[s[k].id] in t;
  }

  lemma SnapshotInit(s: seq<Server>, m: Servers)
    requires Keyed(m) && IsSnapshot(s, m) && s != []
    ensures IsSnapshot(s[..|s| - 1], m - {s[|s| - 1].id})
  {
    var (init, last) := (s[..|s| - 1], s[|s| - 1]);
    forall id | id in m - {last.id}
      ensures m[id] in init
    {
      var k :| 0 <= k < |s| && s[k] == m[id];
      assert s[k].id == id;
      assert init[k] == m[id];
    }
  }

  // ---- The code ----

  class ServerList {
    const servers: array<Server>
    const active: array<bool>
    var charCounts: map<string, seq<byte>>

    ghost predicate Valid()
      reads this, servers, active
    {
      && servers.Length == active.Length == MAX_SUPPORTED_SERVERS
      && (forall i :: 0 <= i < MAX_SUPPORTED_SERVERS && active[i] ==> servers[i].id == i)
      && (forall a :: a in charCounts ==> |charCounts[a]| == MAX_SUPPORTED_SERVERS)
    }

    ghost function Active(): (m: Servers)
      requires Valid()
      reads this, servers, active
      ensures Keyed(m)
    {
      map i | 0 <= i < MAX_SUPPORTED_SERVERS && active[i] :: servers[i]
    }

    constructor ()
      ensures Valid() && fresh(servers) && fresh(active) && Active() == map[] && charCounts == map[]
    {
      servers := new Server[MAX_SUPPORTED_SERVERS](i => NO_SERVER);
      active := new bool[MAX_SUPPORTED_SERVERS](i => false);
      charCounts := map[];
    }

    method Register(srv: Server)
      requires Valid()
      modifies servers, active
      ensures Valid() && Active() == Registered(old(Active()), srv)
      ensures Active() == if 0 <= srv.id < 32 then old(Active())[srv.id := srv] else old(Active())
    {
      if srv.id < 0 || srv.id >= MAX_SUPPORTED_SERVERS {
        return;
      }
      servers[srv.id] := srv;
      active[srv.id] := true;
    }

    method Unregister(id: int32)
      requires Valid()
      modifies servers, active
      ensures Valid() && Active() == old(Active()) - {id}
    {
      if id < 0 || id >= MAX_SUPPORTED_SERVERS {
        return;
      }
      active[id] := false;
      servers[id] := NO_SERVER;
    }

    method UpdateStatus(id: int32, infoType: int, value: int32)
      requires Valid()
      modifies servers
      ensures Valid() && Active() == UpdatedAt(old(Active()), id, infoType, value)
    {
      if id < 0 || id >= MAX_SUPPORTED_SERVERS {
        return;
      }
      if !active[id] {
        return;
      }
      if infoType == INFO_STATUS {
        servers[id] := servers[id].(status := value % 0x100);
      } else if infoType == INFO_CURRENT_PLAYERS {
        servers[id] := servers[id].(currentPlayers := ToI16(value % 0x1_0000));
      }
    }

    /** The snapshot's fixed array, and how many of its entries count. */
    method GetServers() returns (snap: seq<Server>, count: nat)
      requires Valid()
      ensures |snap| == MAX_SUPPORTED_SERVERS && count <= MAX_SUPPORTED_SERVERS
      ensures IsSnapshot(snap[..count], Active())
    {
      hide IsSnapshot, Below;
      ghost var m := Active();
      snap, count := seq(MAX_SUPPORTED_SERVERS, i => NO_SERVER), 0;
      NoneBelow(m);
      for i := 0 to MAX_SUPPORTED_SERVERS
        invariant |snap| == MAX_SUPPORTED_SERVERS && count <= i
        invariant IsSnapshot(snap[..count], Below(m, i))
      {
        SnapshotStep(snap[..count], m, i);
        if active[i] {
          ghost var before := snap[..count];
          snap := snap[count := servers[i]];
          count := count + 1;
          assert snap[..count] == before + [servers[i]];
        }
      }
      AllBelow(m);
    }

    method SetCharCount(account: string, serverId: int32, count: byte)
      requires Valid()
      modifies this
      ensures Valid() && Active() == old(Active())
      ensures 0 <= serverId < 32 ==> account in charCounts && |charCounts[account]| == 32
      ensures forall i :: 0 <= serverId < 32 && 0 <= i < 32 && i != serverId ==>
                charCounts[account][i] == if account in old(charCounts) then old(charCounts)[account][i] else 0
      ensures 0 <= serverId < 32 ==> charCounts[account][serverId] == count
      ensures charCounts == if InRange(serverId)
                            then old(charCounts)[account := CountsOf(old(charCounts), account)[serverId := count]]
                            else old(charCounts)
    {
      if serverId < 0 || serverId >= MAX_SUPPORTED_SERVERS {
        return;
      }
      var counts := CountsOf(charCounts, account);
      counts := counts[serverId := count];
      charCounts := charCounts[account := counts];
    }

    method RemoveAccount(account: string)
      requires Valid()
      modifies this
      ensures Valid() && Active() == old(Active()) && charCounts == old(charCounts) - {account}
    {
      charCounts := charCounts - {account};
    }
  }

  /** The counts of an account; an unknown one reads as zeros. */
  function CountsOf(m: map<string, seq<byte>>, account: string): (c: seq<byte>)
    requires forall a :: a in m ==> |m[a]| == MAX_SUPPORTED_SERVERS
    ensures |c| == MAX_SUPPORTED_SERVERS
  {
    if account in m then m[account] else seq(MAX_SUPPORTED_SERVERS, i => 0)
  }

  ghost function Below(m: Servers, n: int): Servers {
    map id | id in m && id < n :: m[id]
  }

  lemma NoneBelow(m: Servers)
    requires Keyed(m)
    ensures IsSnapshot([], Below(m, 0))
  {
  }

  lemma AllBelow(m: Servers)
    requires Keyed(m)
    ensures Below(m, MAX_SUPPORTED_SERVERS) == m
  {
  }

  lemma SnapshotStep(s: seq<Server>, m: Servers, i: int)
    requires Keyed(m) && IsSnapshot(s, Below(m, i))
    ensures IsSnapshot(if i in m then s + [m[i]] else s, Below(m, i + 1))
  {
    if i in m {
      SnapshotGrows(s, Below(m, i), m[i]);
      assert Below(m, i + 1) == Below(m, i)[i := m[i]];
    } else {
      assert Below(m, i + 1) == Below(m, i);
    }
  }

  lemma SnapshotGrows(s: seq<Server>, m: Servers, srv: Server)
    requires IsSnapshot(s, m) && forall id :: id in m ==> id < srv.id
    ensures IsSnapshot(s + [srv], m[srv.id := srv])
  {
    var (grown, t) := (m[srv.id := srv], s + [srv]);
    forall k | 0 <= k < |t|
      ensures t[k].id in grown && grown[t[k].id] == t[k]
    {
      assert k < |s| ==> s[k].id in m && m[s[k].id] == s[k];
    }
    forall i, j | 0 <= i < j < |t|
      ensures t[i].id < t[j].id
    {
      assert s[i].id in m;
    }
    forall id | id in grown
      ensures grown[id] in t
    {
      SnapshotHas(s, m, srv, id);
    }
  }

  lemma SnapshotHas(s: seq<Server>, m: Servers, srv: Server, id: int)
    requires IsSnapshot(s, m) && id in m[srv.id := srv]
    ensures m[srv.id := srv][id] in s + [srv]
  {
    if id == srv.id {
      assert (s + [srv])[|s|] == srv;
    } else {
      var k :| 0 <= k < |s| && s[k] == m[id];
      assert (s + [srv])[k] == m[id];
    }
  }

  // ---- Runs ----

  datatype Event =
    | Registering(srv: Server)
    | Unregistering(id: int32)
    | Updating(id: int32, infoType: int, value: int32)

  ghost function After(es: seq<Event>): Servers {
    if es == [] then map[]
    else
      var m := After(es[..|es| - 1]);
      match es[|es| - 1]
      case Registering(srv) => Registered(m, srv)
      case Unregistering(id) => m - {id}
      case Updating(id, t, v) => UpdatedAt(m, id, t, v)
  }

  /** One id's own history: its latest registration, if it was not unregistered since, with the later updates applied. */
  ghost function Known(es: seq<Event>, id: int): Option<Server> {
    if es == [] then None
    else
      var before := Known(es[..|es| - 1], id);
      match es[|es| - 1]
      case Registering(srv) => if srv.id == id then Some(srv) else before
      case Unregistering(i) => if i == id then None else before
      case Updating(i, t, v) => if i == id && before.Some? then Some(Updated(before.value, t, v)) else before
  }

  /** After any run the active servers are exactly the known ones, each under its own id. */
  lemma {:induction false} ActiveIsKnown(es: seq<Event>, id: int)
    requires InRange(id)
    ensures (if id in After(es) then Some(After(es)[id]) else None) == Known(es, id)
    ensures id in After(es) ==> After(es)[id].id == id
  {
    if es != [] {
      ActiveIsKnown(es[..|es| - 1], id);
    }
  }

  /** What an update does to a server that is known: kind 1 sets the status to the low byte, kind 2 the player count to the
      low 16 bits as two's complement, any other nothing; everything else stays, and so do the other servers. */
  lemma UpdateMeaning(es: seq<Event>, id: int32, infoType: int, value: int32)
    requires Known(es, id).Some?
    ensures var (old', new') := (Known(es, id).value, Known(es + [Updating(id, infoType, value)], id));
            new'.Some? && var (b, n) := (old', new'.value);
            && n.ip == b.ip && n.port == b.port && n.id == b.id && n.serverType == b.serverType
            && n.maxPlayers == b.maxPlayers && n.pvp == b.pvp && n.brackets == b.brackets
            && var (v: int, st: int, players: int) := (value, n.status, n.currentPlayers);
            && (if infoType == 1 then (v - st) % 256 == 0 else n.status == b.status)
            && (if infoType == 2 then (v - players) % 65536 == 0 else n.currentPlayers == b.currentPlayers)
    ensures forall other :: other != id ==> Known(es + [Updating(id, infoType, value)], other) == Known(es, other)
  {
    var all := es + [Updating(id, infoType, value)];
    assert all[..|es|] == es;
  }
}
