/** Maps split into 64 shards by a hash of the key, as the rate limiter, the session registry and the handoff store keep
    them. A set of shards represents one flat map: every key lives in the shard its hash names and nowhere else. */
module Sharding {
  import opened Words
  import opened Wrappers

  const SHARD_COUNT := 64

  class Shard<K(==), V> {
    var entries: map<K, V>

    constructor ()
      ensures entries == map[]
    {
      entries := map[];
    }
  }

  /** h & (SHARD_COUNT - 1). */
  function Masked(h: uint32): (i: nat)
    ensures i < SHARD_COUNT
  {
    h % SHARD_COUNT
  }

  /** 64 maps that hold the flat map m between them, each key in the map its hash names. */
  ghost predicate Split<K(!new), V>(ms: seq<map<K, V>>, index: K -> uint32, m: map<K, V>) {
    && |ms| == SHARD_COUNT
    && (forall i, k :: 0 <= i < SHARD_COUNT && k in ms[i] ==> Masked(index(k)) == i && k in m && m[k] == ms[i][k])
    && (forall k :: k in m ==> k in ms[Masked(index(k))])
  }

  /** The flat map is determined by the shards, and the shards by the flat map. */
  lemma SplitUnique<K(!new), V>(ms: seq<map<K, V>>, ns: seq<map<K, V>>, index: K -> uint32, m: map<K, V>, n: map<K, V>)
    requires Split(ms, index, m) && Split(ns, index, n)
    ensures m == n <==> ms == ns
  {
    hide Split, Masked;
    SplitSize(ms, index, m);
    SplitSize(ns, index, n);
    if m == n {
      forall i | 0 <= i < SHARD_COUNT
        ensures ms[i] == ns[i]
      {
        ShardWithin(ms, ns, index, m, i);
        ShardWithin(ns, ms, index, m, i);
      }
    }
    if ms == ns {
      FlatWithin(ms, index, m, n);
      FlatWithin(ms, index, n, m);
    }
  }

  lemma SplitSize<K(!new), V>(ms: seq<map<K, V>>, index: K -> uint32, m: map<K, V>)
    requires Split(ms, index, m)
    ensures |ms| == SHARD_COUNT
  {
  }

  lemma ShardWithin<K(!new), V>(ms: seq<map<K, V>>, ns: seq<map<K, V>>, index: K -> uint32, m: map<K, V>, i: nat)
    requires Split(ms, index, m) && Split(ns, index, m) && i < SHARD_COUNT
    ensures |ms| == |ns| == SHARD_COUNT
    ensures forall k :: k in ms[i] ==> k in ns[i] && ns[i][k] == ms[i][k]
  {
    hide Masked;
    forall k | k in ms[i]
      ensures k in ns[i] && ns[i][k] == ms[i][k]
    {
      assert Masked(index(k)) == i && k in m;
    }
  }

  lemma FlatWithin<K(!new), V>(ms: seq<map<K, V>>, index: K -> uint32, m: map<K, V>, n: map<K, V>)
    requires Split(ms, index, m) && Split(ms, index, n)
    ensures forall k :: k in m ==> k in n && n[k] == m[k]
  {
    hide Masked;
    forall k | k in m
      ensures k in n && n[k] == m[k]
    {
      assert k in ms[Masked(index(k))];
    }
  }

  lemma SplitSet<K(!new), V>(ms: seq<map<K, V>>, index: K -> uint32, m: map<K, V>, k: K, v: V)
    requires Split(ms, index, m)
    ensures var i := Masked(index(k)); Split(ms[i := ms[i][k := v]], index, m[k := v])
  {
  }

  lemma SplitDelete<K(!new), V>(ms: seq<map<K, V>>, index: K -> uint32, m: map<K, V>, k: K)
    requires Split(ms, index, m)
    ensures var i := Masked(index(k)); Split(ms[i := ms[i] - {k}], index, m - {k})
  {
  }

  lemma SplitKept<K(!new), V>(ms: seq<map<K, V>>, ns: seq<map<K, V>>, index: K -> uint32, m: map<K, V>,
                              drop: (K, V) -> bool)
    requires Split(ms, index, m) && |ns| == |ms|
    requires forall i :: 0 <= i < |ms| ==> ns[i] == Kept(ms[i], drop)
    ensures Split(ns, index, Kept(m, drop))
  {
    forall i, k | 0 <= i < SHARD_COUNT && k in ns[i]
      ensures Masked(index(k)) == i && k in Kept(m, drop) && Kept(m, drop)[k] == ns[i][k]
    {
      assert k in ms[i];
    }
    forall k | k in Kept(m, drop)
      ensures k in ns[Masked(index(k))]
    {
      assert k in ms[Masked(index(k))];
    }
  }

  ghost function Maps<K, V>(shards: seq<Shard<K, V>>): (ms: seq<map<K, V>>)
    reads shards
  {
    seq(|shards|, i requires 0 <= i < |shards| reads shards => shards[i].entries)
  }

  ghost predicate Represents<K(!new), V>(shards: seq<Shard<K, V>>, index: K -> uint32, m: map<K, V>)
    reads shards
  {
    && |shards| == SHARD_COUNT
    && (forall i, j :: 0 <= i < j < SHARD_COUNT ==> shards[i] != shards[j])
    && Split(Maps(shards), index, m)
  }

  method NewShards<K(!new), V>(index: K -> uint32) returns (shards: seq<Shard<K, V>>)
    ensures Represents(shards, index, map[]) && fresh(shards)
  {
    shards := [];
    for i := 0 to SHARD_COUNT
      invariant |shards| == i && fresh(shards)
      invariant forall a, b :: 0 <= a < b < i ==> shards[a] != shards[b]
      invariant forall a :: 0 <= a < i ==> shards[a].entries == map[]
    {
      var sh := new Shard<K, V>();
      shards := shards + [sh];
    }
  }

  function Lookup<K, V>(m: map<K, V>, k: K): Option<V> {
    if k in m then Some(m[k]) else None
  }

  method Get<K(!new), V>(shards: seq<Shard<K, V>>, index: K -> uint32, ghost m: map<K, V>, at: nat, k: K)
    returns (r: Option<V>)
    requires Represents(shards, index, m) && at == Masked(index(k))
    ensures r == Lookup(m, k)
  {
    var sh := shards[at];
    r := Lookup(sh.entries, k);
    assert Maps(shards)[at] == sh.entries;
  }

  method Set<K(!new), V>(shards: seq<Shard<K, V>>, index: K -> uint32, ghost m: map<K, V>, at: nat, k: K, v: V)
    requires Represents(shards, index, m) && at == Masked(index(k))
    modifies shards
    ensures Represents(shards, index, m[k := v])
  {
    var sh := shards[at];
    hide Split;
    ghost var ms := Maps(shards);
    sh.entries := sh.entries[k := v];
    SplitSet(ms, index, m, k, v);
    assert Maps(shards) == ms[at := sh.entries];
  }

  method Delete<K(!new), V>(shards: seq<Shard<K, V>>, index: K -> uint32, ghost m: map<K, V>, at: nat, k: K)
    requires Represents(shards, index, m) && at == Masked(index(k))
    modifies shards
    ensures Represents(shards, index, m - {k})
  {
    var sh := shards[at];
    hide Split;
    ghost var ms := Maps(shards);
    sh.entries := sh.entries - {k};
    SplitDelete(ms, index, m, k);
    assert Maps(shards) == ms[at := sh.entries];
  }

  /** What is left of a map when the entries that `drop` picks out are deleted. */
  ghost function Kept<K, V>(m: map<K, V>, drop: (K, V) -> bool): (r: map<K, V>) {
    map k | k in m && !drop(k, m[k]) :: m[k]
  }

  /** One shard under its lock: range over the entries and delete. */
  method SweepShard<K(!new), V>(sh: Shard<K, V>, drop: (K, V) -> bool)
    modifies sh
    ensures sh.entries == Kept(old(sh.entries), drop)
  {
    var todo := sh.entries.Keys;
    while todo != {}
      invariant todo <= old(sh.entries).Keys
      invariant forall k :: k in sh.entries <==> k in old(sh.entries) && (k in todo || !drop(k, old(sh.entries)[k]))
      invariant forall k :: k in sh.entries ==> sh.entries[k] == old(sh.entries)[k]
      decreases |todo|
    {
      var k :| k in todo;
      if drop(k, sh.entries[k]) {
        sh.entries := sh.entries - {k};
      }
      todo := todo - {k};
    }
  }

  /** Sweeping every shard in turn is one filter on the flat map. */
  method Sweep<K(!new), V>(shards: seq<Shard<K, V>>, index: K -> uint32, ghost m: map<K, V>, drop: (K, V) -> bool)
    requires Represents(shards, index, m)
    modifies shards
    ensures Represents(shards, index, Kept(m, drop))
  {
    hide Split, Kept;
    ghost var ms := Maps(shards);
    for i := 0 to SHARD_COUNT
      invariant forall j :: 0 <= j < i ==> shards[j].entries == Kept(ms[j], drop)
      invariant forall j :: i <= j < SHARD_COUNT ==> shards[j].entries == ms[j]
    {
      SweepShard(shards[i], drop);
    }
    SplitKept(ms, Maps(shards), index, m, drop);
  }
}
