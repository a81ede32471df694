/** The three pieces of state runtime.Manager's mutex guards, on values: the map from
    function-version key to managed pool, the recency list, and every managed pool ever
    created. A managed pool is named by its index in `keys`. */
module PoolTable {
  type Key = string

  datatype Table = Table(
    pools: map<Key, nat>,  // Manager.pools
    lru: seq<nat>,         // Manager.lru, most recently used first
    keys: seq<Key>         // managedPool.key of every incarnation ever inserted
  )

  const EMPTY := Table(map[], [], [])

  datatype Lookup = Lookup(table: Table, mp: nat, hit: bool, victims: seq<nat>)

  /** list.List.Remove on a list whose elements are all different. */
  function Without<T(==,!new)>(s: seq<T>, x: T): (r: seq<T>)
    ensures x !in r
    ensures forall y :: y in r <==> y in s && y != x
    ensures |r| <= |s|
  {
    if s == [] then []
    else if s[0] == x then Without(s[1..], x)
    else [s[0]] + Without(s[1..], x)
  }

  ghost predicate Distinct<T(!new)>(s: seq<T>) {
    forall i, j :: 0 <= i < j < |s| ==> s[i] != s[j]
  }

  lemma {:induction false} WithoutKeepsDistinct<T(!new)>(s: seq<T>, x: T)
    requires Distinct(s)
    ensures Distinct(Without(s, x))
    ensures |Without(s, x)| == if x in s then |s| - 1 else |s|
  {
    if s != [] {
      assert forall i, j :: 0 <= i < j < |s[1..]| ==> s[1..][i] == s[i + 1] && s[1..][j] == s[j + 1];
      WithoutKeepsDistinct(s[1..], x);
      assert s[0] !in s[1..];
      assert x in s <==> s[0] == x || x in s[1..];
    }
  }

  lemma {:induction false} WithoutAbsent<T(!new)>(s: seq<T>, x: T)
    requires x !in s
    ensures Without(s, x) == s
  {
    if s != [] { WithoutAbsent(s[1..], x); }
  }

  /** touchLocked. */
  function Touch(cap: int, t: Table, mp: nat): Table {
    if cap <= 0 then t else t.(lru := [mp] + Without(t.lru, mp))
  }

  /** evictIfOverCapLocked: the victims are the empty or a one-element sequence. */
  function EvictIfOverCap(cap: int, t: Table): (Table, seq<nat>)
    requires forall mp :: mp in t.lru ==> mp < |t.keys|
  {
    if cap <= 0 || |t.lru| <= cap then (t, [])
    else
      var victim := t.lru[|t.lru| - 1];
      assert victim in t.lru;
      (t.(lru := t.lru[..|t.lru| - 1], pools := t.pools - {t.keys[victim]}), [victim])
  }

  /** HandlerFor's critical section. */
  function Get(cap: int, t: Table, key: Key): Lookup
    requires Consistent(cap, t)
  {
    if key in t.pools then Lookup(Touch(cap, t, t.pools[key]), t.pools[key], true, [])
    else
      var mp: nat := |t.keys|;
      var (after, victims) := EvictIfOverCap(cap, Touch(cap, Inserted(t, key), mp));
      Lookup(after, mp, false, victims)
  }

  /** Invalidate's critical section. */
  function Drop(t: Table, key: Key): (Table, seq<nat>) {
    if key in t.pools
    then (t.(pools := t.pools - {key}, lru := Without(t.lru, t.pools[key])), [t.pools[key]])
    else (t, [])
  }

  /** Close's critical section: both containers are replaced by empty ones. */
  function Clear(t: Table): Table {
    t.(pools := map[], lru := [])
  }

  predicate Tracked(t: Table, mp: nat) {
    mp < |t.keys| && t.keys[mp] in t.pools && t.pools[t.keys[mp]] == mp
  }

  /** What holds whenever the mutex is free: the map is keyed by its entries' own keys,
      and under a positive cap the list holds exactly the mapped pools, each once, at most
      `cap` of them. Without a cap the list is never used. */
  ghost predicate Consistent(cap: int, t: Table) {
    && (forall k :: k in t.pools ==> t.pools[k] < |t.keys| && t.keys[t.pools[k]] == k)
    && (if cap > 0
        then Distinct(t.lru) && |t.lru| <= cap && (forall mp :: mp in t.lru <==> Tracked(t, mp))
        else t.lru == [])
  }

  /** The table just after a miss has inserted its new entry, before any eviction. */
  function Inserted(t: Table, key: Key): Table {
    t.(pools := t.pools[key := |t.keys|], keys := t.keys + [key])
  }

  lemma {:induction false} InsertTracks(cap: int, t: Table, key: Key)
    requires Consistent(cap, t) && key !in t.pools
    ensures var i := Inserted(t, key);
      && (forall k :: k in i.pools ==> i.pools[k] < |i.keys| && i.keys[i.pools[k]] == k)
      && (forall mp: nat :: Tracked(i, mp) <==> Tracked(t, mp) || mp == |t.keys|)
  {
    var i := Inserted(t, key);
    forall mp: nat ensures Tracked(i, mp) <==> Tracked(t, mp) || mp == |t.keys| {
      if mp < |t.keys| {
        assert i.keys[mp] == t.keys[mp];
        if t.keys[mp] == key { assert !Tracked(t, mp); }
      }
    }
  }

  lemma {:induction false} InsertTouch(cap: int, t: Table, key: Key)
    requires Consistent(cap, t) && key !in t.pools && cap > 0
    ensures Touch(cap, Inserted(t, key), |t.keys|).lru == [|t.keys|] + t.lru
    ensures |t.keys| !in t.lru && Distinct([|t.keys|] + t.lru)
  {
    var mp: nat := |t.keys|;
    assert !Tracked(t, mp);
    WithoutAbsent(t.lru, mp);
  }

  /** What one lookup does to the tracked pools. */
  ghost predicate LookupEffect(cap: int, t: Table, key: Key, g: Lookup) {
    && Tracked(g.table, g.mp) && g.table.keys[g.mp] == key
    && (cap > 0 ==> g.table.lru != [] && g.table.lru[0] == g.mp)
    && g.hit == (key in t.pools)
    && (g.hit ==> g.table.keys == t.keys && g.table.pools == t.pools && g.victims == [])
    && (!g.hit ==> g.mp == |t.keys| && g.table.keys == t.keys + [key])
    && |g.victims| <= 1
    && (|g.victims| == 1 <==> !g.hit && cap > 0 && |t.lru| == cap)
    && (forall v :: v in g.victims ==> Tracked(t, v) && v != g.mp && t.lru != [] && v == t.lru[|t.lru| - 1])
    && (forall mp: nat :: Tracked(g.table, mp) <==> (Tracked(t, mp) || mp == g.mp) && mp !in g.victims)
  }

  lemma {:induction false} EvictUntracks(t: Table, t': Table, victim: nat)
    requires forall k :: k in t.pools ==> t.pools[k] < |t.keys| && t.keys[t.pools[k]] == k
    requires Tracked(t, victim)
    requires t'.keys == t.keys && t'.pools == t.pools - {t.keys[victim]}
    ensures forall mp: nat :: Tracked(t', mp) <==> Tracked(t, mp) && mp != victim
  {
  }

  lemma {:induction false} MissShape(cap: int, t: Table, key: Key)
    requires Consistent(cap, t) && key !in t.pools
    ensures var g, i := Get(cap, t, key), Inserted(t, key);
      && g.mp == |t.keys| && !g.hit
      && (cap <= 0 ==> g.table == i && g.victims == [])
      && (cap > 0 && |t.lru| < cap ==> g.table == i.(lru := [g.mp] + t.lru) && g.victims == [])
      && (cap > 0 && |t.lru| == cap ==>
            var victim := t.lru[cap - 1];
            && victim < |t.keys|
            && g.victims == [victim]
            && g.table == i.(lru := [g.mp] + t.lru[..cap - 1], pools := i.pools - {t.keys[victim]}))
  {
    if cap > 0 {
      InsertTouch(cap, t, key);
      if |t.lru| == cap {
        var victim := t.lru[cap - 1];
        assert victim in t.lru;
        assert ([|t.keys|] + t.lru)[..cap] == [|t.keys|] + t.lru[..cap - 1];
      }
    }
  }

  lemma {:induction false} EvictingMiss(cap: int, t: Table, key: Key)
    requires Consistent(cap, t) && key !in t.pools && cap > 0 && |t.lru| == cap
    ensures LookupEffect(cap, t, key, Get(cap, t, key)) && Consistent(cap, Get(cap, t, key).table)
  {
    var i, g, victim := Inserted(t, key), Get(cap, t, key), t.lru[cap - 1];
    MissShape(cap, t, key);
    InsertTracks(cap, t, key);
    InsertTouch(cap, t, key);
    assert victim in t.lru && Tracked(t, victim);
    EvictUntracks(i, g.table, victim);
    forall m: nat ensures m in g.table.lru <==> Tracked(g.table, m) {
      if m in t.lru && m != victim {
        var j :| 0 <= j < |t.lru| && t.lru[j] == m;
        assert t.lru[..cap - 1][j] == m;
      }
    }
  }

  lemma {:induction false} GrowingMiss(cap: int, t: Table, key: Key)
    requires Consistent(cap, t) && key !in t.pools && (cap > 0 ==> |t.lru| < cap)
    ensures LookupEffect(cap, t, key, Get(cap, t, key)) && Consistent(cap, Get(cap, t, key).table)
  {
    var i, g := Inserted(t, key), Get(cap, t, key);
    MissShape(cap, t, key);
    InsertTracks(cap, t, key);
    if cap > 0 { InsertTouch(cap, t, key); }
    assert forall m: nat :: Tracked(g.table, m) <==> Tracked(i, m);
  }

  /** Key lookup: the pool answered is tracked under that key and is now the most recently
      used; a miss inserts a new incarnation and evicts at most one pool, the least recently
      used and never the new one; no other pool's tracking changes. */
  lemma {:induction false} GetKeepsTable(cap: int, t: Table, key: Key)
    requires Consistent(cap, t)
    ensures Consistent(cap, Get(cap, t, key).table)
    ensures LookupEffect(cap, t, key, Get(cap, t, key))
  {
    if key in t.pools {
      var mp := t.pools[key];
      var g := Get(cap, t, key);
      assert Tracked(t, mp);
      WithoutKeepsDistinct(t.lru, mp);
      assert forall m: nat :: Tracked(g.table, m) <==> Tracked(t, m);
    } else {
      if cap > 0 && |t.lru| == cap { EvictingMiss(cap, t, key); } else { GrowingMiss(cap, t, key); }
    }
  }

  lemma {:induction false} DropKeepsTable(cap: int, t: Table, key: Key)
    requires Consistent(cap, t)
    ensures var (after, gone) := Drop(t, key);
      && Consistent(cap, after) && after.keys == t.keys
      && key !in after.pools
      && |gone| <= 1 && (|gone| == 1 <==> key in t.pools)
      && (forall mp :: mp in gone ==> Tracked(t, mp) && t.keys[mp] == key)
      && (forall mp :: Tracked(after, mp) <==> Tracked(t, mp) && mp !in gone)
  {
    if key in t.pools {
      WithoutKeepsDistinct(t.lru, t.pools[key]);
    }
  }
}
