/** runtime.Manager's critical sections as they are written: a map, a list of elements with
    back-pointers from the managed pools, and fields updated in place. Each one is proved
    against the table function of PoolTable that the interleaving model steps through. */
module ManagerObject {
  import opened PoolTable

  /** A list.Element of Manager.lru. */
  class Element {
    const value: ManagedPool

    constructor (value: ManagedPool)
      ensures this.value == value
    {
      this.value := value;
    }
  }

  class ManagedPool {
    const key: Key
    var elem: Element?
    ghost const id: nat

    constructor (key: Key, ghost id: nat)
      ensures this.key == key && this.id == id && elem == null
    {
      this.key, this.id, elem := key, id, null;
    }
  }

  ghost function Ids(lru: seq<Element>): (ids: seq<nat>)
    ensures |ids| == |lru|
    ensures forall i :: 0 <= i < |ids| ==> ids[i] == lru[i].value.id
  {
    if lru == [] then [] else [lru[0].value.id] + Ids(lru[1..])
  }

  lemma {:induction false} FrontIds(lru: seq<Element>)
    requires lru != []
    ensures Ids(lru[..|lru| - 1]) == Ids(lru)[..|lru| - 1]
  {
  }

  /** list.List.Remove. */
  function Removed(lru: seq<Element>, e: Element): seq<Element> {
    if lru == [] then []
    else if lru[0] == e then Removed(lru[1..], e)
    else [lru[0]] + Removed(lru[1..], e)
  }

  lemma {:induction false} RemovedIds(lru: seq<Element>, e: Element)
    requires forall i :: 0 <= i < |lru| && lru[i].value.id == e.value.id ==> lru[i] == e
    ensures Ids(Removed(lru, e)) == Without(Ids(lru), e.value.id)
  {
    if lru != [] {
      assert forall i :: 0 <= i < |lru[1..]| ==> lru[1..][i] == lru[i + 1];
      RemovedIds(lru[1..], e);
    }
  }

  lemma {:induction false} RemovedFrom(lru: seq<Element>, e: Element, i: nat) returns (j: nat)
    requires i < |Removed(lru, e)|
    ensures j < |lru| && lru[j] == Removed(lru, e)[i] && lru[j] != e
  {
    if lru[0] == e {
      j := RemovedFrom(lru[1..], e, i);
      j := j + 1;
    } else if i == 0 {
      j := 0;
    } else {
      j := RemovedFrom(lru[1..], e, i - 1);
      j := j + 1;
    }
  }

  ghost function PoolIds(pools: map<Key, ManagedPool>): (ids: map<Key, nat>)
    ensures ids.Keys == pools.Keys && forall k :: k in pools ==> ids[k] == pools[k].id
  {
    map k | k in pools :: pools[k].id
  }

  lemma {:induction false} PoolIdsWithout(pools: map<Key, ManagedPool>, key: Key)
    ensures PoolIds(pools - {key}) == PoolIds(pools) - {key}
  {
  }

  ghost function KeysOf(made: seq<ManagedPool>): (keys: seq<Key>)
    ensures |keys| == |made| && forall i :: 0 <= i < |made| ==> keys[i] == made[i].key
  {
    seq(|made|, i requires 0 <= i < |made| => made[i].key)
  }

  lemma {:induction false} OneMorePool(pools: map<Key, ManagedPool>, made: seq<ManagedPool>, mp: ManagedPool)
    ensures PoolIds(pools[mp.key := mp]) == PoolIds(pools)[mp.key := mp.id]
    ensures KeysOf(made + [mp]) == KeysOf(made) + [mp.key]
  {
  }

  class Manager {
    var pools: map<Key, ManagedPool>
    var lru: seq<Element>
    const maxPools: int
    ghost var made: seq<ManagedPool>  // every managed pool ever inserted

    constructor (maxPools: int)
      ensures this.maxPools == maxPools && Valid() && View() == EMPTY
    {
      this.maxPools := maxPools;
      pools, lru, made := map[], [], [];
    }

    ghost predicate Made(mp: ManagedPool)
      reads this
    {
      mp.id < |made| && made[mp.id] == mp
    }

    ghost function View(): Table
      reads this
    {
      Table(PoolIds(pools), Ids(lru), KeysOf(made))
    }

    /** Every list element is the element its pool points back to. */
    ghost predicate Wired()
      reads this, made
    {
      && (forall i :: 0 <= i < |made| ==> made[i].id == i)
      && (forall k :: k in pools ==> Made(pools[k]))
      && (forall i :: 0 <= i < |lru| ==> Made(lru[i].value) && lru[i].value.elem == lru[i])
      && (maxPools <= 0 ==> lru == [])
    }

    ghost predicate Valid()
      reads this, made
    {
      && Wired()
      && Consistent(maxPools, View())
      && (maxPools <= 0 ==> forall k :: k in pools ==> pools[k].elem == null)
    }

    lemma {:induction false} SameIdSameElement(e: Element)
      requires Wired() && Made(e.value) && e.value.elem == e
      ensures forall i :: 0 <= i < |lru| && lru[i].value.id == e.value.id ==> lru[i] == e
    {
    }

    method TouchLocked(mp: ManagedPool)
      requires Wired() && Made(mp)
      requires mp.elem != null ==> mp.elem in lru && mp.elem.value == mp
      modifies this`lru, mp`elem
      ensures Wired() && View() == Touch(maxPools, old(View()), mp.id)
      ensures maxPools <= 0 ==> mp.elem == old(mp.elem)
    {
      if maxPools <= 0 {
        return;
      }
      ghost var before := lru;
      if mp.elem != null {
        SameIdSameElement(mp.elem);
        RemovedIds(lru, mp.elem);
        lru := [mp.elem] + Removed(lru, mp.elem);
      } else {
        assert forall i :: 0 <= i < |lru| ==> lru[i].value.id != mp.id;
        WithoutAbsent(Ids(lru), mp.id);
        var e := new Element(mp);
        mp.elem := e;
        lru := [e] + lru;
      }
      forall i | 0 <= i < |lru| ensures Made(lru[i].value) && lru[i].value.elem == lru[i] {
        if i > 0 && old(mp.elem) != null {
          var j := RemovedFrom(before, mp.elem, i - 1);
        } else if i > 0 {
          assert lru[i] == before[i - 1] && before[i - 1].value.id != mp.id;
        }
      }
      assert Ids(lru) == [mp.id] + Without(Ids(before), mp.id);
    }

    method EvictIfOverCapLocked() returns (victim: ManagedPool?)
      requires Wired() && forall id :: id in Ids(lru) ==> id < |made|
      requires forall i, j :: 0 <= i < j < |lru| ==> lru[i].value.id != lru[j].value.id
      modifies this`lru, this`pools
      ensures Wired()
      ensures View().keys == old(View().keys)
      ensures var (after, victims) := EvictIfOverCap(maxPools, old(View()));
        View() == after && victims == if victim == null then [] else [victim.id]
      ensures victim != null ==> Made(victim)
      ensures forall k :: k in pools ==> k in old(pools) && pools[k] == old(pools[k])
    {
      if maxPools <= 0 || |lru| <= maxPools {
        return null;
      }
      var back := lru[|lru| - 1];
      victim := back.value;
      RemovedLast(lru);
      FrontIds(lru);
      lru := Removed(lru, back);
      DeleteKeyLocked(victim.key);
    }

    method InsertLocked(key: Key) returns (mp: ManagedPool)
      requires Valid() && key !in pools
      modifies this`pools, this`made
      ensures Wired() && Made(mp) && fresh(mp) && mp.elem == null && made == old(made) + [mp]
      ensures lru == old(lru) && mp.key == key && mp.id == |old(made)|
      ensures View() == Inserted(old(View()), key)
      ensures pools == old(pools)[key := mp]
    {
      mp := new ManagedPool(key, |made|);
      OneMorePool(pools, made, mp);
      pools := pools[key := mp];
      made := made + [mp];
    }

    /** HandlerFor's miss path under the mutex: insert, touch, evict if over the cap. */
    method MissLocked(key: Key) returns (mp: ManagedPool, victim: ManagedPool?)
      requires Valid() && key !in pools
      modifies this`pools, this`lru, this`made
      ensures Wired() && Made(mp) && mp.key == key && old(made) <= made
      ensures fresh(mp) && made == old(made) + [mp] && (maxPools <= 0 ==> mp.elem == null)
      ensures var g := Get(maxPools, old(View()), key);
        && View() == g.table && mp.id == g.mp
        && g.victims == if victim == null then [] else [victim.id]
      ensures victim != null ==> Made(victim)
      ensures forall k :: k in pools ==> pools[k] == mp || (k in old(pools) && pools[k] == old(pools[k]))
    {
      ghost var t := View();
      ListIsMade();
      mp := InsertLocked(key);
      TouchLocked(mp);
      if maxPools > 0 { InsertTouch(maxPools, t, key); }
      victim := EvictIfOverCapLocked();
    }

    /** The part of HandlerFor that runs under the mutex. */
    method Lookup(key: Key) returns (mp: ManagedPool, victim: ManagedPool?)
      requires Valid()
      modifies this`pools, this`lru, this`made, made
      ensures Valid() && Made(mp)
      ensures var g := Get(maxPools, old(View()), key);
        && View() == g.table && mp.id == g.mp && mp.key == key
        && g.victims == if victim == null then [] else [victim.id]
      ensures old(made) <= made && (victim != null ==> Made(victim))
    {
      GetKeepsTable(maxPools, View(), key);
      if key in pools {
        mp := pools[key];
        victim := null;
        TrackedHasElement(mp);
        TouchLocked(mp);
      } else {
        mp, victim := MissLocked(key);
      }
    }

    /** delete(m.pools, key). */
    method DeleteKeyLocked(key: Key)
      requires Wired()
      modifies this`pools
      ensures Wired() && View() == old(View()).(pools := old(View()).pools - {key})
      ensures pools == old(pools) - {key}
    {
      PoolIdsWithout(pools, key);
      pools := pools - {key};
    }

    method RemoveElementLocked(mp: ManagedPool)
      requires Wired() && Made(mp)
      requires if maxPools > 0 then mp.elem != null && mp.elem in lru && mp.elem.value == mp else mp.elem == null
      modifies this`lru
      ensures Wired() && View() == old(View()).(lru := Without(old(View()).lru, mp.id))
    {
      assert mp.elem == null ==> lru == [] && Without(Ids(lru), mp.id) == [];
      if mp.elem != null {
        ghost var before := lru;
        SameIdSameElement(mp.elem);
        RemovedIds(lru, mp.elem);
        lru := Removed(lru, mp.elem);
        forall i | 0 <= i < |lru| ensures Made(lru[i].value) && lru[i].value.elem == lru[i] {
          var j := RemovedFrom(before, mp.elem, i);
        }
      }
    }

    /** The part of Invalidate that runs under the mutex. */
    method InvalidateLocked(key: Key) returns (gone: ManagedPool?)
      requires Valid()
      modifies this`pools, this`lru
      ensures Valid() && made == old(made)
      ensures var (after, dropped) := Drop(old(View()), key);
        View() == after && dropped == if gone == null then [] else [gone.id]
    {
      DropKeepsTable(maxPools, View(), key);
      if key !in pools {
        return null;
      }
      gone := pools[key];
      TrackedHasElement(gone);
      DeleteKeyLocked(key);
      RemoveElementLocked(gone);
    }

    /** The part of Close that runs under the mutex: it takes the whole map away. */
    method CloseLocked() returns (taken: map<Key, ManagedPool>)
      requires Valid()
      modifies this`pools, this`lru
      ensures Valid() && View() == Clear(old(View())) && taken == old(pools)
    {
      taken := pools;
      pools, lru := map[], [];
    }

    lemma {:induction false} ListIsMade()
      requires Valid()
      ensures forall id :: id in Ids(lru) ==> id < |made|
      ensures forall i, j :: 0 <= i < j < |lru| ==> lru[i].value.id != lru[j].value.id
    {
      assert Distinct(View().lru);
    }

    lemma {:induction false} TrackedHasElement(mp: ManagedPool)
      requires Valid() && mp.key in pools && pools[mp.key] == mp
      ensures if maxPools > 0 then mp.elem != null && mp.elem in lru && mp.elem.value == mp
              else mp.elem == null
    {
      if maxPools > 0 {
        assert Tracked(View(), mp.id);
        var i :| 0 <= i < |lru| && Ids(lru)[i] == mp.id;
        assert lru[i].value == mp;
      }
    }

    lemma {:induction false} RemovedLast(s: seq<Element>)
      requires s != [] && forall i, j :: 0 <= i < j < |s| ==> s[i].value.id != s[j].value.id
      ensures Removed(s, s[|s| - 1]) == s[..|s| - 1]
    {
      if |s| > 1 {
        assert forall i :: 0 <= i < |s[1..]| ==> s[1..][i] == s[i + 1];
        RemovedLast(s[1..]);
      }
    }
  }
}
