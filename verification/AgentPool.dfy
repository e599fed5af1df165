/** The pool itself: each method is one section under Pool.mu, proved against its function in PoolSpec. */
module AgentPool {
  import opened PoolSpec

  const DEFAULT_CAPACITY := 200
  const DEFAULT_IDLE_TTL_SECONDS := 1800

  class SessionPool {
    const capacity: int
    const idleTtl: int
    var items: map<Key, Entry>
    var lru: seq<Entry>      // front = most recently used
    ghost var made: set<Entry>  // every entry this pool ever created

    ghost function Records(): map<Entry, Rec>
      reads this, made
    {
      map e | e in made :: Rec(e.key, e.eng, e.leases, e.lastTouched)
    }

    ghost function Abs(): Pool
      reads this, made
    {
      Pool(items, lru, Records())
    }

    ghost predicate Valid()
      reads this, made
    {
      capacity >= 1 && idleTtl > 0 && Wf(Abs())
    }

    constructor (capacityOption: int, idleTtlOption: int)
      ensures Valid() && Abs() == Pool(map[], [], map[])
      ensures capacity == if capacityOption <= 0 then DEFAULT_CAPACITY else capacityOption
      ensures idleTtl == if idleTtlOption <= 0 then DEFAULT_IDLE_TTL_SECONDS else idleTtlOption
    {
      capacity := if capacityOption <= 0 then DEFAULT_CAPACITY else capacityOption;
      idleTtl := if idleTtlOption <= 0 then DEFAULT_IDLE_TTL_SECONDS else idleTtlOption;
      items, lru, made := map[], [], {};
    }

    /** The fast path, and the re-check after a build: lease the cached entry, if there is one. */
    method LeaseCached(k: Key, now: int) returns (e: Entry?)
      requires Valid() && NotAfter(Records(), now)
      modifies this`lru, made
      ensures Valid() && made == old(made) && NotAfter(Records(), now)
      ensures k !in old(items) ==> e == null && Abs() == old(Abs())
      ensures k in old(items) ==> e == old(items)[k] && Abs() == Hit(old(Abs()), k, now)
    {
      hide NoDup, Sorted, Linked, SoftBound, NotAfter, IndexOf;
      ghost var p := Abs();
      if k in items {
        CachedFacts(p, k);
        e := items[k];
        e.leases := e.leases + 1;
        e.lastTouched := now;
        lru := MoveToFront(lru, e);
        assert Records() == Hit(p, k, now).ent;
        HitKeeps(p, k, now, |items|, Abs());
      } else {
        e := null;
      }
    }

    /** Walk from the back of the list to the least recently used unleased entry and remove it. */
    method EvictOneIdle() returns (evicted: bool)
      requires Valid()
      modifies this`lru, this`items
      ensures Valid() && Records() == old(Records())
      ensures var i := LastIdle(old(lru), old(Records()), |old(lru)|);
              evicted == (i >= 0) && Abs() == if i >= 0 then RemoveAt(old(Abs()), i) else old(Abs())
    {
      hide NoDup, Sorted, Linked;
      ghost var p := Abs();
      var i := |lru|;
      while i > 0 && lru[i - 1].leases != 0
        invariant 0 <= i <= |lru|
        invariant LastIdle(p.lru, p.ent, |p.lru|) == LastIdle(p.lru, p.ent, i)
      {
        i := i - 1;
      }
      if i == 0 {
        return false;
      }
      items := items - {lru[i - 1].key};
      lru := DropAt(lru, i - 1);
      assert Records() == p.ent;
      RemoveAtKeeps(p, i - 1);
      return true;
    }

    /** The eviction loop of both InsertOrJoin (down to capacity - 1) and the release closure (down to capacity). */
    method EvictWhileOver(bound: int)
      requires Valid()
      modifies this`lru, this`items
      ensures Valid() && Records() == old(Records())
      ensures Abs() == EvictDownTo(old(Abs()), bound)
    {
      hide NoDup, Sorted, Linked;
      ghost var p := Abs();
      while |items| > bound
        invariant Valid() && Records() == p.ent
        invariant EvictDownTo(Abs(), bound) == EvictDownTo(p, bound)
        decreases |lru|
      {
        var evicted := EvictOneIdle();
        if !evicted {
          break;
        }
      }
    }

    /** The second locked section of a miss: join the entry another caller inserted, or make room and insert. */
    method InsertOrJoin(k: Key, eng: Engine, now: int) returns (e: Entry)
      requires Valid() && NotAfter(Records(), now)
      modifies this`items, this`lru, this`made, made
      ensures Valid() && NotAfter(Records(), now)
      ensures k in old(items) ==> e == old(items)[k] && Abs() == Hit(old(Abs()), k, now)
      ensures k !in old(items) ==> fresh(e) && Abs() == Insert(old(Abs()), e, k, eng, now, capacity)
      ensures made == old(made) + {e}
    {
      hide NoDup, Sorted, Linked, SoftBound, NotAfter, Hit, EvictDownTo;
      ghost var p := Abs();
      if k in items {
        CachedFacts(p, k);
        e := LeaseCached(k, now);
        return;
      }
      EvictWhileOver(capacity - 1);
      e := new Entry(k, eng, 1, now);
      lru := [e] + lru;
      items := items[k := e];
      made := made + {e};
      assert Records() == p.ent[e := Rec(k, eng, 1, now)];
      InsertKeeps(p, e, k, eng, now, capacity, Abs());
    }

    /** The first part of the release closure under Pool.mu; e.mu was unlocked just before. */
    method ReturnLease(e: Entry, now: int)
      requires Valid() && e in made && NotAfter(Records(), now)
      modifies this`lru, made
      ensures Valid() && made == old(made) && NotAfter(Records(), now)
      ensures Abs() == Unlease(old(Abs()), e, now)
    {
      hide NoDup, Sorted, Linked, SoftBound, NotAfter, IndexOf;
      ghost var p := Abs();
      UnleaseKeeps(p, e, now);
      if e.leases > 0 {
        e.leases := e.leases - 1;
      }
      e.lastTouched := now;
      if e.key in items && items[e.key] == e {
        CachedFacts(p, e.key);
        lru := MoveToFront(lru, e);
      }
      assert Records() == Unlease(p, e, now).ent;
    }

    /** The whole release: the lease is given back and the pool shrunk to its capacity. */
    method ReleaseLease(e: Entry, now: int)
      requires Valid() && e in made && NotAfter(Records(), now)
      modifies this`lru, this`items, made
      ensures Valid() && made == old(made) && NotAfter(Records(), now)
      ensures Known(Unlease(old(Abs()), e, now).lru, Unlease(old(Abs()), e, now).ent)
      ensures Abs() == Release(old(Abs()), e, now, capacity)
      ensures items == old(items) || (|old(items)| > capacity && |items| >= capacity)
      ensures OnlyOldestIdleGo(old(Abs()), Abs())
    {
      hide NoDup, Sorted, Linked, SoftBound, NotAfter, EvictDownTo, IndexOf, Unlease, OnlyOldestIdleGo;
      ReturnLease(e, now);
      EvictWhileOver(capacity);
      ReleaseEvictsOnlyOverflow(old(Abs()), e, now, capacity, Abs());
    }

    /** The idle sweep walks from the back and stops at the first recently touched entry; the recency order makes that
        early stop remove as much as a full scan would. */
    method EvictIdle(deadline: int)
      requires Valid()
      modifies this`lru, this`items
      ensures Valid() && Abs() == Sweep(old(Abs()), deadline)
    {
      hide NoDup, Sorted, Linked, SoftBound, Survivors;
      ghost var p := Abs();
      var i := |lru|;
      SweepFromEnd(p, deadline);
      while i > 0
        invariant 0 <= i <= |p.lru|
        invariant Abs() == SweepFrom(p, i, deadline)
      {
        var e := lru[i - 1];
        assert e == p.lru[i - 1];
        if e.lastTouched > deadline {
          RecentPrefixStays(p, i, deadline);
          break;
        }
        SweepOne(p, i, deadline, Abs());
        if e.leases == 0 {
          lru := DropAt(lru, i - 1);
          items := items - {e.key};
          assert Records() == p.ent;
        }
        i := i - 1;
      }
      if i == 0 { SweepFromStart(p, deadline); }
      SweepKeeps(p, deadline, |p.items|);
    }
  }

  lemma CachedFacts(p: Pool, k: Key)
    requires Wf(p) && k in p.items
    ensures p.items[k] in p.lru && p.items[k] in p.ent && p.ent[p.items[k]].key == k
  {
  }

  /** The pool once the sweep has dealt with every list position from i on. */
  ghost function SweepFrom(p: Pool, i: nat, deadline: int): Pool
    requires Wf(p) && i <= |p.lru|
  {
    Pool(map k | k in p.items && (p.items[k] in p.lru[..i] || Survives(p.ent[p.items[k]], deadline)) :: p.items[k],
         p.lru[..i] + Survivors(p.lru[i..], p.ent, deadline), p.ent)
  }

  lemma SweepFromEnd(p: Pool, deadline: int)
    requires Wf(p)
    ensures SweepFrom(p, |p.lru|, deadline) == p
  {
    assert p.lru[..|p.lru|] == p.lru;
    assert SweepFrom(p, |p.lru|, deadline).items == p.items;
  }

  lemma SweepFromStart(p: Pool, deadline: int)
    requires Wf(p)
    ensures SweepFrom(p, 0, deadline) == Sweep(p, deadline)
  {
    assert p.lru[0..] == p.lru;
    assert SweepFrom(p, 0, deadline).items == Sweep(p, deadline).items;
  }

  /** Everything in front of a recently touched entry is at least as recent, so the sweep may stop there. */
  lemma RecentPrefixStays(p: Pool, i: nat, deadline: int)
    requires Wf(p) && 0 < i <= |p.lru| && p.ent[p.lru[i - 1]].touched > deadline
    ensures SweepFrom(p, i, deadline) == Sweep(p, deadline)
  {
    FrontSurvives(p, i, deadline);
    FrontListStays(p.lru, i, p.ent, deadline);
    hide Sorted, NoDup, Survives, Survivors, Linked;
    FrontItemsStay(p, i, deadline, SweepFrom(p, i, deadline).items, Sweep(p, deadline).items);
  }

  lemma FrontSurvives(p: Pool, i: nat, deadline: int)
    requires Wf(p) && 0 < i <= |p.lru| && p.ent[p.lru[i - 1]].touched > deadline
    ensures forall e :: e in p.lru[..i] ==> Survives(p.ent[e], deadline)
  {
    var front := p.lru[..i];
    forall e | e in front ensures Survives(p.ent[e], deadline) {
      var j := IndexOf(front, e);
      assert p.lru[j] == e;
    }
  }

  lemma FrontListStays(lru: seq<Entry>, i: nat, ent: map<Entry, Rec>, deadline: int)
    requires Known(lru, ent) && i <= |lru| && forall e :: e in lru[..i] ==> Survives(ent[e], deadline)
    ensures lru[..i] + Survivors(lru[i..], ent, deadline) == Survivors(lru, ent, deadline)
  {
    assert lru == lru[..i] + lru[i..];
    AllSurvive(lru[..i], ent, deadline);
    SurvivorsConcat(lru[..i], lru[i..], ent, deadline);
  }

  lemma FrontItemsStay(p: Pool, i: nat, deadline: int, before: map<Key, Entry>, after: map<Key, Entry>)
    requires Wf(p) && i <= |p.lru| && before == SweepFrom(p, i, deadline).items && after == Sweep(p, deadline).items
    requires forall e :: e in p.lru[..i] ==> Survives(p.ent[e], deadline)
    ensures before == after
  {
    hide Sorted, NoDup, Survives, Survivors;
  }

  lemma SweepOne(p: Pool, i: nat, deadline: int, q: Pool)
    requires Wf(p) && 0 < i <= |p.lru| && p.ent[p.lru[i - 1]].touched <= deadline && q == SweepFrom(p, i, deadline)
    ensures i <= |q.lru| && q.lru[i - 1] == p.lru[i - 1]
    ensures SweepFrom(p, i - 1, deadline)
              == if p.ent[p.lru[i - 1]].leases == 0
                 then Pool(q.items - {p.ent[p.lru[i - 1]].key}, DropAt(q.lru, i - 1), p.ent) else q
  {
    SweepOneList(p.lru, i, p.ent, deadline);
    SweepOneItems(p, i, deadline, q.items, SweepFrom(p, i - 1, deadline).items);
    hide NoDup, Sorted, Linked, Survivors, Survives, DropAt;
  }

  lemma SweepOneList(lru: seq<Entry>, i: nat, ent: map<Entry, Rec>, deadline: int)
    requires Known(lru, ent) && 0 < i <= |lru| && ent[lru[i - 1]].touched <= deadline
    ensures var q := lru[..i] + Survivors(lru[i..], ent, deadline);
      lru[..i - 1] + Survivors(lru[i - 1..], ent, deadline)
      == if ent[lru[i - 1]].leases == 0 then DropAt(q, i - 1) else q
  {
    var e, rest := lru[i - 1], Survivors(lru[i..], ent, deadline);
    assert lru[i - 1..][1..] == lru[i..];
    assert Survivors(lru[i - 1..], ent, deadline) == if ent[e].leases == 0 then rest else [e] + rest;
    hide Survivors, Survives;
    assert lru[..i] == lru[..i - 1] + [e];
  }

  lemma SweepOneItems(p: Pool, i: nat, deadline: int, before: map<Key, Entry>, after: map<Key, Entry>)
    requires Wf(p) && 0 < i <= |p.lru| && p.ent[p.lru[i - 1]].touched <= deadline
    requires before == map k | k in p.items
      && (p.items[k] in p.lru[..i] || Survives(p.ent[p.items[k]], deadline)) :: p.items[k]
    requires after == map k | k in p.items
      && (p.items[k] in p.lru[..i - 1] || Survives(p.ent[p.items[k]], deadline)) :: p.items[k]
    ensures after == if p.ent[p.lru[i - 1]].leases == 0 then before - {p.ent[p.lru[i - 1]].key} else before
  {
    LastOfPrefix(p, i);
    var e := p.lru[i - 1];
    var key, idle := p.ent[e].key, p.ent[e].leases == 0;
    assert key in p.items && p.items[key] == e && (Survives(p.ent[e], deadline) <==> !idle);
    var kept := set x | x in p.ent && Survives(p.ent[x], deadline);
    SweepOneKeys(p.items, p.lru[..i - 1], p.lru[..i], kept, key, idle, before, after);
  }

  /** Taking an entry out of those always kept drops its key, if it is not kept anyway. */
  lemma SweepOneKeys(items: map<Key, Entry>, fewer: seq<Entry>, more: seq<Entry>, kept: set<Entry>, key: Key,
                     idle: bool,
                     before: map<Key, Entry>, after: map<Key, Entry>)
    requires key in items && (items[key] in kept <==> !idle)
    requires forall k :: k in items ==> (items[k] in fewer <==> items[k] in more && k != key)
    requires items[key] in more
    requires before == map k | k in items && (items[k] in more || items[k] in kept) :: items[k]
    requires after == map k | k in items && (items[k] in fewer || items[k] in kept) :: items[k]
    ensures after == if idle then before - {key} else before
  {
  }

  /** Of the keys in the first i list positions one is left out by the first i - 1. */
  lemma LastOfPrefix(p: Pool, i: nat)
    requires Wf(p) && 0 < i <= |p.lru|
    ensures forall k :: k in p.items ==>
      (p.items[k] in p.lru[..i - 1] <==> p.items[k] in p.lru[..i] && k != p.ent[p.lru[i - 1]].key)
  {
    hide Sorted;
    var e := p.lru[i - 1];
    assert e !in p.lru[..i - 1];
    hide NoDup;
    assert p.lru[..i] == p.lru[..i - 1] + [e];
  }
}
