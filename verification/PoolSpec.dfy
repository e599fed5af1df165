/** The pool's lock-protected data as a value, and what one critical section of Pool.mu does to it. */
module PoolSpec {

  /** Engines of different owners never share a key, whatever their session ids. */
  datatype Key = Key(owner: string, sessionId: string)

  /** A *engine.Engine, known only by its identity. */
  type Engine = nat

  /** One cache entry. A value of the specification uses only its identity; its mutable part is a Rec. */
  class Entry {
    const key: Key
    const eng: Engine
    var leases: nat
    var lastTouched: int

    constructor (key: Key, eng: Engine, leases: nat, lastTouched: int)
      ensures this.key == key && this.eng == eng
      ensures this.leases == leases && this.lastTouched == lastTouched
    {
      this.key, this.eng, this.leases, this.lastTouched := key, eng, leases, lastTouched;
    }
  }

  datatype Rec = Rec(key: Key, eng: Engine, leases: nat, touched: int)

  /** ent keeps every entry ever made, also the evicted ones; lru runs from newest to oldest. */
  datatype Pool = Pool(items: map<Key, Entry>, lru: seq<Entry>, ent: map<Entry, Rec>)

  ghost predicate NoDup(s: seq<Entry>) {
    forall i, j :: 0 <= i < j < |s| ==> s[i] != s[j]
  }

  predicate Known(s: seq<Entry>, ent: map<Entry, Rec>) {
    forall e :: e in s ==> e in ent
  }

  ghost predicate Sorted(lru: seq<Entry>, ent: map<Entry, Rec>)
    requires Known(lru, ent)
  {
    forall i, j :: 0 <= i < j < |lru| ==> ent[lru[i]].touched >= ent[lru[j]].touched
  }

  /** items and lru are two views of one set of entries. */
  ghost predicate Linked(items: map<Key, Entry>, lru: seq<Entry>, ent: map<Entry, Rec>)
    requires Known(lru, ent)
  {
    && (forall k :: k in items ==> items[k] in lru && ent[items[k]].key == k)
    && (forall e :: e in lru ==> ent[e].key in items && items[ent[e].key] == e)
  }

  ghost predicate Wf(p: Pool) {
    && NoDup(p.lru)
    && Known(p.lru, p.ent)
    && Linked(p.items, p.lru, p.ent)
    && Sorted(p.lru, p.ent)
  }

  ghost predicate NotAfter(ent: map<Entry, Rec>, now: int) {
    forall e :: e in ent ==> ent[e].touched <= now
  }

  ghost predicate AllLeased(lru: seq<Entry>, ent: map<Entry, Rec>) {
    forall e :: e in lru && e in ent ==> ent[e].leases > 0
  }

  /** The soft capacity: overflow is allowed only while nothing can be evicted. */
  ghost predicate SoftBound(p: Pool, capacity: int) {
    |p.items| <= capacity || AllLeased(p.lru, p.ent)
  }

  function IndexOf(s: seq<Entry>, e: Entry): (i: nat)
    requires e in s
    ensures i < |s| && s[i] == e
  {
    if s[0] == e then 0 else 1 + IndexOf(s[1..], e)
  }

  function DropAt(s: seq<Entry>, i: nat): seq<Entry>
    requires i < |s|
  {
    s[..i] + s[i + 1..]
  }

  function MoveToFront(s: seq<Entry>, e: Entry): seq<Entry>
    requires e in s
  {
    [e] + DropAt(s, IndexOf(s, e))
  }

  /** A cache hit, and equally a build that lost the race to insert. */
  function Hit(p: Pool, k: Key, now: int): Pool
    requires k in p.items && p.items[k] in p.ent && p.items[k] in p.lru
  {
    var e := p.items[k];
    var r := p.ent[e];
    Pool(p.items, MoveToFront(p.lru, e), p.ent[e := Rec(r.key, r.eng, r.leases + 1, now)])
  }

  /** Position of the least recently used unleased entry among the first n, or -1. */
  function LastIdle(lru: seq<Entry>, ent: map<Entry, Rec>, n: nat): (i: int)
    requires n <= |lru| && Known(lru, ent)
    ensures -1 <= i < n
    ensures i >= 0 ==> ent[lru[i]].leases == 0
    ensures forall j :: i < j < n ==> ent[lru[j]].leases != 0
  {
    if n == 0 then -1
    else if ent[lru[n - 1]].leases == 0 then n - 1
    else LastIdle(lru, ent, n - 1)
  }

  function RemoveAt(p: Pool, i: nat): Pool
    requires i < |p.lru| && p.lru[i] in p.ent
  {
    Pool(p.items - {p.ent[p.lru[i]].key}, DropAt(p.lru, i), p.ent)
  }

  /** Evict idle entries, oldest first, until at most bound remain or none is idle. */
  function EvictDownTo(p: Pool, bound: int): Pool
    requires Known(p.lru, p.ent)
    decreases |p.lru|
  {
    var i := LastIdle(p.lru, p.ent, |p.lru|);
    if |p.items| <= bound || i < 0 then p
    else
      var q := RemoveAt(p, i);
      assert forall e :: e in q.lru ==> e in p.lru;
      EvictDownTo(q, bound)
  }

  function Insert(p: Pool, e: Entry, k: Key, eng: Engine, now: int, capacity: int): Pool
    requires Known(p.lru, p.ent)
  {
    var q := EvictDownTo(p, capacity - 1);
    Pool(q.items[k := e], [e] + q.lru, q.ent[e := Rec(k, eng, 1, now)])
  }

  function Unlease(p: Pool, e: Entry, now: int): Pool
    requires e in p.ent
  {
    var r := p.ent[e];
    var ent := p.ent[e := Rec(r.key, r.eng, if r.leases > 0 then r.leases - 1 else 0, now)];
    var lru := if r.key in p.items && p.items[r.key] == e && e in p.lru then MoveToFront(p.lru, e) else p.lru;
    Pool(p.items, lru, ent)
  }

  function Release(p: Pool, e: Entry, now: int, capacity: int): Pool
    requires e in p.ent && Known(Unlease(p, e, now).lru, Unlease(p, e, now).ent)
  {
    EvictDownTo(Unlease(p, e, now), capacity)
  }

  predicate Survives(r: Rec, deadline: int) {
    r.leases != 0 || r.touched > deadline
  }

  function Survivors(lru: seq<Entry>, ent: map<Entry, Rec>, deadline: int): seq<Entry>
    requires Known(lru, ent)
  {
    if lru == [] then []
    else if Survives(ent[lru[0]], deadline) then [lru[0]] + Survivors(lru[1..], ent, deadline)
    else Survivors(lru[1..], ent, deadline)
  }

  /** The idle sweep, stated without any order: exactly the unleased entries not touched since the deadline go. */
  function Sweep(p: Pool, deadline: int): Pool
    requires Known(p.lru, p.ent) && Linked(p.items, p.lru, p.ent)
  {
    Pool(map k | k in p.items && Survives(p.ent[p.items[k]], deadline) :: p.items[k],
         Survivors(p.lru, p.ent, deadline), p.ent)
  }

  // ---------- what the sections keep ----------

  lemma DropAtFacts(s: seq<Entry>, i: nat)
    requires NoDup(s) && i < |s|
    ensures NoDup(DropAt(s, i))
    ensures forall x :: x in DropAt(s, i) <==> x in s && x != s[i]
  {
    assert s == s[..i] + [s[i]] + s[i + 1..];
  }

  /** A list stays sorted when one of its entries is dropped. */
  lemma DropAtSorted(s: seq<Entry>, i: nat, ent: map<Entry, Rec>)
    requires Known(s, ent) && Sorted(s, ent) && i < |s| && Known(DropAt(s, i), ent)
    ensures Sorted(DropAt(s, i), ent)
  {
    var t := DropAt(s, i);
    forall a, b | 0 <= a < b < |t| ensures ent[t[a]].touched >= ent[t[b]].touched {
      var a' := if a < i then a else a + 1;
      var b' := if b < i then b else b + 1;
      assert t[a] == s[a'] && t[b] == s[b'];
    }
  }

  /** A newest entry may be put in front of a sorted list it is not in. */
  lemma PushFrontFacts(t: seq<Entry>, e: Entry, r: Rec, ent: map<Entry, Rec>)
    requires NoDup(t) && e !in t && Known(t, ent) && Sorted(t, ent) && NotAfter(ent, r.touched)
    ensures NoDup([e] + t) && Known([e] + t, ent[e := r]) && Sorted([e] + t, ent[e := r])
    ensures NotAfter(ent[e := r], r.touched)
    ensures forall x :: x in [e] + t <==> x == e || x in t
  {
    var lru, ent' := [e] + t, ent[e := r];
    forall b | 0 < b < |lru| ensures lru[b] == t[b - 1] && lru[b] in t && lru[b] != e {}
    forall a, b | 0 <= a < b < |lru| ensures ent'[lru[a]].touched >= ent'[lru[b]].touched {
      assert lru[b] == t[b - 1];
      if a > 0 { assert lru[a] == t[a - 1]; }
    }
  }

  /** Touching an entry at the newest time and moving it to the front keeps everything. */
  lemma TouchKeeps(p: Pool, e: Entry, r: Rec, t: seq<Entry>, q: Pool)
    requires Wf(p) && NotAfter(p.ent, r.touched) && e in p.lru && r.key == p.ent[e].key
    requires t == DropAt(p.lru, IndexOf(p.lru, e)) && q == Pool(p.items, [e] + t, p.ent[e := r])
    ensures Wf(q) && NotAfter(q.ent, r.touched)
    ensures forall x :: x in q.lru <==> x in p.lru
  {
    DroppedFacts(p, e, t);
    hide NoDup, NotAfter, Linked, DropAt, IndexOf, Sorted;
    PushFrontFacts(t, e, r, p.ent);
    SameLinks(p.items, p.lru, p.ent, q.lru, q.ent);
  }

  lemma DroppedFacts(p: Pool, e: Entry, t: seq<Entry>)
    requires Wf(p) && e in p.lru && t == DropAt(p.lru, IndexOf(p.lru, e))
    ensures NoDup(t) && Known(t, p.ent) && Sorted(t, p.ent)
    ensures forall x :: x in t <==> x in p.lru && x != e
  {
    hide Linked;
    var i := IndexOf(p.lru, e);
    DropAtFacts(p.lru, i);
    assert Known(t, p.ent);
    DropAtSorted(p.lru, i, p.ent);
  }

  lemma SameLinks(items: map<Key, Entry>, lru: seq<Entry>, ent: map<Entry, Rec>, lru': seq<Entry>,
                  ent': map<Entry, Rec>)
    requires Known(lru, ent) && Known(lru', ent') && Linked(items, lru, ent)
    requires forall x :: x in lru' <==> x in lru
    requires forall x :: x in lru ==> ent'[x].key == ent[x].key
    ensures Linked(items, lru', ent')
  {
  }

  lemma HitKeeps(p: Pool, k: Key, now: int, capacity: int, q: Pool)
    requires Wf(p) && NotAfter(p.ent, now) && k in p.items && SoftBound(p, capacity)
    requires q == Hit(p, k, now)
    ensures Wf(q) && NotAfter(q.ent, now) && SoftBound(q, capacity)
    ensures forall x :: x in q.lru <==> x in p.lru
  {
    var e := p.items[k];
    var r := p.ent[e];
    TouchKeeps(p, e, Rec(r.key, r.eng, r.leases + 1, now), DropAt(p.lru, IndexOf(p.lru, e)), q);
  }

  lemma RemoveAtKeeps(p: Pool, i: nat)
    requires Wf(p) && i < |p.lru|
    ensures Wf(RemoveAt(p, i)) && |RemoveAt(p, i).items| == |p.items| - 1
    ensures forall x :: x in RemoveAt(p, i).lru <==> x in p.lru && x != p.lru[i]
  {
    var q := RemoveAt(p, i);
    var k := p.ent[p.lru[i]].key;
    DropAtFacts(p.lru, i);
    assert Known(q.lru, q.ent);
    DropAtSorted(p.lru, i, p.ent);
    assert q.items.Keys == p.items.Keys - {k};
    assert |q.items| == |q.items.Keys| && |p.items| == |p.items.Keys|;
  }

  /** The evicted entries were idle, and none of them was touched later than an idle one that stays. */
  ghost predicate EvictedOldest(p: Pool, q: Pool)
    requires Known(p.lru, p.ent)
  {
    && (forall x :: x in q.lru ==> x in p.lru)
    && (forall x :: x in p.lru && x !in q.lru ==> p.ent[x].leases == 0)
    && (forall x, y :: x in p.lru && x !in q.lru && y in q.lru && p.ent[y].leases == 0
          ==> p.ent[x].touched <= p.ent[y].touched)
  }

  lemma LastIdleIsOldest(p: Pool, i: nat, y: Entry)
    requires Wf(p) && i < |p.lru| && y in p.lru && p.ent[y].leases == 0
    requires i == LastIdle(p.lru, p.ent, |p.lru|)
    ensures p.ent[p.lru[i]].touched <= p.ent[y].touched
  {
    var j := IndexOf(p.lru, y);
    assert j <= i;
  }

  lemma EvictedOldestStep(p: Pool, i: nat, r: Pool)
    requires Wf(p) && i < |p.lru| && i == LastIdle(p.lru, p.ent, |p.lru|)
    requires Known(RemoveAt(p, i).lru, p.ent) && EvictedOldest(RemoveAt(p, i), r)
    ensures EvictedOldest(p, r)
  {
    DropAtFacts(p.lru, i);
    forall x, y | x in p.lru && x !in r.lru && y in r.lru && p.ent[y].leases == 0
      ensures p.ent[x].touched <= p.ent[y].touched
    {
      if x == p.lru[i] { LastIdleIsOldest(p, i, y); }
    }
  }

  /** Eviction takes idle entries only, the longest untouched first, and stops only at the bound or with
      nothing idle. */
  lemma {:induction false} EvictDownToKeeps(p: Pool, bound: int)
    requires Wf(p)
    ensures Wf(EvictDownTo(p, bound)) && EvictDownTo(p, bound).ent == p.ent
    ensures SoftBound(EvictDownTo(p, bound), bound)
    ensures EvictDownTo(p, bound) == p || |EvictDownTo(p, bound).items| >= bound
    ensures EvictedOldest(p, EvictDownTo(p, bound))
    decreases |p.lru|
  {
    var i := LastIdle(p.lru, p.ent, |p.lru|);
    if |p.items| <= bound {
    } else if i < 0 {
      assert AllLeased(p.lru, p.ent);
    } else {
      var q := RemoveAt(p, i);
      RemoveAtKeeps(p, i);
      EvictDownToKeeps(q, bound);
      EvictedOldestStep(p, i, EvictDownTo(q, bound));
    }
  }

  /** What eviction leaves is what was there. */
  lemma {:induction false} EvictionOnlyRemoves(p: Pool, bound: int)
    requires Wf(p)
    ensures forall k :: k in EvictDownTo(p, bound).items ==>
      k in p.items && EvictDownTo(p, bound).items[k] == p.items[k]
    decreases |p.lru|
  {
    var i := LastIdle(p.lru, p.ent, |p.lru|);
    if |p.items| > bound && i >= 0 {
      RemoveAtKeeps(p, i);
      EvictionOnlyRemoves(RemoveAt(p, i), bound);
    }
  }

  /** An entry that went was idle, and no idle one that stays was touched earlier; all that stays was there before. The
      records after the section decide who is idle. */
  ghost predicate OnlyOldestIdleGo(p: Pool, q: Pool) {
    && (forall x :: x in p.lru && x !in q.lru ==> x in q.ent && q.ent[x].leases == 0)
    && (forall x, y :: x in p.lru && x !in q.lru && y in q.lru && y in p.lru && y in q.ent && q.ent[y].leases == 0
          ==> x in q.ent && q.ent[x].touched <= q.ent[y].touched)
    && (forall k :: k in p.items && p.items[k] in q.lru ==> k in q.items && q.items[k] == p.items[k])
  }

  /** A release changes one record, and evicts only from a pool over its capacity, down to the capacity and no
      further. */
  lemma ReleaseEvictsOnlyOverflow(p: Pool, e: Entry, now: int, capacity: int, q: Pool)
    requires Wf(p) && NotAfter(p.ent, now) && e in p.ent
    requires Known(Unlease(p, e, now).lru, Unlease(p, e, now).ent) && q == Release(p, e, now, capacity)
    ensures q.items == p.items || (|p.items| > capacity && |q.items| >= capacity)
    ensures OnlyOldestIdleGo(p, q) && forall k :: k in q.items ==> k in p.items && q.items[k] == p.items[k]
  {
    UnleaseKeeps(p, e, now);
    var m := Unlease(p, e, now);
    assert m.items == p.items;
    hide EvictDownTo, Unlease, Sorted, NoDup, OnlyOldestIdleGo, NotAfter, Linked;
    EvictDownToKeeps(m, capacity);
    EvictionOnlyRemoves(m, capacity);
    StillLinked(m, q);
    SameBefore(p, m, q);
  }

  lemma SameBefore(p: Pool, m: Pool, q: Pool)
    requires p.items == m.items && (forall x :: x in p.lru <==> x in m.lru) && OnlyOldestIdleGo(m, q)
    ensures OnlyOldestIdleGo(p, q)
  {
  }

  lemma NewInFront(p: Pool, m: Pool, e: Entry, k: Key, r: Rec)
    requires OnlyOldestIdleGo(p, m) && e !in p.ent && k !in p.items && Known(p.lru, p.ent) && m.ent == p.ent
    requires forall j :: j in p.items ==> p.items[j] in p.lru
    ensures OnlyOldestIdleGo(p, Pool(m.items[k := e], [e] + m.lru, m.ent[e := r]))
  {
  }

  lemma StillLinked(p: Pool, q: Pool)
    requires Wf(p) && Wf(q) && q.ent == p.ent && EvictedOldest(p, q)
    requires forall k :: k in q.items ==> k in p.items && q.items[k] == p.items[k]
    ensures OnlyOldestIdleGo(p, q)
  {
  }

  /** An insertion makes room only in a pool that is full, and no more room than it needs. */
  lemma InsertEvictsOnlyForRoom(p: Pool, e: Entry, k: Key, eng: Engine, now: int, capacity: int, q: Pool)
    requires Wf(p) && NotAfter(p.ent, now) && e !in p.ent && k !in p.items && q == Insert(p, e, k, eng, now, capacity)
    ensures q.ent == p.ent[e := Rec(k, eng, 1, now)] && q.lru != [] && q.lru[0] == e && k in q.items && q.items[k] == e
    ensures q.items == p.items[k := e] || (|p.items| >= capacity && |q.items| >= capacity)
    ensures OnlyOldestIdleGo(p, q)
    ensures forall j :: j in q.items && j != k ==> j in p.items && q.items[j] == p.items[j]
  {
    var m := EvictDownTo(p, capacity - 1);
    EvictDownToKeeps(p, capacity - 1);
    EvictionOnlyRemoves(p, capacity - 1);
    EvictionAddsNoKey(p, capacity - 1, k);
    AddedKey(m.items, k, e);
    assert forall j :: j in p.items ==> p.items[j] in p.lru;
    hide EvictDownTo, Sorted, NoDup, OnlyOldestIdleGo, NotAfter, Linked;
    StillLinked(p, m);
    NewInFront(p, m, e, k, Rec(k, eng, 1, now));
  }

  lemma AddedKey(items: map<Key, Entry>, k: Key, e: Entry)
    requires k !in items
    ensures |items[k := e]| == |items| + 1
  {
    assert items[k := e].Keys == items.Keys + {k};
    assert |items[k := e]| == |items[k := e].Keys| && |items| == |items.Keys|;
  }

  lemma LinkNew(items: map<Key, Entry>, lru: seq<Entry>, ent: map<Entry, Rec>, e: Entry, r: Rec)
    requires Known(lru, ent) && Linked(items, lru, ent) && e !in ent && r.key !in items
    ensures Known([e] + lru, ent[e := r]) && Linked(items[r.key := e], [e] + lru, ent[e := r])
  {
    assert forall x :: x in [e] + lru <==> x == e || x in lru;
  }

  /** The list and the map after an insertion, without the room made for it. */
  lemma PlaceKeeps(m: Pool, e: Entry, r: Rec)
    requires Wf(m) && NotAfter(m.ent, r.touched) && r.key !in m.items && e !in m.ent
    ensures Wf(Pool(m.items[r.key := e], [e] + m.lru, m.ent[e := r]))
    ensures NotAfter(m.ent[e := r], r.touched)
  {
    PushFrontFacts(m.lru, e, r, m.ent);
    LinkNew(m.items, m.lru, m.ent, e, r);
  }

  lemma PlaceWithinBound(m: Pool, e: Entry, r: Rec, capacity: int)
    requires Known(m.lru, m.ent) && SoftBound(m, capacity - 1) && r.key !in m.items && r.leases > 0 && e !in m.ent
    ensures SoftBound(Pool(m.items[r.key := e], [e] + m.lru, m.ent[e := r]), capacity)
  {
    AddedKey(m.items, r.key, e);
    assert forall x :: x in [e] + m.lru ==> x == e || x in m.lru;
  }

  lemma EvictionAddsNoKey(p: Pool, bound: int, k: Key)
    requires Wf(p) && k !in p.items
    ensures k !in EvictDownTo(p, bound).items
  {
    EvictDownToKeeps(p, bound);
  }

  lemma InsertIntoRoom(m: Pool, e: Entry, r: Rec, capacity: int, q: Pool)
    requires Wf(m) && SoftBound(m, capacity - 1) && NotAfter(m.ent, r.touched)
    requires r.key !in m.items && e !in m.ent && r.leases > 0
    requires q == Pool(m.items[r.key := e], [e] + m.lru, m.ent[e := r])
    ensures Wf(q) && NotAfter(q.ent, r.touched) && SoftBound(q, capacity)
  {
    PlaceKeeps(m, e, r);
    PlaceWithinBound(m, e, r, capacity);
  }

  lemma InsertKeeps(p: Pool, e: Entry, k: Key, eng: Engine, now: int, capacity: int, q: Pool)
    requires Wf(p) && NotAfter(p.ent, now) && k !in p.items && e !in p.ent && capacity >= 1
    requires q == Insert(p, e, k, eng, now, capacity)
    ensures Wf(q) && NotAfter(q.ent, now) && SoftBound(q, capacity)
    ensures q.ent == p.ent[e := Rec(k, eng, 1, now)]
  {
    var m := EvictDownTo(p, capacity - 1);
    EvictDownToKeeps(p, capacity - 1);
    EvictionAddsNoKey(p, capacity - 1, k);
    InsertIntoRoom(m, e, Rec(k, eng, 1, now), capacity, q);
  }

  lemma InsertMembers(p: Pool, e: Entry, k: Key, eng: Engine, now: int, capacity: int, q: Pool)
    requires Wf(p) && e !in p.ent && q == Insert(p, e, k, eng, now, capacity)
    ensures forall x :: x in p.lru && p.ent[x].leases > 0 ==> x in q.lru
    ensures forall x :: x in q.lru ==> x == e || x in p.lru
    ensures e in q.lru
  {
    EvictDownToKeeps(p, capacity - 1);
  }

  lemma ReleaseKeeps(p: Pool, e: Entry, now: int, capacity: int, q: Pool)
    requires Wf(p) && NotAfter(p.ent, now) && e in p.ent
    requires Known(Unlease(p, e, now).lru, Unlease(p, e, now).ent) && q == Release(p, e, now, capacity)
    ensures Wf(q) && NotAfter(q.ent, now) && SoftBound(q, capacity)
    ensures var r := p.ent[e]; q.ent == p.ent[e := Rec(r.key, r.eng, if r.leases > 0 then r.leases - 1 else 0, now)]
    ensures forall x :: x in p.lru && q.ent[x].leases > 0 ==> x in q.lru
    ensures forall x :: x in q.lru ==> x in p.lru
    ensures q.items == p.items || (|p.items| > capacity && |q.items| >= capacity)
    ensures OnlyOldestIdleGo(p, q)
  {
    UnleaseKeeps(p, e, now);
    EvictDownToKeeps(Unlease(p, e, now), capacity);
    hide EvictDownTo, OnlyOldestIdleGo;
    ReleaseEvictsOnlyOverflow(p, e, now, capacity, q);
  }

  /** Whether or not the entry is leased and still in the pool. */
  lemma UnleaseKeeps(p: Pool, e: Entry, now: int)
    requires Wf(p) && NotAfter(p.ent, now) && e in p.ent
    ensures Wf(Unlease(p, e, now)) && NotAfter(Unlease(p, e, now).ent, now)
    ensures forall x :: x in Unlease(p, e, now).lru <==> x in p.lru
  {
    var r := p.ent[e];
    var touched := Rec(r.key, r.eng, if r.leases > 0 then r.leases - 1 else 0, now);
    if e in p.lru {
      TouchKeeps(p, e, touched, DropAt(p.lru, IndexOf(p.lru, e)), Unlease(p, e, now));
    } else {
      assert Unlease(p, e, now) == Pool(p.items, p.lru, p.ent[e := touched]);
    }
  }

  lemma {:induction false} SurvivorsFacts(lru: seq<Entry>, ent: map<Entry, Rec>, deadline: int)
    requires Known(lru, ent) && NoDup(lru) && Sorted(lru, ent)
    ensures NoDup(Survivors(lru, ent, deadline))
    ensures forall x :: x in Survivors(lru, ent, deadline) ==> x in lru && Survives(ent[x], deadline)
    ensures forall x :: x in lru && Survives(ent[x], deadline) ==> x in Survivors(lru, ent, deadline)
    ensures Sorted(Survivors(lru, ent, deadline), ent)
  {
    if lru != [] {
      var t := Survivors(lru[1..], ent, deadline);
      assert NoDup(lru[1..]) && Known(lru[1..], ent) && Sorted(lru[1..], ent);
      SurvivorsFacts(lru[1..], ent, deadline);
      if Survives(ent[lru[0]], deadline) {
        forall x | x in t ensures x != lru[0] && ent[lru[0]].touched >= ent[x].touched {
          var j := IndexOf(lru[1..], x);
          assert lru[j + 1] == x;
        }
        SortedCons(lru[0], t, ent);
      }
      assert lru == [lru[0]] + lru[1..];
    }
  }

  lemma SortedCons(e: Entry, t: seq<Entry>, ent: map<Entry, Rec>)
    requires Known(t, ent) && Sorted(t, ent) && NoDup(t) && e in ent
    requires forall x :: x in t ==> x != e && ent[e].touched >= ent[x].touched
    ensures Known([e] + t, ent) && Sorted([e] + t, ent) && NoDup([e] + t)
  {
    var s := [e] + t;
    forall a, b | 0 <= a < b < |s| ensures ent[s[a]].touched >= ent[s[b]].touched && s[a] != s[b] {
      assert s[b] == t[b - 1] && s[b] in t;
      if a > 0 { assert s[a] == t[a - 1]; }
    }
  }

  lemma SweepKeeps(p: Pool, deadline: int, capacity: int)
    requires Wf(p) && SoftBound(p, capacity)
    ensures Wf(Sweep(p, deadline)) && SoftBound(Sweep(p, deadline), capacity)
    ensures forall x :: x in Sweep(p, deadline).lru ==> x in p.lru && Survives(p.ent[x], deadline)
    ensures forall x :: x in p.lru && Survives(p.ent[x], deadline) ==> x in Sweep(p, deadline).lru
  {
    SurvivorsFacts(p.lru, p.ent, deadline);
    var q := Sweep(p, deadline);
    assert q.items.Keys <= p.items.Keys;
    SubsetSize(q.items.Keys, p.items.Keys);
    assert |q.items| == |q.items.Keys| && |p.items| == |p.items.Keys|;
  }

  lemma SubsetSize<T>(a: set<T>, b: set<T>)
    requires a <= b
    ensures |a| <= |b|
  {
    assert b == a + (b - a);
  }

  lemma {:induction false} SurvivorsConcat(a: seq<Entry>, b: seq<Entry>, ent: map<Entry, Rec>, deadline: int)
    requires Known(a, ent) && Known(b, ent) && Known(a + b, ent)
    ensures Survivors(a + b, ent, deadline) == Survivors(a, ent, deadline) + Survivors(b, ent, deadline)
  {
    if a == [] {
      assert a + b == b;
    } else {
      assert (a + b)[1..] == a[1..] + b;
      SurvivorsConcat(a[1..], b, ent, deadline);
    }
  }

  lemma {:induction false} AllSurvive(a: seq<Entry>, ent: map<Entry, Rec>, deadline: int)
    requires Known(a, ent) && forall e :: e in a ==> Survives(ent[e], deadline)
    ensures Survivors(a, ent, deadline) == a
  {
    if a != [] { AllSurvive(a[1..], ent, deadline); }
  }

  /** The list holds one entry per key, so the map and the list have one size. */
  lemma {:induction false} ItemsAndListAgree(p: Pool)
    requires Wf(p)
    ensures |p.items| == |p.lru|
    decreases |p.lru|
  {
    if p.lru == [] {
      assert p.items == map[];
    } else {
      RemoveAtKeeps(p, 0);
      ItemsAndListAgree(RemoveAt(p, 0));
    }
  }
}
