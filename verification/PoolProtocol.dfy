/** Every interleaving of leases, builds outside the lock, joins, releases and idle sweeps over one pool. */
module PoolProtocol {
  import opened PoolSpec
  import opened Options

  type Caller = nat

  /** Where one Lease call stands. Queued holds a lease and waits for e.mu; Returning has unlocked e.mu but not yet
      entered the release section of Pool.mu. */
  datatype Phase = Idle | Building(key: Key) | Queued(e: Entry) | Using(e: Entry) | Returning(e: Entry)

  /** mutex says which caller owns e.mu; armed is the deadline a sweep computed before it took Pool.mu. */
  datatype World = World(pool: Pool, clock: int, callers: map<Caller, Phase>, mutex: map<Entry, Caller>,
                         armed: Option<int>)

  datatype Config = Config(capacity: int, ttl: int)

  datatype Action =
    | Hit(c: Caller, k: Key)
    | Miss(c: Caller, k: Key)
    | BuildFails(c: Caller)
    | InsertOrJoin(c: Caller, e: Entry, eng: Engine)
    | Lock(c: Caller)
    | Unlock(c: Caller)
    | Release(c: Caller)
    | ArmSweep
    | Sweep
    | Tick(elapsed: nat)

  function PhaseOf(w: World, c: Caller): Phase {
    if c in w.callers then w.callers[c] else Idle
  }

  predicate Holds(ph: Phase, e: Entry) {
    (ph.Queued? || ph.Using? || ph.Returning?) && ph.e == e
  }

  /** The outstanding leases on e. */
  ghost function Holders(callers: map<Caller, Phase>, e: Entry): set<Caller> {
    set c | c in callers && Holds(callers[c], e)
  }

  ghost function Outstanding(callers: map<Caller, Phase>): set<Caller> {
    set c | c in callers && (callers[c].Queued? || callers[c].Using? || callers[c].Returning?)
  }

  function Init(): World {
    World(Pool(map[], [], map[]), 0, map[], map[], None)
  }

  ghost predicate Enabled(w: World, a: Action) {
    match a
    case Hit(c, k) => PhaseOf(w, c).Idle? && k in w.pool.items
    case Miss(c, k) => PhaseOf(w, c).Idle? && k !in w.pool.items
    case BuildFails(c) => PhaseOf(w, c).Building?
    case InsertOrJoin(c, e, _) => PhaseOf(w, c).Building? && e !in w.pool.ent
    case Lock(c) => PhaseOf(w, c).Queued? && PhaseOf(w, c).e !in w.mutex
    case Unlock(c) => PhaseOf(w, c).Using?
    case Release(c) => PhaseOf(w, c).Returning?
    case ArmSweep => w.armed.None?
    case Sweep => w.armed.Some?
    case Tick(_) => true
  }

  /** What the invariant guarantees so that every section below is defined; no caller checks it. */
  ghost predicate Defined(w: World) {
    && Wf(w.pool)
    && forall c :: c in w.callers && (w.callers[c].Queued? || w.callers[c].Using? || w.callers[c].Returning?)
         ==> w.callers[c].e in w.pool.lru
  }

  ghost function Apply(cfg: Config, w: World, a: Action): World
    requires Defined(w) && Enabled(w, a)
  {
    match a
    case Hit(c, k) =>
      w.(pool := PoolSpec.Hit(w.pool, k, w.clock), callers := w.callers[c := Queued(w.pool.items[k])])
    case Miss(c, k) => w.(callers := w.callers[c := Building(k)])
    case BuildFails(c) => w.(callers := w.callers[c := Idle])
    case InsertOrJoin(c, e, eng) =>
      var k := PhaseOf(w, c).key;
      if k in w.pool.items
      then w.(pool := PoolSpec.Hit(w.pool, k, w.clock), callers := w.callers[c := Queued(w.pool.items[k])])
      else w.(pool := Insert(w.pool, e, k, eng, w.clock, cfg.capacity), callers := w.callers[c := Queued(e)])
    case Lock(c) =>
      var e := PhaseOf(w, c).e;
      w.(mutex := w.mutex[e := c], callers := w.callers[c := Using(e)])
    case Unlock(c) =>
      var e := PhaseOf(w, c).e;
      w.(mutex := w.mutex - {e}, callers := w.callers[c := Returning(e)])
    case Release(c) =>
      var e := PhaseOf(w, c).e;
      assert Known(Unlease(w.pool, e, w.clock).lru, Unlease(w.pool, e, w.clock).ent) by {
        UnleaseKnown(w.pool, e, w.clock);
      }
      w.(pool := PoolSpec.Release(w.pool, e, w.clock, cfg.capacity), callers := w.callers[c := Idle])
    case ArmSweep => w.(armed := Some(w.clock - cfg.ttl))
    case Sweep => w.(pool := PoolSpec.Sweep(w.pool, w.armed.value), armed := None)
    case Tick(elapsed) => w.(clock := w.clock + elapsed)
  }

  lemma UnleaseKnown(p: Pool, e: Entry, now: int)
    requires Wf(p) && e in p.lru
    ensures Known(Unlease(p, e, now).lru, Unlease(p, e, now).ent)
  {
    DropAtFacts(p.lru, IndexOf(p.lru, e));
  }

  // ---------- the inductive invariant ----------

  ghost predicate Counted(w: World) {
    forall e :: e in w.pool.ent ==> w.pool.ent[e].leases == |Holders(w.callers, e)|
  }

  ghost predicate Exclusive(w: World) {
    && (forall c :: c in w.callers && w.callers[c].Using? ==>
          w.callers[c].e in w.mutex && w.mutex[w.callers[c].e] == c)
    && (forall e :: e in w.mutex ==> w.mutex[e] in w.callers && w.callers[w.mutex[e]] == Using(e))
  }

  ghost predicate Inv(cfg: Config, w: World) {
    && Defined(w)
    && NotAfter(w.pool.ent, w.clock)
    && Counted(w)
    && Exclusive(w)
    && SoftBound(w.pool, cfg.capacity)
    && (w.armed.Some? ==> w.armed.value <= w.clock - cfg.ttl)
  }

  /** A caller that takes a lease on e joins its holders; everyone else's holders stay. */
  lemma TakesLease(callers: map<Caller, Phase>, c: Caller, ph: Phase, e: Entry)
    requires c in callers ==> callers[c].Idle? || callers[c].Building?
    requires Holds(ph, e)
    ensures |Holders(callers[c := ph], e)| == |Holders(callers, e)| + 1
    ensures forall x :: x != e ==> Holders(callers[c := ph], x) == Holders(callers, x)
  {
    assert Holders(callers[c := ph], e) == Holders(callers, e) + {c};
    forall x | x != e ensures Holders(callers[c := ph], x) == Holders(callers, x) {
      assert forall d :: d in Holders(callers[c := ph], x) <==> d in Holders(callers, x);
    }
  }

  lemma DropsLease(callers: map<Caller, Phase>, c: Caller, e: Entry)
    requires c in callers && Holds(callers[c], e)
    ensures |Holders(callers, e)| == |Holders(callers[c := Idle], e)| + 1
    ensures forall x :: x != e ==> Holders(callers[c := Idle], x) == Holders(callers, x)
  {
    assert Holders(callers, e) == Holders(callers[c := Idle], e) + {c};
    forall x | x != e ensures Holders(callers[c := Idle], x) == Holders(callers, x) {
      assert forall d :: d in Holders(callers[c := Idle], x) <==> d in Holders(callers, x);
    }
  }

  lemma KeepsLease(callers: map<Caller, Phase>, c: Caller, ph: Phase)
    requires forall x: Entry :: (c in callers && Holds(callers[c], x)) <==> Holds(ph, x)
    ensures forall x :: Holders(callers[c := ph], x) == Holders(callers, x)
  {
    forall x ensures Holders(callers[c := ph], x) == Holders(callers, x) {
      assert forall d :: d in Holders(callers[c := ph], x) <==> d in Holders(callers, x);
    }
  }

  lemma HeldIsCounted(cfg: Config, w: World, c: Caller)
    requires Inv(cfg, w) && c in w.callers
    requires w.callers[c].Queued? || w.callers[c].Using? || w.callers[c].Returning?
    ensures w.callers[c].e in w.pool.ent && w.pool.ent[w.callers[c].e].leases > 0
  {
    var e := w.callers[c].e;
    assert c in Holders(w.callers, e);
  }

  /** Counting after a section that gave c a lease on e: every other record kept its count. */
  lemma CountedAfterTake(w: World, c: Caller, e: Entry, v: World)
    requires Counted(w) && v.callers == w.callers[c := Queued(e)] && (PhaseOf(w, c).Idle? || PhaseOf(w, c).Building?)
    requires e in v.pool.ent && v.pool.ent.Keys == w.pool.ent.Keys + {e}
    requires v.pool.ent[e].leases == |Holders(w.callers, e)| + 1
    requires forall x :: x in w.pool.ent && x != e ==> v.pool.ent[x] == w.pool.ent[x]
    ensures Counted(v)
  {
    TakesLease(w.callers, c, Queued(e), e);
  }

  lemma ExclusiveAfter(w: World, c: Caller, ph: Phase, v: World)
    requires Exclusive(w) && !PhaseOf(w, c).Using? && !ph.Using?
    requires v.callers == w.callers[c := ph] && v.mutex == w.mutex
    ensures Exclusive(v)
  {
  }

  /** Any section that gives an idle or building caller one more lease on e and keeps leased entries. */
  lemma TakeStep(cfg: Config, w: World, c: Caller, e: Entry, q: Pool, v: World)
    requires Inv(cfg, w) && (PhaseOf(w, c).Idle? || PhaseOf(w, c).Building?)
    requires v == w.(pool := q, callers := w.callers[c := Queued(e)])
    requires Wf(q) && NotAfter(q.ent, w.clock) && SoftBound(q, cfg.capacity) && e in q.lru
    requires q.ent.Keys == w.pool.ent.Keys + {e} && q.ent[e].leases == |Holders(w.callers, e)| + 1
    requires forall x :: x in w.pool.ent && x != e ==> q.ent[x] == w.pool.ent[x]
    requires forall x :: x in w.pool.lru && w.pool.ent[x].leases > 0 ==> x in q.lru
    ensures Inv(cfg, v)
  {
    HoldersStay(cfg, w, q);
    CountedAfterTake(w, c, e, v);
    ExclusiveAfter(w, c, Queued(e), v);
  }

  lemma HitStep(cfg: Config, w: World, c: Caller, k: Key, v: World)
    requires Inv(cfg, w) && k in w.pool.items && (PhaseOf(w, c).Idle? || PhaseOf(w, c).Building?)
    requires v == w.(pool := PoolSpec.Hit(w.pool, k, w.clock), callers := w.callers[c := Queued(w.pool.items[k])])
    ensures Inv(cfg, v)
  {
    hide NoDup, Linked, Sorted, SoftBound, Exclusive;
    HitKeeps(w.pool, k, w.clock, cfg.capacity, v.pool);
    TakeStep(cfg, w, c, w.pool.items[k], v.pool, v);
  }

  lemma InsertStep(cfg: Config, w: World, c: Caller, e: Entry, k: Key, eng: Engine, v: World)
    requires Inv(cfg, w) && cfg.capacity >= 1 && k !in w.pool.items && e !in w.pool.ent && PhaseOf(w, c).Building?
    requires v == w.(pool := Insert(w.pool, e, k, eng, w.clock, cfg.capacity), callers := w.callers[c := Queued(e)])
    ensures Inv(cfg, v)
  {
    hide EvictDownTo, Insert, NoDup, Linked, Sorted, SoftBound, Exclusive;
    InsertKeeps(w.pool, e, k, eng, w.clock, cfg.capacity, v.pool);
    InsertMembers(w.pool, e, k, eng, w.clock, cfg.capacity, v.pool);
    NobodyHoldsNew(w, e);
    TakeStep(cfg, w, c, e, v.pool, v);
  }

  lemma NobodyHoldsNew(w: World, e: Entry)
    requires Defined(w) && e !in w.pool.ent
    ensures Holders(w.callers, e) == {}
  {
  }

  /** Eviction removes idle entries only, so whatever a caller holds stays in the pool. */
  lemma HoldersStay(cfg: Config, w: World, q: Pool)
    requires Inv(cfg, w)
    requires forall x :: x in w.pool.lru && w.pool.ent[x].leases > 0 ==> x in q.lru
    ensures forall c :: c in w.callers && (w.callers[c].Queued? || w.callers[c].Using? || w.callers[c].Returning?)
              ==> w.callers[c].e in q.lru
  {
    forall c | c in w.callers && (w.callers[c].Queued? || w.callers[c].Using? || w.callers[c].Returning?)
      ensures w.callers[c].e in q.lru
    {
      HeldIsCounted(cfg, w, c);
    }
  }

  lemma CountedAfterDrop(w: World, c: Caller, e: Entry, v: World)
    requires Counted(w) && c in w.callers && Holds(w.callers[c], e) && v.callers == w.callers[c := Idle]
    requires e in w.pool.ent && v.pool.ent.Keys == w.pool.ent.Keys && w.pool.ent[e].leases > 0
    requires v.pool.ent[e].leases == w.pool.ent[e].leases - 1
    requires forall x :: x in w.pool.ent && x != e ==> v.pool.ent[x] == w.pool.ent[x]
    ensures Counted(v)
  {
    DropsLease(w.callers, c, e);
  }

  lemma DefinedAfterDrop(v: World, lru: seq<Entry>)
    requires Wf(v.pool) && Counted(v) && Known(lru, v.pool.ent)
    requires forall x :: x in lru && v.pool.ent[x].leases > 0 ==> x in v.pool.lru
    requires forall c :: c in v.callers && (v.callers[c].Queued? || v.callers[c].Using? || v.callers[c].Returning?)
               ==> v.callers[c].e in lru
    ensures Defined(v)
  {
    forall d | d in v.callers && (v.callers[d].Queued? || v.callers[d].Using? || v.callers[d].Returning?)
      ensures v.callers[d].e in v.pool.lru
    {
      assert d in Holders(v.callers, v.callers[d].e);
    }
  }

  lemma DropStep(cfg: Config, w: World, c: Caller, e: Entry, q: Pool, v: World)
    requires Inv(cfg, w) && PhaseOf(w, c) == Returning(e) && v == w.(pool := q, callers := w.callers[c := Idle])
    requires Wf(q) && NotAfter(q.ent, w.clock) && SoftBound(q, cfg.capacity)
    requires e in w.pool.ent && q.ent.Keys == w.pool.ent.Keys && w.pool.ent[e].leases > 0
    requires q.ent[e].leases == w.pool.ent[e].leases - 1
    requires forall x :: x in w.pool.ent && x != e ==> q.ent[x] == w.pool.ent[x]
    requires forall x :: x in w.pool.lru && q.ent[x].leases > 0 ==> x in q.lru
    ensures Inv(cfg, v)
  {
    CountedAfterDrop(w, c, e, v);
    DefinedAfterDrop(v, w.pool.lru);
    ExclusiveAfter(w, c, Idle, v);
  }

  lemma ReleaseStep(cfg: Config, w: World, c: Caller, e: Entry, v: World)
    requires Inv(cfg, w) && PhaseOf(w, c) == Returning(e)
    requires e in w.pool.ent && Known(Unlease(w.pool, e, w.clock).lru, Unlease(w.pool, e, w.clock).ent)
    requires v == w.(pool := PoolSpec.Release(w.pool, e, w.clock, cfg.capacity), callers := w.callers[c := Idle])
    ensures Inv(cfg, v)
  {
    hide EvictDownTo, PoolSpec.Release, NoDup, Linked, Sorted, SoftBound, Exclusive;
    HeldIsCounted(cfg, w, c);
    ReleaseKeeps(w.pool, e, w.clock, cfg.capacity, v.pool);
    DropStep(cfg, w, c, e, v.pool, v);
  }

  lemma SweepStep(cfg: Config, w: World, v: World)
    requires Inv(cfg, w) && w.armed.Some? && v == w.(pool := PoolSpec.Sweep(w.pool, w.armed.value), armed := None)
    ensures Inv(cfg, v)
  {
    SweepKeeps(w.pool, w.armed.value, cfg.capacity);
    HoldersStay(cfg, w, v.pool);
  }

  lemma LocalStep(cfg: Config, w: World, c: Caller, ph: Phase, mutex: map<Entry, Caller>, v: World)
    requires Inv(cfg, w) && v == w.(callers := w.callers[c := ph], mutex := mutex)
    requires forall x: Entry :: (c in w.callers && Holds(w.callers[c], x)) <==> Holds(ph, x)
    requires Exclusive(v)
    ensures Inv(cfg, v)
  {
    KeepsLease(w.callers, c, ph);
    if ph.Queued? || ph.Using? || ph.Returning? { assert Holds(ph, ph.e); }
  }

  lemma NowExclusive(w: World, c: Caller, e: Entry, v: World)
    requires Exclusive(w) && PhaseOf(w, c) == Queued(e) && e !in w.mutex
    requires v == w.(mutex := w.mutex[e := c], callers := w.callers[c := Using(e)])
    ensures Exclusive(v)
  {
  }

  lemma StillExclusive(w: World, c: Caller, e: Entry, v: World)
    requires Exclusive(w) && PhaseOf(w, c) == Using(e)
    requires v == w.(mutex := w.mutex - {e}, callers := w.callers[c := Returning(e)])
    ensures Exclusive(v)
  {
    assert forall d :: d in w.callers && d != c && w.callers[d].Using? ==> w.callers[d].e != e;
  }

  lemma LockStep(cfg: Config, w: World, c: Caller, e: Entry, v: World)
    requires Inv(cfg, w) && PhaseOf(w, c) == Queued(e) && e !in w.mutex
    requires v == w.(mutex := w.mutex[e := c], callers := w.callers[c := Using(e)])
    ensures Inv(cfg, v)
  {
    NowExclusive(w, c, e, v);
    hide Defined, NotAfter, Counted, Exclusive, SoftBound;
    LocalStep(cfg, w, c, Using(e), w.mutex[e := c], v);
  }

  lemma UnlockStep(cfg: Config, w: World, c: Caller, e: Entry, v: World)
    requires Inv(cfg, w) && PhaseOf(w, c) == Using(e)
    requires v == w.(mutex := w.mutex - {e}, callers := w.callers[c := Returning(e)])
    ensures Inv(cfg, v)
  {
    StillExclusive(w, c, e, v);
    hide Defined, NotAfter, Counted, Exclusive, SoftBound;
    LocalStep(cfg, w, c, Returning(e), w.mutex - {e}, v);
  }

  lemma StepKeepsInv(cfg: Config, w: World, a: Action, v: World)
    requires Inv(cfg, w) && cfg.capacity >= 1 && Enabled(w, a) && v == Apply(cfg, w, a)
    ensures Inv(cfg, v)
  {
    hide NoDup, Linked, Sorted, PoolSpec.Hit, Insert, PoolSpec.Release, PoolSpec.Sweep;
    match a {
      case Hit(c, k) => HitStep(cfg, w, c, k, v);
      case Miss(c, k) => LocalStep(cfg, w, c, Building(k), w.mutex, v);
      case BuildFails(c) => LocalStep(cfg, w, c, Idle, w.mutex, v);
      case InsertOrJoin(c, e, eng) =>
        var k := PhaseOf(w, c).key;
        if k in w.pool.items { HitStep(cfg, w, c, k, v); } else { InsertStep(cfg, w, c, e, k, eng, v); }
      case Lock(c) => LockStep(cfg, w, c, PhaseOf(w, c).e, v);
      case Unlock(c) => UnlockStep(cfg, w, c, PhaseOf(w, c).e, v);
      case Release(c) =>
        UnleaseKnown(w.pool, PhaseOf(w, c).e, w.clock);
        ReleaseStep(cfg, w, c, PhaseOf(w, c).e, v);
      case ArmSweep =>
      case Sweep => SweepStep(cfg, w, v);
      case Tick(_) =>
    }
  }

  // ---------- whole runs ----------

  /** ws is a run of the actions in acts: each state follows from the one before it by an enabled action. */
  ghost predicate Run(cfg: Config, ws: seq<World>, acts: seq<Action>) {
    && |ws| == |acts| + 1 && ws[0] == Init()
    && forall i :: 0 <= i < |acts| ==>
         Defined(ws[i]) && Enabled(ws[i], acts[i]) && ws[i + 1] == Apply(cfg, ws[i], acts[i])
  }

  lemma {:induction false} RunKeepsInv(cfg: Config, ws: seq<World>, acts: seq<Action>, n: nat)
    requires cfg.capacity >= 1 && cfg.ttl >= 0 && Run(cfg, ws, acts) && n < |ws|
    ensures Inv(cfg, ws[n])
  {
    if n > 0 {
      RunKeepsInv(cfg, ws, acts, n - 1);
      StepKeepsInv(cfg, ws[n - 1], acts[n - 1], ws[n]);
    }
  }

  /** No run can get stuck on an undefined section: any enabled action extends it. */
  lemma RunExtends(cfg: Config, ws: seq<World>, acts: seq<Action>, a: Action)
    requires cfg.capacity >= 1 && cfg.ttl >= 0 && Run(cfg, ws, acts) && Enabled(ws[|acts|], a)
    ensures Defined(ws[|acts|]) && Run(cfg, ws + [Apply(cfg, ws[|acts|], a)], acts + [a])
  {
    var n := |acts|;
    RunKeepsInv(cfg, ws, acts, n);
    Extend(cfg, ws, acts, a, Apply(cfg, ws[n], a));
  }

  lemma Extend(cfg: Config, ws: seq<World>, acts: seq<Action>, a: Action, v: World)
    requires Run(cfg, ws, acts) && Defined(ws[|acts|]) && Enabled(ws[|acts|], a) && v == Apply(cfg, ws[|acts|], a)
    ensures Run(cfg, ws + [v], acts + [a])
  {
    var vs, bs := ws + [v], acts + [a];
    forall i | 0 <= i < |bs|
      ensures Defined(vs[i]) && Enabled(vs[i], bs[i]) && vs[i + 1] == Apply(cfg, vs[i], bs[i])
    {
      if i < |acts| { assert vs[i] == ws[i] && vs[i + 1] == ws[i + 1] && bs[i] == acts[i]; }
    }
  }

  /** One session, one live engine: leased entries of a key coincide with the cached one, and one caller uses it. */
  lemma OneEnginePerSession(cfg: Config, ws: seq<World>, acts: seq<Action>, n: nat)
    requires cfg.capacity >= 1 && cfg.ttl >= 0 && Run(cfg, ws, acts) && n < |ws|
    ensures var w := ws[n];
      && (forall e :: e in w.pool.ent && w.pool.ent[e].leases > 0 ==>
            w.pool.ent[e].key in w.pool.items && w.pool.items[w.pool.ent[e].key] == e)
      && (forall e, f | e in w.pool.ent && f in w.pool.ent && w.pool.ent[e].leases > 0 && w.pool.ent[f].leases > 0 ::
            w.pool.ent[e].key == w.pool.ent[f].key ==> e == f)
      && (forall c, d | c in w.callers && d in w.callers && w.callers[c].Using? && w.callers[d].Using? ::
            w.callers[c].e in w.pool.ent && w.callers[d].e in w.pool.ent
            && (w.pool.ent[w.callers[c].e].key == w.pool.ent[w.callers[d].e].key ==> c == d))
  {
    var w := ws[n];
    RunKeepsInv(cfg, ws, acts, n);
    forall e | e in w.pool.ent && w.pool.ent[e].leases > 0 ensures e in w.pool.lru {
      LeasedIsHeld(cfg, w, e);
    }
  }

  lemma LeasedIsHeld(cfg: Config, w: World, e: Entry)
    requires Inv(cfg, w) && e in w.pool.ent && w.pool.ent[e].leases > 0
    ensures e in w.pool.lru
  {
    assert |Holders(w.callers, e)| > 0;
    assert Holders(w.callers, e) != {};
    var c :| c in Holders(w.callers, e);
    assert Holds(w.callers[c], e);
  }

  /** Lease counts, the two views and the recency order are exact in every state of every run. */
  lemma CountsAndOrderAreExact(cfg: Config, ws: seq<World>, acts: seq<Action>, n: nat)
    requires cfg.capacity >= 1 && cfg.ttl >= 0 && Run(cfg, ws, acts) && n < |ws|
    ensures var w := ws[n];
      && (forall e :: e in w.pool.ent ==> w.pool.ent[e].leases == |Holders(w.callers, e)|)
      && |w.pool.items| == |w.pool.lru|
      && Wf(w.pool)
  {
    RunKeepsInv(cfg, ws, acts, n);
    ItemsAndListAgree(ws[n].pool);
  }

  /** The guards of the release closure never fail: the lease is there and the entry is still the cached one. */
  lemma ReleaseGuardsHold(cfg: Config, ws: seq<World>, acts: seq<Action>, n: nat, c: Caller)
    requires cfg.capacity >= 1 && cfg.ttl >= 0 && Run(cfg, ws, acts) && n < |ws|
    requires PhaseOf(ws[n], c).Returning?
    ensures var p, e := ws[n].pool, PhaseOf(ws[n], c).e;
      e in p.ent && p.ent[e].leases > 0 && p.ent[e].key in p.items && p.items[p.ent[e].key] == e
  {
    RunKeepsInv(cfg, ws, acts, n);
    HeldIsCounted(cfg, ws[n], c);
  }

  /** The soft capacity: at most the capacity or the number of outstanding leases, whichever is larger. */
  lemma CapacityIsSoft(cfg: Config, ws: seq<World>, acts: seq<Action>, n: nat)
    requires cfg.capacity >= 1 && cfg.ttl >= 0 && Run(cfg, ws, acts) && n < |ws|
    ensures |ws[n].pool.items| <= cfg.capacity || AllLeased(ws[n].pool.lru, ws[n].pool.ent)
    ensures |ws[n].pool.items| <= cfg.capacity || |ws[n].pool.items| <= |Outstanding(ws[n].callers)|
  {
    var w := ws[n];
    RunKeepsInv(cfg, ws, acts, n);
    if AllLeased(w.pool.lru, w.pool.ent) {
      ItemsAndListAgree(w.pool);
      LeasedListFits(cfg, w, |w.pool.lru|);
      SubsetSize(HoldersOfFirst(w, |w.pool.lru|), Outstanding(w.callers));
    }
  }

  ghost function HoldersOfFirst(w: World, n: nat): set<Caller>
    requires n <= |w.pool.lru|
  {
    set c | c in Outstanding(w.callers) && w.callers[c].e in w.pool.lru[..n]
  }

  lemma {:induction false} LeasedListFits(cfg: Config, w: World, n: nat)
    requires Inv(cfg, w) && AllLeased(w.pool.lru, w.pool.ent) && n <= |w.pool.lru|
    ensures |HoldersOfFirst(w, n)| >= n
  {
    hide Inv, HoldersOfFirst, AllLeased;
    if n > 0 {
      LeasedListFits(cfg, w, n - 1);
      var c := HolderOfNext(cfg, w, n - 1);
      SubsetSize(HoldersOfFirst(w, n - 1) + {c}, HoldersOfFirst(w, n));
    }
  }

  lemma HolderOfNext(cfg: Config, w: World, n: nat) returns (c: Caller)
    requires Inv(cfg, w) && AllLeased(w.pool.lru, w.pool.ent) && n < |w.pool.lru|
    ensures c !in HoldersOfFirst(w, n) && HoldersOfFirst(w, n) + {c} <= HoldersOfFirst(w, n + 1)
  {
    var e := w.pool.lru[n];
    assert |Holders(w.callers, e)| > 0;
    c :| c in Holders(w.callers, e);
    assert e !in w.pool.lru[..n];
    assert w.pool.lru[..n + 1] == w.pool.lru[..n] + [e];
  }

  // ---------- what each section does, and nothing more ----------

  /** A release takes one lease off its entry and stamps it; it evicts only when the pool is over its capacity, never
      below the capacity, and only the idle entries that were not touched for longest. */
  lemma ReleaseIsExact(cfg: Config, ws: seq<World>, acts: seq<Action>, n: nat, c: Caller)
    requires cfg.capacity >= 1 && cfg.ttl >= 0 && Run(cfg, ws, acts) && n < |acts| && acts[n] == Release(c)
    ensures PhaseOf(ws[n], c).Returning? && PhaseOf(ws[n], c).e in ws[n].pool.lru
    ensures var p, q, e := ws[n].pool, ws[n + 1].pool, PhaseOf(ws[n], c).e;
      && e in p.ent && p.ent[e].leases > 0
      && q.ent == p.ent[e := p.ent[e].(leases := p.ent[e].leases - 1, touched := ws[n].clock)]
      && (q.items == p.items || (|p.items| > cfg.capacity && |q.items| >= cfg.capacity))
      && OnlyOldestIdleGo(p, q)
      && (forall k :: k in q.items ==> k in p.items && q.items[k] == p.items[k])
  {
    hide EvictDownTo, PoolSpec.Release, NoDup, Linked, Sorted, SoftBound, Exclusive, OnlyOldestIdleGo;
    RunKeepsInv(cfg, ws, acts, n);
    var p, q, e := ws[n].pool, ws[n + 1].pool, PhaseOf(ws[n], c).e;
    HeldIsCounted(cfg, ws[n], c);
    UnleaseKnown(p, e, ws[n].clock);
    ReleaseKeeps(p, e, ws[n].clock, cfg.capacity, q);
    ReleaseEvictsOnlyOverflow(p, e, ws[n].clock, cfg.capacity, q);
  }

  /** An insertion adds a fresh record with one lease at the front; it evicts only when the pool is full, and leaves at
      least capacity - 1 others. */
  lemma InsertionIsExact(cfg: Config, ws: seq<World>, acts: seq<Action>, n: nat, c: Caller, e: Entry, eng: Engine)
    requires cfg.capacity >= 1 && cfg.ttl >= 0 && Run(cfg, ws, acts) && n < |acts| && acts[n] == InsertOrJoin(c, e, eng)
    requires PhaseOf(ws[n], c).Building? ==> PhaseOf(ws[n], c).key !in ws[n].pool.items
    ensures PhaseOf(ws[n], c).Building?
    ensures var p, q, k := ws[n].pool, ws[n + 1].pool, PhaseOf(ws[n], c).key;
      && q.ent == p.ent[e := Rec(k, eng, 1, ws[n].clock)] && q.lru != [] && q.lru[0] == e
      && k in q.items && q.items[k] == e
      && (q.items == p.items[k := e] || (|p.items| >= cfg.capacity && |q.items| >= cfg.capacity))
      && OnlyOldestIdleGo(p, q)
      && (forall j :: j in q.items && j != k ==> j in p.items && q.items[j] == p.items[j])
  {
    hide EvictDownTo, Insert, NoDup, Linked, Sorted, SoftBound, Exclusive, OnlyOldestIdleGo;
    RunKeepsInv(cfg, ws, acts, n);
    var k := PhaseOf(ws[n], c).key;
    InsertEvictsOnlyForRoom(ws[n].pool, e, k, eng, ws[n].clock, cfg.capacity, ws[n + 1].pool);
  }

  /** The key a section leases from the cache, if it does. */
  function LeasedKey(w: World, a: Action): Option<Key> {
    if a.Hit? then Some(a.k)
    else if a.InsertOrJoin? && PhaseOf(w, a.c).Building? && PhaseOf(w, a.c).key in w.pool.items then
      Some(PhaseOf(w, a.c).key)
    else None
  }

  /** A hit, or a build that lost the race, adds one lease to the cached entry, stamps it and puts it in front;
      nothing is evicted and the engine stays. */
  lemma HitIsExact(cfg: Config, ws: seq<World>, acts: seq<Action>, n: nat)
    requires cfg.capacity >= 1 && cfg.ttl >= 0 && Run(cfg, ws, acts) && n < |acts| && LeasedKey(ws[n], acts[n]).Some?
    ensures var p, q, k := ws[n].pool, ws[n + 1].pool, LeasedKey(ws[n], acts[n]).value;
      && k in p.items && p.items[k] in p.ent && q.items == p.items && q.lru != [] && q.lru[0] == p.items[k]
      && (forall x :: x in q.lru <==> x in p.lru)
      && var r := p.ent[p.items[k]]; q.ent == p.ent[p.items[k] := r.(leases := r.leases + 1, touched := ws[n].clock)]
  {
    hide NoDup, Sorted, SoftBound, Exclusive;
    RunKeepsInv(cfg, ws, acts, n);
    HitKeeps(ws[n].pool, LeasedKey(ws[n], acts[n]).value, ws[n].clock, cfg.capacity, ws[n + 1].pool);
  }

  /** All other sections leave the pool alone, but for a sweep. */
  lemma OthersLeaveThePool(cfg: Config, ws: seq<World>, acts: seq<Action>, n: nat)
    requires cfg.capacity >= 1 && cfg.ttl >= 0 && Run(cfg, ws, acts) && n < |acts|
    requires !acts[n].Hit? && !acts[n].InsertOrJoin? && !acts[n].Release? && !acts[n].Sweep?
    ensures ws[n + 1].pool == ws[n].pool
    ensures ws[n + 1].clock == ws[n].clock + if acts[n].Tick? then acts[n].elapsed else 0
  {
    hide Inv, Defined;
    RunKeepsInv(cfg, ws, acts, n);
  }

  /** A pending sweep carries the time at which it was armed, less the TTL. */
  lemma {:induction false} ArmedAtSomeTime(cfg: Config, ws: seq<World>, acts: seq<Action>, n: nat)
    requires cfg.capacity >= 1 && cfg.ttl >= 0 && Run(cfg, ws, acts) && n < |ws| && ws[n].armed.Some?
    ensures exists m :: 0 <= m < n && acts[m] == ArmSweep && ws[n].armed == Some(ws[m].clock - cfg.ttl)
  {
    hide Inv, PoolSpec.Hit, Insert, PoolSpec.Release, PoolSpec.Sweep, Defined;
    if n > 0 && acts[n - 1] == ArmSweep {
      RunKeepsInv(cfg, ws, acts, n - 1);
      assert ws[n].armed == Some(ws[n - 1].clock - cfg.ttl);
    } else if n > 0 {
      RunKeepsInv(cfg, ws, acts, n - 1);
      ArmedAtSomeTime(cfg, ws, acts, n - 1);
    }
  }

  /** A sweep removes exactly the unleased entries untouched since its deadline, which was at least the TTL ago. */
  lemma SweepIsExact(cfg: Config, ws: seq<World>, acts: seq<Action>, n: nat)
    requires cfg.capacity >= 1 && cfg.ttl >= 0 && Run(cfg, ws, acts) && n < |acts| && acts[n] == Sweep
    ensures var p, q := ws[n].pool, ws[n + 1].pool;
      && ws[n].armed.Some? && q.ent == p.ent
      && (exists m :: 0 <= m < n && acts[m] == ArmSweep && ws[n].armed == Some(ws[m].clock - cfg.ttl))
      && ws[n].armed.value <= ws[n].clock - cfg.ttl
      && (forall e :: e in p.lru && p.ent[e].leases == 0 && p.ent[e].touched <= ws[n].armed.value ==>
            e !in q.lru && p.ent[e].key !in q.items)
      && (forall e :: e in p.lru && (p.ent[e].leases > 0 || p.ent[e].touched > ws[n].armed.value) ==>
            e in q.lru && p.ent[e].key in q.items && q.items[p.ent[e].key] == e)
      && (forall e :: e in q.lru ==> e in p.lru)
  {
    RunKeepsInv(cfg, ws, acts, n);
    SweepKeeps(ws[n].pool, ws[n].armed.value, cfg.capacity);
    ArmedAtSomeTime(cfg, ws, acts, n);
  }
}
