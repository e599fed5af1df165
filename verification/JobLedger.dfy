/** The background-job slots of one harness run: reservation before the launch, results and polls arriving later. */
module JobLedger {
  import opened Options

  const MAX_BACKGROUND_JOBS := 32
  const ACTIVE_STATES: set<string> := {"started", "running", "unknown"}
  const TERMINAL_STATES: set<string> := {"succeeded", "failed", "interrupted", "not_found"}

  type JobId = string

  datatype Job = Job(id: JobId, state: string)

  datatype Ledger = Ledger(active: map<JobId, string>, slots: int)

  // ---------- the handshake ----------

  /** raw holds the normalised continuation handles, None for a malformed one. */
  function FromHandshake(raw: seq<Option<Job>>, declared: Option<int>): Option<Ledger> {
    var remaining := if declared.Some? then declared.value else MAX_BACKGROUND_JOBS - |raw|;
    if |raw| > MAX_BACKGROUND_JOBS || remaining < 0 || remaining > MAX_BACKGROUND_JOBS - |raw| then None
    else if exists i :: 0 <= i < |raw| && (raw[i].None? || raw[i].value.state !in ACTIVE_STATES) then None
    else
      if |Ids(raw)| != |raw| then None
      else Some(Ledger(map i | i in Ids(raw) :: StateOf(raw, i), remaining))
  }

  function Ids(raw: seq<Option<Job>>): set<JobId> {
    set i | 0 <= i < |raw| && raw[i].Some? :: raw[i].value.id
  }

  function StateOf(raw: seq<Option<Job>>, id: JobId): string {
    if raw == [] then "unknown"
    else if raw[0].Some? && raw[0].value.id == id then raw[0].value.state
    else StateOf(raw[1..], id)
  }

  /** Slots held, whether free or taken by an active job. */
  function Held(l: Ledger): int {
    l.slots + |l.active|
  }

  lemma HandshakeFits(raw: seq<Option<Job>>, declared: Option<int>)
    ensures var l := FromHandshake(raw, declared);
      l.Some? ==> l.value.slots >= 0 && |l.value.active| == |raw| && Held(l.value) <= MAX_BACKGROUND_JOBS
  {
    var l := FromHandshake(raw, declared);
    if l.Some? {
      assert l.value.active.Keys == Ids(raw);
      assert |l.value.active| == |l.value.active.Keys|;
    }
  }

  /** What a handle hands over: well formed and not finished. */
  predicate IsActive(handle: Option<Job>) {
    handle.Some? && (handle.value.state == "started" || handle.value.state == "running"
                     || handle.value.state == "unknown")
  }

  /** No two handles are of one job. */
  ghost predicate AllDiffer(raw: seq<Option<Job>>) {
    forall i, j :: 0 <= i < j < |raw| && raw[i].Some? && raw[j].Some? ==> raw[i].value.id != raw[j].value.id
  }

  /** A handshake is accepted exactly if it has at most 32 handles, all of them active and of different jobs, and the
      capacity it declares fits beside them. What is restored is each job in the state handed over, and the declared
      capacity, or else what the handles leave of the 32. */
  lemma HandshakeIsExact(raw: seq<Option<Job>>, declared: Option<int>)
    ensures FromHandshake(raw, declared).Some?
       <==> (&& |raw| <= 32 && (declared.Some? ==> 0 <= declared.value <= 32 - |raw|)
             && (forall i :: 0 <= i < |raw| ==> IsActive(raw[i]))
             && AllDiffer(raw))
    ensures FromHandshake(raw, declared).Some? ==>
      var l := FromHandshake(raw, declared).value;
      && l.slots == (if declared.Some? then declared.value else 32 - |raw|)
      && (forall i :: 0 <= i < |raw| ==> raw[i].value.id in l.active && l.active[raw[i].value.id] == raw[i].value.state)
      && (forall id :: id in l.active ==> exists i :: 0 <= i < |raw| && raw[i].value.id == id)
  {
    if forall i :: 0 <= i < |raw| ==> IsActive(raw[i]) {
      DistinctHandles(raw);
      if FromHandshake(raw, declared).Some? {
        forall i | 0 <= i < |raw| ensures StateOf(raw, raw[i].value.id) == raw[i].value.state {
          StateOfHandle(raw, i);
        }
      }
    } else {
      var i :| 0 <= i < |raw| && !IsActive(raw[i]);
      assert raw[i].None? || raw[i].value.state !in ACTIVE_STATES;
    }
  }

  lemma {:induction false} DistinctHandles(raw: seq<Option<Job>>)
    requires forall i :: 0 <= i < |raw| ==> raw[i].Some?
    ensures |Ids(raw)| <= |raw| && (|Ids(raw)| == |raw| <==> AllDiffer(raw))
  {
    hide Ids, AllDiffer;
    if raw == [] {
      NoHandles();
    } else {
      var n := |raw| - 1;
      DistinctHandles(raw[..n]);
      LastHandle(raw, raw[..n], raw[n]);
    }
  }

  lemma NoHandles()
    ensures Ids([]) == {} && AllDiffer([])
  {
  }

  lemma LastHandle(raw: seq<Option<Job>>, front: seq<Option<Job>>, last: Option<Job>)
    requires raw == front + [last] && last.Some? && forall i :: 0 <= i < |front| ==> front[i].Some?
    ensures Ids(raw) == Ids(front) + {last.value.id}
    ensures AllDiffer(raw) <==> AllDiffer(front) && last.value.id !in Ids(front)
  {
    var n := |front|;
    assert raw[n] == last && forall i :: 0 <= i < n ==> raw[i] == front[i];
  }

  lemma {:induction false} StateOfHandle(raw: seq<Option<Job>>, k: nat)
    requires k < |raw| && raw[k].Some?
    requires forall i :: 0 <= i < k ==> raw[i].Some? && raw[i].value.id != raw[k].value.id
    ensures StateOf(raw, raw[k].value.id) == raw[k].value.state
  {
    if k > 0 { StateOfHandle(raw[1..], k - 1); }
  }

  // ---------- the launcher ----------

  /** How the SSH call of the launcher ended. */
  datatype Launcher = InvalidArguments | Raised | Reported(error: string) | Exited(code: int)

  datatype StartResult = StartResult(ok: bool, state: Option<string>, boxMayBeChanged: bool)

  function Start(launcher: Launcher): StartResult {
    match launcher
    case InvalidArguments => StartResult(false, None, false)
    case Raised => StartResult(false, None, true)
    case Reported(error) => StartResult(false, None, error == "exec_timeout")
    case Exited(code) => if code != 0 then StartResult(false, None, true) else StartResult(true, Some("started"), false)
  }

  /** The launcher command was sent: every end but a refusal before it, and a failed connection. */
  predicate MayHaveTakenEffect(launcher: Launcher) {
    match launcher
    case InvalidArguments => false
    case Raised => true
    case Reported(error) => error == "exec_timeout"
    case Exited(_) => true
  }

  function LaunchState(launcher: Launcher): string {
    var r := Start(launcher);
    if r.state.Some? then r.state.value else if r.boxMayBeChanged then "unknown" else "not_found"
  }

  /** A job is "started" exactly if the launcher exited with 0, and "not_found" exactly if nothing can have started. */
  lemma LaunchStateIsExact(launcher: Launcher)
    ensures LaunchState(launcher) == "started" <==> launcher == Exited(0)
    ensures LaunchState(launcher) == "not_found" <==> !MayHaveTakenEffect(launcher)
    ensures LaunchState(launcher) == "unknown" <==> MayHaveTakenEffect(launcher) && launcher != Exited(0)
    ensures Start(launcher).ok <==> launcher == Exited(0)
  {
    assert |"started"| == 7 && |"not_found"| == 9;
    assert "unknown"[0] == 'u' && "started"[0] == 's';
  }

  // ---------- the ledger's four entry points ----------

  function Reserve(l: Ledger, id: JobId): Ledger {
    Ledger(l.active[id := "unknown"], l.slots - 1)
  }

  /** None is the KeyError of a launch that returns for a job no longer listed. */
  function FinishLaunch(l: Ledger, id: JobId, state: string): Option<Ledger> {
    if state in TERMINAL_STATES then Some(Ledger(l.active - {id}, l.slots + 1))
    else if id !in l.active then None
    else Some(Ledger(l.active[id := state], l.slots))
  }

  function FinishPoll(l: Ledger, id: JobId, state: string): Ledger {
    if state in TERMINAL_STATES && id in l.active then Ledger(l.active - {id}, l.slots + 1) else l
  }

  class BackgroundJobs {
    var active: map<JobId, string>
    var slots: int

    function Abs(): Ledger
      reads this
    {
      Ledger(active, slots)
    }

    constructor (l: Ledger)
      ensures Abs() == l
    {
      active, slots := l.active, l.slots;
    }

    /** Everything before the first await of a background launch; false when the capacity is full. */
    method TryReserve(id: JobId) returns (reserved: bool)
      modifies this
      ensures reserved <==> old(slots) > 0
      ensures Abs() == if reserved then Reserve(old(Abs()), id) else old(Abs())
    {
      if slots <= 0 {
        return false;
      }
      active := active[id := "unknown"];
      slots := slots - 1;
      reserved := true;
    }

    /** Everything after the launcher returned. */
    method LaunchReturned(id: JobId, launcher: Launcher)
      requires FinishLaunch(Abs(), id, LaunchState(launcher)).Some?
      modifies this
      ensures Some(Abs()) == FinishLaunch(old(Abs()), id, LaunchState(launcher))
    {
      var state := LaunchState(launcher);
      if state in TERMINAL_STATES {
        active := active - {id};
        slots := slots + 1;
      } else {
        active := active[id := state];
      }
    }

    method PollReturned(id: JobId, state: string)
      modifies this
      ensures Abs() == FinishPoll(old(Abs()), id, state)
    {
      if state in TERMINAL_STATES {
        if id in active {
          active := active - {id};
          slots := slots + 1;
        }
      }
    }
  }

  // ---------- runs ----------

  /** launching holds the jobs between reservation and the launcher's return; polls those with a poll in flight, several
      of them possibly for one job; used every id ever handed out. */
  datatype World = World(l: Ledger, launching: set<JobId>, polls: multiset<JobId>, used: set<JobId>)

  datatype Event =
    | Launch(id: JobId)
    | Launched(id: JobId, launcher: Launcher)
    | Poll(id: JobId)
    | Polled(id: JobId, state: string)

  /** Job ids are fresh, and a job is polled only after its launch call returned. */
  predicate Enabled(w: World, e: Event) {
    match e
    case Launch(id) => w.l.slots > 0 && id !in w.used
    case Launched(id, _) => id in w.launching
    case Poll(id) => id in w.l.active && id !in w.launching
    case Polled(id, _) => id in w.polls
  }

  function Next(w: World, e: Event): Option<World> {
    match e
    case Launch(id) => Some(World(Reserve(w.l, id), w.launching + {id}, w.polls, w.used + {id}))
    case Launched(id, launcher) =>
      (match FinishLaunch(w.l, id, LaunchState(launcher))
       case None => None
       case Some(l) => Some(w.(l := l, launching := w.launching - {id})))
    case Poll(id) => Some(w.(polls := w.polls + multiset{id}))
    case Polled(id, state) => Some(w.(l := FinishPoll(w.l, id, state), polls := w.polls - multiset{id}))
  }

  ghost predicate Inv(w: World, held: int) {
    && Held(w.l) == held && w.l.slots >= 0
    && w.launching <= w.l.active.Keys && w.l.active.Keys <= w.used
    && (forall id :: id in w.polls ==> id in w.used && id !in w.launching)
  }

  lemma PoppedSize(active: map<JobId, string>, id: JobId)
    ensures |active - {id}| == if id in active then |active| - 1 else |active|
    ensures (active - {id}).Keys == active.Keys - {id}
  {
    assert (active - {id}).Keys == active.Keys - {id};
    assert |active - {id}| == |(active - {id}).Keys| && |active| == |active.Keys|;
  }

  lemma PutSize(active: map<JobId, string>, id: JobId, state: string)
    ensures |active[id := state]| == if id in active then |active| else |active| + 1
  {
    assert active[id := state].Keys == active.Keys + {id};
    assert |active[id := state]| == |active[id := state].Keys| && |active| == |active.Keys|;
  }

  /** Under the discipline no step fails and none changes the number of slots held. */
  lemma StepConserves(w: World, e: Event, held: int)
    requires Inv(w, held) && Enabled(w, e)
    ensures Next(w, e).Some? && Inv(Next(w, e).value, held)
  {
    match e {
      case Launch(id) => PutSize(w.l.active, id, "unknown");
      case Launched(id, launcher) =>
        PoppedSize(w.l.active, id);
        PutSize(w.l.active, id, LaunchState(launcher));
      case Poll(_) =>
      case Polled(id, _) => PoppedSize(w.l.active, id);
    }
  }

  ghost predicate IsRun(ws: seq<World>, es: seq<Event>) {
    && |ws| == |es| + 1
    && (exists raw, declared :: FromHandshake(raw, declared) == Some(ws[0].l))
    && ws[0].launching == {} && ws[0].polls == multiset{} && ws[0].used == ws[0].l.active.Keys
    && forall i :: 0 <= i < |es| ==> Enabled(ws[i], es[i]) && Next(ws[i], es[i]) == Some(ws[i + 1])
  }

  /** Slots are conserved over every run, never negative, and never more than the protocol's maximum. */
  lemma {:induction false} SlotsAreConserved(ws: seq<World>, es: seq<Event>, n: nat)
    requires IsRun(ws, es) && n < |ws|
    ensures Inv(ws[n], Held(ws[0].l)) && 0 <= ws[n].l.slots && |ws[n].l.active| <= Held(ws[0].l) <= MAX_BACKGROUND_JOBS
  {
    if n == 0 {
      var raw, declared :| FromHandshake(raw, declared) == Some(ws[0].l);
      HandshakeFits(raw, declared);
    } else {
      SlotsAreConserved(ws, es, n - 1);
      StepConserves(ws[n - 1], es[n - 1], Held(ws[0].l));
    }
  }

  /** A poll that returns was made of a job listed at the time, after that job's launch call had returned. */
  lemma {:induction false} PolledJobsWereListed(ws: seq<World>, es: seq<Event>, n: nat, id: JobId)
    requires IsRun(ws, es) && n < |ws| && id in ws[n].polls
    ensures exists i :: 0 <= i < n && es[i] == Poll(id) && id in ws[i].l.active && id !in ws[i].launching
  {
    hide Next, Enabled, FromHandshake;
    if n > 0 {
      if id in ws[n - 1].polls { PolledJobsWereListed(ws, es, n - 1, id); }
      else { NewPoll(ws[n - 1], es[n - 1], ws[n], id); }
    }
  }

  lemma NewPoll(w: World, e: Event, v: World, id: JobId)
    requires Enabled(w, e) && Next(w, e) == Some(v) && id in v.polls && id !in w.polls
    ensures e == Poll(id) && id in w.l.active && id !in w.launching
  {
  }

  /** A job whose launcher may have taken effect stays listed until a poll of it reports a terminal state. */
  lemma {:induction false} StartedJobsStayListed(ws: seq<World>, es: seq<Event>, i: nat, n: nat)
    requires IsRun(ws, es) && i < n < |ws|
    requires es[i].Launched? && MayHaveTakenEffect(es[i].launcher)
    ensures es[i].id in ws[n].used && es[i].id !in ws[n].launching
    ensures es[i].id in ws[n].l.active || exists j :: i < j < n && EndsJob(es[j], es[i].id)
    decreases n
  {
    hide Next, Enabled, FromHandshake;
    SlotsAreConserved(ws, es, n - 1);
    if n == i + 1 {
      SentLaunchIsListed(ws[i], es[i], ws[n], Held(ws[0].l));
    } else {
      StartedJobsStayListed(ws, es, i, n - 1);
      ListedUntilEnded(ws[n - 1], es[n - 1], ws[n], es[i].id);
    }
  }

  /** So does a job the handshake restored. */
  lemma {:induction false} RestoredJobsStayListed(ws: seq<World>, es: seq<Event>, id: JobId, n: nat)
    requires IsRun(ws, es) && n < |ws| && id in ws[0].l.active
    ensures id in ws[n].used && id !in ws[n].launching
    ensures id in ws[n].l.active || exists j :: 0 <= j < n && EndsJob(es[j], id)
  {
    hide Next, Enabled, FromHandshake;
    if n > 0 {
      RestoredJobsStayListed(ws, es, id, n - 1);
      ListedUntilEnded(ws[n - 1], es[n - 1], ws[n], id);
    }
  }

  lemma SentLaunchIsListed(w: World, e: Event, v: World, held: int)
    requires Inv(w, held) && e.Launched? && Enabled(w, e) && Next(w, e) == Some(v) && MayHaveTakenEffect(e.launcher)
    ensures e.id in v.used && e.id !in v.launching && e.id in v.l.active
  {
  }

  lemma ListedUntilEnded(w: World, e: Event, v: World, id: JobId)
    requires Enabled(w, e) && Next(w, e) == Some(v) && id in w.used && id !in w.launching
    ensures id in v.used && id !in v.launching && (id in w.l.active ==> id in v.l.active || EndsJob(e, id))
  {
  }

  predicate EndsJob(e: Event, id: JobId) {
    e.Polled? && e.id == id && e.state in TERMINAL_STATES
  }

  /** The event takes a job off the list: a terminal poll, or the return of a launch that cannot have started it. */
  predicate TakesOff(e: Event, id: JobId) {
    EndsJob(e, id) || (e.Launched? && e.id == id && !MayHaveTakenEffect(e.launcher))
  }

  ghost predicate Known(ws: seq<World>, es: seq<Event>, n: nat, id: JobId)
    requires n <= |es| && |ws| > 0
  {
    id in ws[0].l.active || Launch(id) in es[..n]
  }

  /** The list is exact in every run: a job is on it exactly if the handshake restored it or a launch reserved it, and
      nothing has taken it off; and there are as many free slots as the handshake left, minus the jobs launched since
      and plus those taken off. */
  lemma {:induction false} ListIsExact(ws: seq<World>, es: seq<Event>, n: nat, id: JobId)
    requires IsRun(ws, es) && n < |ws|
    ensures id in ws[n].used <==> Known(ws, es, n, id)
    ensures forall j :: 0 <= j < n && TakesOff(es[j], id) ==> Known(ws, es, n, id)
    ensures id in ws[n].l.active <==> Known(ws, es, n, id) && forall j :: 0 <= j < n ==> !TakesOff(es[j], id)
    ensures ws[n].l.slots == ws[0].l.slots + |ws[0].l.active| - |ws[n].l.active|
  {
    hide Next, Enabled, FromHandshake, TakesOff, Inv, Held;
    SlotsLeft(ws, es, n);
    if n > 0 {
      ListIsExact(ws, es, n - 1, id);
      SlotsAreConserved(ws, es, n - 1);
      assert es[..n] == es[..n - 1] + [es[n - 1]];
      ListStep(ws[n - 1], es[n - 1], ws[n], id, Held(ws[0].l));
    }
  }

  lemma SlotsLeft(ws: seq<World>, es: seq<Event>, n: nat)
    requires IsRun(ws, es) && n < |ws|
    ensures ws[n].l.slots == ws[0].l.slots + |ws[0].l.active| - |ws[n].l.active|
  {
    SlotsAreConserved(ws, es, n);
  }

  lemma ListStep(w: World, e: Event, v: World, id: JobId, held: int)
    requires Inv(w, held) && Enabled(w, e) && Next(w, e) == Some(v)
    ensures id in v.used <==> id in w.used || e == Launch(id)
    ensures id in v.l.active <==> (id in w.l.active || e == Launch(id)) && !TakesOff(e, id)
    ensures e == Launch(id) ==> id !in w.used
    ensures TakesOff(e, id) ==> id in w.used
  {
    if e.Launched? { LaunchStateIsExact(e.launcher); }
  }

  /** And it shows each job in the state of its launch: "unknown" until the launch call has returned, what the launcher
      reported from then on, and for a restored job the state handed over. */
  lemma {:induction false} StatesAreExact(ws: seq<World>, es: seq<Event>, n: nat, id: JobId)
    requires IsRun(ws, es) && n < |ws| && id in ws[n].l.active
    ensures id in ws[n].launching ==> ws[n].l.active[id] == "unknown" && id !in ws[0].l.active
    ensures forall j :: 0 <= j < n && es[j].Launched? && es[j].id == id ==>
      ws[n].l.active[id] == LaunchState(es[j].launcher) && id !in ws[n].launching
    ensures id in ws[0].l.active ==> ws[n].l.active[id] == ws[0].l.active[id]
    ensures id in ws[0].l.active || id in ws[n].launching || exists j :: 0 <= j < n && es[j].Launched? && es[j].id == id
  {
    hide Next, Enabled, FromHandshake, LaunchState;
    if n > 0 {
      var w, e := ws[n - 1], es[n - 1];
      SlotsAreConserved(ws, es, n - 1);
      forall j | 0 <= j < n - 1 && es[j].Launched? ensures es[j].id in w.used && es[j].id !in w.launching {
        LaunchedOnce(ws, es, j, n - 1);
      }
      StateStep(w, e, ws[n], id, Held(ws[0].l));
      if id in w.l.active {
        StatesAreExact(ws, es, n - 1, id);
        if id in ws[0].l.active { RestoredJobsStayListed(ws, es, id, n - 1); }
      } else {
        ListIsExact(ws, es, n - 1, id);
      }
    }
  }

  lemma {:induction false} LaunchedOnce(ws: seq<World>, es: seq<Event>, i: nat, n: nat)
    requires IsRun(ws, es) && i < n < |ws| && es[i].Launched?
    ensures es[i].id in ws[n].used && es[i].id !in ws[n].launching
    decreases n
  {
    hide Next, Enabled, FromHandshake;
    SlotsAreConserved(ws, es, n - 1);
    if i < n - 1 { LaunchedOnce(ws, es, i, n - 1); }
    LaunchedStep(ws[n - 1], es[n - 1], ws[n], es[i].id, Held(ws[0].l));
  }

  lemma LaunchedStep(w: World, e: Event, v: World, id: JobId, held: int)
    requires Inv(w, held) && Enabled(w, e) && Next(w, e) == Some(v)
    requires (id in w.used && id !in w.launching) || (e.Launched? && e.id == id)
    ensures id in v.used && id !in v.launching
  {
  }

  lemma StateStep(w: World, e: Event, v: World, id: JobId, held: int)
    requires Inv(w, held) && Enabled(w, e) && Next(w, e) == Some(v) && id in v.l.active
    ensures id !in w.l.active ==> e == Launch(id) && id !in w.used && v.l.active[id] == "unknown" && id in v.launching
    ensures id in w.l.active ==>
      if e.Launched? && e.id == id then
        id in w.launching && id !in v.launching && v.l.active[id] == LaunchState(e.launcher)
      else
        v.l.active[id] == w.l.active[id] && (id in v.launching <==> id in w.launching)
  {
    if e.Launched? { LaunchStateIsExact(e.launcher); }
  }

  // ---------- without the discipline ----------

  /** A launch that returns conserves the slots exactly if its job is still listed; otherwise it fails or adds
      a slot. */
  lemma LaunchReturnConservesIff(l: Ledger, id: JobId, launcher: Launcher)
    ensures var r := FinishLaunch(l, id, LaunchState(launcher));
      && (r.Some? && Held(r.value) == Held(l) <==> id in l.active)
      && (r.None? <==> id !in l.active && LaunchState(launcher) !in TERMINAL_STATES)
  {
    PoppedSize(l.active, id);
    PutSize(l.active, id, LaunchState(launcher));
  }

  /** The same without the discipline: any listed job may be polled, also one whose launch call has not returned. */
  predicate LooselyEnabled(w: World, e: Event) {
    if e.Poll? then e.id in w.l.active else Enabled(w, e)
  }

  ghost predicate LooseStep(w: World, e: Event, v: World) {
    LooselyEnabled(w, e) && Next(w, e) == Some(v)
  }

  ghost predicate IsLooseRun(ws: seq<World>, es: seq<Event>) {
    |ws| == |es| + 1 && forall i :: 0 <= i < |es| ==> LooseStep(ws[i], es[i], ws[i + 1])
  }

  /** What the discipline is for: a job polled to its end before its launch call returns with a connection failure would
      give its slot back twice. No caller can do so, because the launch call's own reply is the first to name the id. */
  lemma EarlyPollWouldGainASlot(w: World, id: JobId) returns (ws: seq<World>, es: seq<Event>)
    requires w.l.slots > 0 && id !in w.used && w.l.active.Keys <= w.used
    ensures IsLooseRun(ws, es) && |es| == 4 && ws[0] == w && es[0] == Launch(id)
    ensures Held(ws[4].l) == Held(w.l) + 1
  {
    var failure := Reported("connect_failed");
    es := [Launch(id), Poll(id), Polled(id, "not_found"), Launched(id, failure)];
    EarlyPoll(w.l, id);
    hide Reserve, FinishPoll, FinishLaunch, Held, LaunchState;
    var reserved := Reserve(w.l, id);
    var polled := FinishPoll(reserved, id, "not_found");
    var done := FinishLaunch(polled, id, LaunchState(failure)).value;
    var used, polls := w.used + {id}, w.polls + multiset{id};
    var w1 := World(reserved, w.launching + {id}, w.polls, used);
    var w2 := World(reserved, w.launching + {id}, polls, used);
    var w3 := World(polled, w.launching + {id}, polls - multiset{id}, used);
    var w4 := World(done, w.launching + {id} - {id}, polls - multiset{id}, used);
    MayLaunch(w, id);
    MayPoll(w1, id);
    MayReturnPoll(w2, id, "not_found");
    MayReturnLaunch(w3, id, failure);
    hide LooseStep;
    ws := [w, w1, w2, w3, w4];
  }

  lemma MayLaunch(w: World, id: JobId)
    requires w.l.slots > 0 && id !in w.used
    ensures LooseStep(w, Launch(id), World(Reserve(w.l, id), w.launching + {id}, w.polls, w.used + {id}))
  {
  }

  lemma MayPoll(w: World, id: JobId)
    requires id in w.l.active
    ensures LooseStep(w, Poll(id), World(w.l, w.launching, w.polls + multiset{id}, w.used))
  {
  }

  lemma MayReturnPoll(w: World, id: JobId, state: string)
    requires id in w.polls
    ensures LooseStep(w, Polled(id, state),
      World(FinishPoll(w.l, id, state), w.launching, w.polls - multiset{id}, w.used))
  {
  }

  lemma MayReturnLaunch(w: World, id: JobId, launcher: Launcher)
    requires id in w.launching && FinishLaunch(w.l, id, LaunchState(launcher)).Some?
    ensures LooseStep(w, Launched(id, launcher),
                      World(FinishLaunch(w.l, id, LaunchState(launcher)).value, w.launching - {id}, w.polls, w.used))
  {
  }

  lemma EarlyPoll(l: Ledger, id: JobId)
    requires l.slots > 0 && id !in l.active
    ensures id in Reserve(l, id).active
    ensures var polled := FinishPoll(Reserve(l, id), id, "not_found");
      var done := FinishLaunch(polled, id, LaunchState(Reported("connect_failed")));
      done.Some? && Held(done.value) == Held(l) + 1
  {
    PutSize(l.active, id, "unknown");
    PoppedSize(Reserve(l, id).active, id);
    PoppedSize(FinishPoll(Reserve(l, id), id, "not_found").active, id);
  }
}
