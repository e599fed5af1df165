/** The repeat-read guard of one model run: a class with epochs and freshness, and what it means on whole runs. */
module ReadGuard {

  const MAX_IDENTICAL_COMPLETED_READS := 2
  const MAX_IGNORED_REFUSALS := 2

  /** A canonical read: the tool name with the digest of its projected arguments. */
  type Read = string

  type Digest = string

  datatype Entry = Entry(digest: Digest, same: nat, observedAt: real, refusals: nat)

  /** Keys carry the epoch, as in the source. */
  datatype Key = Key(epoch: nat, read: Read)

  datatype Guard = Guard(entries: map<Key, Entry>, epoch: nat, hardStop: bool)

  datatype Verdict = Pass | Refuse(stopRequired: bool)

  predicate Fresh(g: Guard, k: Key, window: real, now: real) {
    k in g.entries && now - g.entries[k].observedAt <= window
  }

  function Precondition(g: Guard, window: real, read: Read, now: real): (Guard, Verdict) {
    var k := Key(g.epoch, read);
    if g.hardStop then (g, Refuse(true))
    else if !Fresh(g, k, window, now) then (g.(entries := g.entries - {k}), Pass)
    else if g.entries[k].same < MAX_IDENTICAL_COMPLETED_READS then (g, Pass)
    else
      var e := g.entries[k].(refusals := g.entries[k].refusals + 1);
      var stop := e.refusals >= MAX_IGNORED_REFUSALS;
      (Guard(g.entries[k := e], g.epoch, stop), Refuse(stop))
  }

  function Observe(g: Guard, window: real, read: Read, now: real, digest: Digest): Guard {
    var k := Key(g.epoch, read);
    var repeat := Fresh(g, k, window, now) && g.entries[k].digest == digest;
    g.(entries := g.entries[k := Entry(digest, if repeat then g.entries[k].same + 1 else 1, now, 0)])
  }

  function Advance(g: Guard): Guard {
    Guard(map[], g.epoch + 1, g.hardStop)
  }

  class ReadProgressGuard {
    const window: real
    var entries: map<Key, Entry>
    var epoch: nat
    var hardStop: bool

    function Abs(): Guard
      reads this
    {
      Guard(entries, epoch, hardStop)
    }

    constructor (windowSeconds: real)
      ensures Abs() == Guard(map[], 0, false)
      ensures window == if windowSeconds > 1.0 then windowSeconds else 1.0
    {
      window := if windowSeconds > 1.0 then windowSeconds else 1.0;
      entries, epoch, hardStop := map[], 0, false;
    }

    method Check(read: Read, now: real) returns (v: Verdict)
      modifies this
      ensures (Abs(), v) == Precondition(old(Abs()), window, read, now)
    {
      if hardStop {
        return Refuse(true);
      }
      var k := Key(epoch, read);
      if k !in entries || now - entries[k].observedAt > window {
        entries := entries - {k};
        return Pass;
      }
      var e := entries[k];
      if e.same < MAX_IDENTICAL_COMPLETED_READS {
        return Pass;
      }
      e := e.(refusals := e.refusals + 1);
      entries := entries[k := e];
      var stopRequired := e.refusals >= MAX_IGNORED_REFUSALS;
      hardStop := hardStop || stopRequired;
      v := Refuse(stopRequired);
    }

    /** Returns whether the result is annotated as a repeat. A call that did not run read-only is not recorded. */
    method Record(read: Read, now: real, digest: Digest, ranReadOnly: bool) returns (annotated: bool)
      modifies this
      ensures Abs() == if ranReadOnly then Observe(old(Abs()), window, read, now, digest) else old(Abs())
      ensures annotated <==>
                ranReadOnly && Abs().entries[Key(epoch, read)].same >= MAX_IDENTICAL_COMPLETED_READS
    {
      if !ranReadOnly {
        return false;
      }
      var k := Key(epoch, read);
      var same := 1;
      if k in entries && now - entries[k].observedAt <= window && entries[k].digest == digest {
        same := entries[k].same + 1;
      }
      entries := entries[k := Entry(digest, same, now, 0)];
      annotated := same >= MAX_IDENTICAL_COMPLETED_READS;
    }

    method AdvanceEpoch()
      modifies this
      ensures Abs() == Advance(old(Abs()))
    {
      epoch := epoch + 1;
      entries := map[];
    }
  }

  // ---------- runs: what happened, told without the guard ----------

  datatype Event =
    | Asked(read: Read, at: real, refused: bool)
    | Observed(read: Read, at: real, digest: Digest)
    | Abandoned(read: Read)
    | Advanced

  datatype Observation = Observation(at: real, digest: Digest)

  /** The observations of one read since the last change of the guest, oldest first. */
  function Observations(log: seq<Event>, read: Read): seq<Observation> {
    if log == [] then []
    else
      var before, last := log[..|log| - 1], log[|log| - 1];
      match last
      case Advanced => []
      case Observed(r, at, digest) =>
        if r == read then Observations(before, read) + [Observation(at, digest)] else Observations(before, read)
      case _ => Observations(before, read)
  }

  /** How many of the latest observations are equal, with no gap over the window. */
  function TrailingRun(obs: seq<Observation>, window: real): nat {
    if obs == [] then 0
    else if |obs| == 1 then 1
    else
      var x, y := obs[|obs| - 2], obs[|obs| - 1];
      if x.digest == y.digest && y.at - x.at <= window then 1 + TrailingRun(obs[..|obs| - 1], window) else 1
  }

  /** Refusals of one read since its last observation or the last change of the guest. */
  function IgnoredRefusals(log: seq<Event>, read: Read): nat {
    if log == [] then 0
    else
      var before, last := log[..|log| - 1], log[|log| - 1];
      match last
      case Advanced => 0
      case Observed(r, _, _) => if r == read then 0 else IgnoredRefusals(before, read)
      case Asked(r, _, refused) => (if r == read && refused then 1 else 0) + IgnoredRefusals(before, read)
      case Abandoned(_) => IgnoredRefusals(before, read)
  }

  /** Calls of one read are serial: running holds the reads that passed the check and have not completed. */
  datatype Run = Run(g: Guard, running: set<Read>, clock: real, log: seq<Event>)

  datatype Step =
    | Ask(read: Read, at: real)
    | Complete(read: Read, at: real, digest: Digest)
    | Abandon(read: Read)
    | Change

  predicate Enabled(r: Run, s: Step) {
    match s
    case Ask(read, at) => read !in r.running && at >= r.clock
    case Complete(read, at, _) => read in r.running && at >= r.clock
    case Abandon(read) => read in r.running
    case Change => true
  }

  function Next(r: Run, window: real, s: Step): Run
    requires Enabled(r, s)
  {
    match s
    case Ask(read, at) =>
      var (g, v) := Precondition(r.g, window, read, at);
      Run(g, if v.Pass? then r.running + {read} else r.running, at, r.log + [Asked(read, at, v.Refuse?)])
    case Complete(read, at, digest) =>
      Run(Observe(r.g, window, read, at, digest), r.running - {read}, at, r.log + [Observed(read, at, digest)])
    case Abandon(read) => Run(r.g, r.running - {read}, r.clock, r.log + [Abandoned(read)])
    case Change => Run(Advance(r.g), r.running, r.clock, r.log + [Advanced])
  }

  function Start(): Run {
    Run(Guard(map[], 0, false), {}, 0.0, [])
  }

  ghost predicate IsRun(window: real, rs: seq<Run>, steps: seq<Step>) {
    && |rs| == |steps| + 1 && rs[0] == Start()
    && forall i :: 0 <= i < |steps| ==> Enabled(rs[i], steps[i]) && rs[i + 1] == Next(rs[i], window, steps[i])
  }

  /** What the entry of one read says about the log, or its absence does. */
  ghost predicate Accurate(r: Run, window: real, read: Read) {
    var k, obs := Key(r.g.epoch, read), Observations(r.log, read);
    && TrailingRun(obs, window) <= MAX_IDENTICAL_COMPLETED_READS
    && (if k in r.g.entries then
          var e := r.g.entries[k];
          && obs != [] && obs[|obs| - 1] == Observation(e.observedAt, e.digest)
          && e.same == TrailingRun(obs, window)
          && (read in r.running ==> e.same < MAX_IDENTICAL_COMPLETED_READS)
          && (!r.g.hardStop ==> e.refusals == IgnoredRefusals(r.log, read))
        else obs == [] || r.clock - obs[|obs| - 1].at > window)
    && (!r.g.hardStop ==> IgnoredRefusals(r.log, read) < MAX_IGNORED_REFUSALS)
  }

  ghost predicate Inv(r: Run, window: real) {
    && (forall k :: k in r.g.entries ==> k.epoch == r.g.epoch)
    && (forall read :: Accurate(r, window, read))
  }

  lemma AskStep(r: Run, window: real, read: Read, at: real, v: Run)
    requires Inv(r, window) && Enabled(r, Ask(read, at)) && v == Next(r, window, Ask(read, at))
    ensures Inv(v, window)
  {
    assert v.log[..|v.log| - 1] == r.log;
    forall x ensures Accurate(v, window, x) {
      assert Accurate(r, window, x);
      assert Accurate(r, window, read);
    }
  }

  lemma CompleteStep(r: Run, window: real, read: Read, at: real, digest: Digest, v: Run)
    requires Inv(r, window) && Enabled(r, Complete(read, at, digest))
      && v == Next(r, window, Complete(read, at, digest))
    ensures Inv(v, window)
  {
    assert v.log[..|v.log| - 1] == r.log;
    forall x ensures Accurate(v, window, x) {
      assert Accurate(r, window, x);
      if x == read {
        var obs := Observations(r.log, read);
        assert (obs + [Observation(at, digest)])[..|obs|] == obs;
      }
    }
  }

  lemma OtherStep(r: Run, window: real, s: Step, v: Run)
    requires Inv(r, window) && Enabled(r, s) && (s.Abandon? || s.Change?) && v == Next(r, window, s)
    ensures Inv(v, window)
  {
    assert v.log[..|v.log| - 1] == r.log;
    forall x ensures Accurate(v, window, x) {
      assert Accurate(r, window, x);
    }
  }

  lemma StepKeepsInv(r: Run, window: real, s: Step, v: Run)
    requires Inv(r, window) && Enabled(r, s) && v == Next(r, window, s)
    ensures Inv(v, window)
  {
    match s {
      case Ask(read, at) => AskStep(r, window, read, at, v);
      case Complete(read, at, digest) => CompleteStep(r, window, read, at, digest, v);
      case Abandon(_) => OtherStep(r, window, s, v);
      case Change => OtherStep(r, window, s, v);
    }
  }

  lemma {:induction false} RunKeepsInv(window: real, rs: seq<Run>, steps: seq<Step>, n: nat)
    requires IsRun(window, rs, steps) && n < |rs|
    ensures Inv(rs[n], window)
  {
    if n > 0 {
      RunKeepsInv(window, rs, steps, n - 1);
      StepKeepsInv(rs[n - 1], window, steps[n - 1], rs[n]);
    }
  }

  // ---------- the promises ----------

  /** The counter is the trailing run of equal observations, and no read is ever observed a third time in one. */
  lemma SameCountsTheTrailingRun(window: real, rs: seq<Run>, steps: seq<Step>, n: nat, read: Read)
    requires IsRun(window, rs, steps) && n < |rs|
    ensures var r, obs := rs[n], Observations(rs[n].log, read);
      && TrailingRun(obs, window) <= MAX_IDENTICAL_COMPLETED_READS
      && (Key(r.g.epoch, read) in r.g.entries ==>
            r.g.entries[Key(r.g.epoch, read)].same == TrailingRun(obs, window) <= MAX_IDENTICAL_COMPLETED_READS)
      && (Key(r.g.epoch, read) !in r.g.entries ==> obs == [] || r.clock - obs[|obs| - 1].at > window)
  {
    RunKeepsInv(window, rs, steps, n);
    assert Accurate(rs[n], window, read);
  }

  /** A check is refused exactly when the run is stopped, or two equal observations stand within the window. */
  lemma RefusalIsExact(window: real, rs: seq<Run>, steps: seq<Step>, n: nat, read: Read, at: real)
    requires IsRun(window, rs, steps) && n < |rs| && at >= rs[n].clock
    ensures var obs := Observations(rs[n].log, read);
      Precondition(rs[n].g, window, read, at).1.Refuse? <==>
        || rs[n].g.hardStop
        || (TrailingRun(obs, window) >= MAX_IDENTICAL_COMPLETED_READS && at - obs[|obs| - 1].at <= window)
  {
    RunKeepsInv(window, rs, steps, n);
    assert Accurate(rs[n], window, read);
  }

  ghost predicate Exhausted(log: seq<Event>, read: Read) {
    IgnoredRefusals(log, read) >= MAX_IGNORED_REFUSALS
  }

  /** The stop is raised exactly by a second refusal of one read with no observation of it and no change in between,
      and it is raised for good. */
  lemma {:induction false} StopIsExactAndFinal(window: real, rs: seq<Run>, steps: seq<Step>, n: nat)
    requires IsRun(window, rs, steps) && n < |rs|
    ensures |rs[n].log| == n && forall i :: 0 <= i <= n ==> rs[i].log == rs[n].log[..i]
    ensures rs[n].g.hardStop <==> exists i, read :: 0 <= i <= n && Exhausted(rs[i].log, read)
    ensures forall i :: 0 <= i <= n && rs[i].g.hardStop ==> rs[n].g.hardStop
    ensures forall i :: 0 <= i < n && rs[i].g.hardStop && steps[i].Ask? ==>
      rs[n].log[i] == Asked(steps[i].read, steps[i].at, true)
  {
    if n > 0 {
      StopIsExactAndFinal(window, rs, steps, n - 1);
      RunKeepsInv(window, rs, steps, n - 1);
      RunKeepsInv(window, rs, steps, n);
      StopStep(rs[n - 1], window, steps[n - 1], rs[n]);
      hide Next, Inv, Exhausted;
      assert rs[n].log[..n - 1] == rs[n - 1].log;
    }
  }

  lemma StopStep(r: Run, window: real, s: Step, v: Run)
    requires Inv(r, window) && Inv(v, window) && Enabled(r, s) && v == Next(r, window, s)
    ensures |v.log| == |r.log| + 1 && v.log[..|r.log|] == r.log
    ensures r.g.hardStop ==> v.g.hardStop
    ensures r.g.hardStop && s.Ask? ==> v.log[|r.log|] == Asked(s.read, s.at, true)
    ensures v.g.hardStop && !r.g.hardStop ==> exists read :: Exhausted(v.log, read)
    ensures !v.g.hardStop ==> forall read :: !Exhausted(v.log, read)
  {
    if v.g.hardStop && !r.g.hardStop {
      assert Accurate(r, window, s.read);
      assert Exhausted(v.log, s.read);
    }
    if !v.g.hardStop {
      forall read ensures !Exhausted(v.log, read) { assert Accurate(v, window, read); }
    }
  }

  /** A refusal asks for the stop exactly when the run is stopped from then on. */
  lemma StopIsAskedForExactly(g: Guard, window: real, read: Read, at: real)
    ensures var (after, v) := Precondition(g, window, read, at);
      && (v.Refuse? ==> (v.stopRequired <==> after.hardStop))
      && (v.Pass? ==> !g.hardStop && !after.hardStop)
  {
  }
}
