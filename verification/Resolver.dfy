/** Resolving a proposed operation: which slots become arguments, what stands in the way, and what may be confirmed. */
module Resolver {
  import opened SlotCodecs
  import opened Options

  datatype Slot = Slot(name: string, value: Value)
  datatype Field = Field(required: bool, codec: Codec, target: bool)
  datatype Verdict = Accept | Outage | Reject

  /** validate is the operation's own contract on the whole argument set, when it has one. */
  datatype Spec = Spec(fields: map<string, Field>, guided: bool, collectable: seq<string>,
                       validate: Option<map<string, Value> -> bool>)

  datatype Context = Context(env: Env, verifier: Option<Slot -> Verdict>)

  datatype Kind = InvalidValue | UnknownOperation | UnknownField | TargetNotExist | OperationContract
  datatype Problem = Problem(slot: string, kind: Kind)
  datatype Conflict = InCatalog(slot: string, names: seq<string>) | InProposal(slot: string, values: seq<Value>)

  /** The lists are sorted for display at the end; what is kept here is what they hold. */
  datatype Outcome = Outcome(arguments: map<string, Value>, missing: set<string>, rejected: multiset<Problem>,
                             failures: multiset<string>, conflicts: multiset<Conflict>,
                             ready: bool, intake: bool, preview: Option<map<string, Value>>)

  // ---------- one slot ----------

  datatype Judgement =
    | Accepted(name: string, value: Value)
    | Refused(name: string, kind: Kind)
    | Failed(name: string)
    | Unclear(name: string, names: seq<string>)

  function Adjudicate(ctx: Context, slot: Slot): Verdict {
    if ctx.verifier.None? then Reject else ctx.verifier.value(slot)
  }

  function Judge(ctx: Context, spec: Spec, slot: Slot): (j: Judgement)
    ensures j.name == TrimSpace(slot.name)
    ensures j.Refused? && j.kind == UnknownField <==> TrimSpace(slot.name) !in spec.fields
  {
    var name := TrimSpace(slot.name);
    if name !in spec.fields then Refused(name, UnknownField)
    else
      var field := spec.fields[name];
      match Normalize(ctx.env, field.codec, slot.value)
      case Outage => Failed(name)
      case Ambiguous(names) => Unclear(name, names)
      case Invalid => Refused(name, InvalidValue)
      case Good(v) =>
        if !field.target then Accepted(name, v)
        else
          match Adjudicate(ctx, Slot(name, v))
          case Accept => Accepted(name, v)
          case Outage => Failed(name)
          case Reject => Refused(name, TargetNotExist)
  }

  // ---------- all slots ----------

  /** What each slot contributes, put together. */
  function Gather<T>(slots: seq<Slot>, f: Slot -> multiset<T>): multiset<T> {
    if slots == [] then multiset{} else Gather(slots[..|slots| - 1], f) + f(slots[|slots| - 1])
  }

  function Refusal(ctx: Context, spec: Spec): Slot -> multiset<Problem> {
    (s: Slot) => var j := Judge(ctx, spec, s); if j.Refused? then multiset{Problem(j.name, j.kind)} else multiset{}
  }

  function Failure(ctx: Context, spec: Spec): Slot -> multiset<string> {
    (s: Slot) => var j := Judge(ctx, spec, s); if j.Failed? then multiset{j.name} else multiset{}
  }

  function Ambiguity(ctx: Context, spec: Spec): Slot -> multiset<Conflict> {
    (s: Slot) => var j := Judge(ctx, spec, s); if j.Unclear? then multiset{InCatalog(j.name, j.names)} else multiset{}
  }

  /** The accepted values of a field, in the order proposed. */
  function Values(ctx: Context, spec: Spec, slots: seq<Slot>, name: string): seq<Value> {
    if slots == [] then []
    else
      var j := Judge(ctx, spec, slots[|slots| - 1]);
      Values(ctx, spec, slots[..|slots| - 1], name) + if j.Accepted? && j.name == name then [j.value] else []
  }

  predicate Agree(values: seq<Value>) {
    forall i :: 0 <= i < |values| ==> SameValue(values[0], values[i])
  }

  function AcceptedNames(ctx: Context, spec: Spec, slots: seq<Slot>): set<string> {
    set i | 0 <= i < |slots| && Judge(ctx, spec, slots[i]).Accepted? :: Judge(ctx, spec, slots[i]).name
  }

  function Named(slots: seq<Slot>): set<string> {
    set i | 0 <= i < |slots| :: TrimSpace(slots[i].name)
  }

  function Arguments(ctx: Context, spec: Spec, slots: seq<Slot>): map<string, Value> {
    map n | n in AcceptedNames(ctx, spec, slots) && Values(ctx, spec, slots, n) != []
      && Agree(Values(ctx, spec, slots, n)) ::
      Values(ctx, spec, slots, n)[0]
  }

  function Disagreements(ctx: Context, spec: Spec, slots: seq<Slot>): set<Conflict> {
    set n | n in AcceptedNames(ctx, spec, slots)
      && !Agree(Values(ctx, spec, slots, n)) :: InProposal(n, Values(ctx, spec, slots, n))
  }

  function MissingFields(spec: Spec, slots: seq<Slot>): set<string> {
    set n | n in spec.fields && spec.fields[n].required && n !in Named(slots)
  }

  // ---------- the verdict ----------

  predicate EveryMissingCollectable(missing: set<string>, collectable: seq<string>) {
    forall n :: n in missing ==> n in collectable
  }

  predicate EveryRejectionFormCorrectable(rejected: multiset<Problem>, collectable: seq<string>) {
    forall p :: p in rejected ==> p.kind == InvalidValue && p.slot in collectable
  }

  predicate EveryConflictCollectable(conflicts: multiset<Conflict>, collectable: seq<string>) {
    forall c :: c in conflicts ==> c.slot in collectable
  }

  function Redacted(spec: Spec, arguments: map<string, Value>): map<string, Value> {
    map n | n in arguments ::
      if n in spec.fields && spec.fields[n].codec.SensitiveText? then Text("[REDACTED]") else arguments[n]
  }

  function Conclude(spec: Spec, arguments: map<string, Value>, missing: set<string>, rejected: multiset<Problem>,
                    failures: multiset<string>, conflicts: multiset<Conflict>): Outcome
  {
    var clean := missing == {} && conflicts == multiset{} && rejected == multiset{} && failures == multiset{};
    var broken := clean && spec.validate.Some? && !spec.validate.value(arguments);
    var all := if broken then multiset{Problem("", OperationContract)} else rejected;
    var ready := clean && !broken;
    var intake := !ready && spec.guided && failures == multiset{}
      && (missing != {} || all != multiset{} || conflicts != multiset{})
      && EveryMissingCollectable(missing, spec.collectable) && EveryRejectionFormCorrectable(all, spec.collectable)
      && EveryConflictCollectable(conflicts, spec.collectable);
    Outcome(arguments, missing, all, failures, conflicts, ready, intake,
            if ready then Some(Redacted(spec, arguments)) else None)
  }

  /** What the proposal comes to, said without loops. */
  function Decision(ctx: Context, spec: Spec, slots: seq<Slot>): Outcome {
    Conclude(spec, Arguments(ctx, spec, slots), MissingFields(spec, slots), Gather(slots, Refusal(ctx, spec)),
             Gather(slots, Failure(ctx, spec)),
             Gather(slots, Ambiguity(ctx, spec)) + multiset(Disagreements(ctx, spec, slots)))
  }

  // ---------- the resolver ----------

  method ResolveCandidates(values: seq<Value>) returns (winner: Option<Value>)
    requires values != []
    ensures winner == if Agree(values) then Some(values[0]) else None
  {
    var i := 1;
    while i < |values|
      invariant 1 <= i <= |values|
      invariant forall k :: 0 <= k < i ==> SameValue(values[0], values[k])
    {
      if !SameValue(values[0], values[i]) { return None; }
      i := i + 1;
    }
    return Some(values[0]);
  }

  /** What the loop decides about one slot. */
  method JudgeSlot(ctx: Context, spec: Spec, slot: Slot) returns (j: Judgement)
    ensures j == Judge(ctx, spec, slot)
  {
    var name := TrimSpace(slot.name);
    if name !in spec.fields {
      return Refused(name, UnknownField);
    }
    var field := spec.fields[name];
    match Normalize(ctx.env, field.codec, slot.value) {
      case Outage => return Failed(name);
      case Ambiguous(names) => return Unclear(name, names);
      case Invalid => return Refused(name, InvalidValue);
      case Good(v) =>
        if field.target {
          match Adjudicate(ctx, Slot(name, v)) {
            case Accept =>
            case Outage => return Failed(name);
            case Reject => return Refused(name, TargetNotExist);
          }
        }
        return Accepted(name, v);
    }
  }

  /** Judges the slots in order: problems at once, accepted values grouped by field. */
  method JudgeSlots(ctx: Context, spec: Spec, slots: seq<Slot>)
    returns (grouped: map<string, seq<Value>>, adjudicated: set<string>, rejected: multiset<Problem>,
             failures: multiset<string>, conflicts: multiset<Conflict>)
    ensures grouped.Keys == AcceptedNames(ctx, spec, slots)
    ensures forall n :: n in grouped ==> grouped[n] == Values(ctx, spec, slots, n)
    ensures adjudicated == RefusedNames(ctx, spec, slots)
    ensures rejected == Gather(slots, Refusal(ctx, spec))
    ensures failures == Gather(slots, Failure(ctx, spec))
    ensures conflicts == Gather(slots, Ambiguity(ctx, spec))
  {
    hide Gather, Values, AcceptedNames, RefusedNames, Judge, TrimSpace;
    NoSlots(ctx, spec);
    assert slots[..0] == [];
    grouped, adjudicated, rejected, failures, conflicts := map[], {}, multiset{}, multiset{}, multiset{};
    for i := 0 to |slots|
      invariant grouped.Keys == AcceptedNames(ctx, spec, slots[..i])
      invariant forall n :: n in grouped ==> grouped[n] == Values(ctx, spec, slots[..i], n)
      invariant adjudicated == RefusedNames(ctx, spec, slots[..i])
      invariant rejected == Gather(slots[..i], Refusal(ctx, spec))
      invariant failures == Gather(slots[..i], Failure(ctx, spec))
      invariant conflicts == Gather(slots[..i], Ambiguity(ctx, spec))
    {
      var slot := slots[i];
      NextSlot(ctx, spec, slots, i);
      var j := JudgeSlot(ctx, spec, slot);
      match j {
        case Refused(name, kind) =>
          rejected := rejected + multiset{Problem(name, kind)};
          if kind != UnknownField { adjudicated := adjudicated + {name}; }
        case Failed(name) =>
          failures, adjudicated := failures + multiset{name}, adjudicated + {name};
        case Unclear(name, names) =>
          conflicts, adjudicated := conflicts + multiset{InCatalog(name, names)}, adjudicated + {name};
        case Accepted(name, v) =>
          grouped := grouped[name := (if name in grouped then grouped[name] else []) + [v]];
      }
    }
    assert slots[..|slots|] == slots;
  }

  /** Fields with a slot that was judged and not accepted. */
  function RefusedNames(ctx: Context, spec: Spec, slots: seq<Slot>): set<string> {
    set i | 0 <= i < |slots| && !Judge(ctx, spec, slots[i]).Accepted?
      && Judge(ctx, spec, slots[i]).name in spec.fields ::
      Judge(ctx, spec, slots[i]).name
  }

  lemma NoSlots(ctx: Context, spec: Spec)
    ensures AcceptedNames(ctx, spec, []) == {} == RefusedNames(ctx, spec, [])
    ensures Gather([], Refusal(ctx, spec)) == multiset{}
    ensures Gather([], Failure(ctx, spec)) == multiset{}
    ensures Gather([], Ambiguity(ctx, spec)) == multiset{}
  {
  }

  /** How one more slot changes each of the gathered things. */
  lemma NextSlot(ctx: Context, spec: Spec, slots: seq<Slot>, i: nat)
    requires i < |slots|
    ensures var s, t := slots[..i], slots[..i + 1]; var j := Judge(ctx, spec, slots[i]);
      && AcceptedNames(ctx, spec, t) == AcceptedNames(ctx, spec, s) + (if j.Accepted? then {j.name} else {})
      && RefusedNames(ctx, spec, t)
         == RefusedNames(ctx, spec, s) + (if !j.Accepted? && j.name in spec.fields then {j.name} else {})
      && Gather(t, Refusal(ctx, spec)) == Gather(s, Refusal(ctx, spec)) + Refusal(ctx, spec)(slots[i])
      && Gather(t, Failure(ctx, spec)) == Gather(s, Failure(ctx, spec)) + Failure(ctx, spec)(slots[i])
      && Gather(t, Ambiguity(ctx, spec)) == Gather(s, Ambiguity(ctx, spec)) + Ambiguity(ctx, spec)(slots[i])
      && (forall n :: Values(ctx, spec, t, n)
                      == Values(ctx, spec, s, n) + if j.Accepted? && j.name == n then [j.value] else [])
    ensures forall n :: n !in AcceptedNames(ctx, spec, slots[..i]) ==> Values(ctx, spec, slots[..i], n) == []
  {
    hide Judge;
    var s, t := slots[..i], slots[..i + 1];
    NextNames(ctx, spec, slots, i);
    assert t[..|t| - 1] == s && t[|t| - 1] == slots[i];
    hide AcceptedNames, RefusedNames;
    forall n | n !in AcceptedNames(ctx, spec, s) ensures Values(ctx, spec, s, n) == [] { NotYet(ctx, spec, s, n); }
  }

  lemma NextNames(ctx: Context, spec: Spec, slots: seq<Slot>, i: nat)
    requires i < |slots|
    ensures var s, t := slots[..i], slots[..i + 1]; var j := Judge(ctx, spec, slots[i]);
      && AcceptedNames(ctx, spec, t) == AcceptedNames(ctx, spec, s) + (if j.Accepted? then {j.name} else {})
      && RefusedNames(ctx, spec, t)
         == RefusedNames(ctx, spec, s) + (if !j.Accepted? && j.name in spec.fields then {j.name} else {})
  {
    hide Judge;
    var s, t := slots[..i], slots[..i + 1];
    assert t == s + [slots[i]];
  }

  lemma NotYet(ctx: Context, spec: Spec, slots: seq<Slot>, n: string)
    requires n !in AcceptedNames(ctx, spec, slots)
    ensures Values(ctx, spec, slots, n) == []
  {
    hide Judge;
    NoValue(Values(ctx, spec, slots, n));
    ValuesFacts(ctx, spec, slots, n);
  }

  lemma NoValue(values: seq<Value>)
    ensures values == [] <==> forall v :: v !in values
  {
    assert values != [] ==> values[0] in values;
  }

  /** A value is listed for a field exactly when some slot proposed it for that field and was accepted. */
  lemma {:induction false} ValuesFacts(ctx: Context, spec: Spec, slots: seq<Slot>, name: string)
    ensures forall v :: v in Values(ctx, spec, slots, name) <==>
              (exists i :: 0 <= i < |slots| && Judge(ctx, spec, slots[i]) == Accepted(name, v))
  {
    hide Judge;
    if slots != [] {
      var s, last := slots[..|slots| - 1], slots[|slots| - 1];
      ValuesFacts(ctx, spec, s, name);
      assert forall i :: 0 <= i < |s| ==> s[i] == slots[i];
    }
  }

  /** Fields whose values were grouped: each becomes an argument, or a conflict when its values disagree. The map is
      walked in any order. */
  method SettleGroups(grouped: map<string, seq<Value>>)
    returns (arguments: map<string, Value>, conflicting: set<string>, conflicts: multiset<Conflict>)
    requires forall n :: n in grouped ==> grouped[n] != []
    ensures arguments == map n | n in grouped && Agree(grouped[n]) :: grouped[n][0]
    ensures conflicting == set n | n in grouped && !Agree(grouped[n])
    ensures conflicts == multiset(set n | n in conflicting && n in grouped :: InProposal(n, grouped[n]))
  {
    hide Agree, SameValue;
    arguments, conflicting, conflicts := map[], {}, multiset{};
    ghost var listed: set<Conflict> := {};
    var todo := grouped.Keys;
    while todo != {}
      invariant todo <= grouped.Keys
      invariant arguments == map n | n in grouped && n !in todo && Agree(grouped[n]) :: grouped[n][0]
      invariant conflicting == set n | n in grouped && n !in todo && !Agree(grouped[n])
      invariant listed == set n | n in conflicting && n in grouped :: InProposal(n, grouped[n])
      invariant conflicts == multiset(listed)
    {
      var name :| name in todo;
      var winner := ResolveCandidates(grouped[name]);
      todo := todo - {name};
      if winner.Some? {
        arguments := arguments[name := winner.value];
      } else {
        var c := InProposal(name, grouped[name]);
        assert c !in listed;
        conflicts, conflicting, listed := conflicts + multiset{c}, conflicting + {name}, listed + {c};
      }
    }
  }

  /** Required fields that are neither arguments nor judged. The map is walked in any order. */
  method FindMissing(spec: Spec, arguments: map<string, Value>, adjudicated: set<string>) returns (missing: set<string>)
    ensures missing == set n | n in spec.fields && spec.fields[n].required && n !in arguments && n !in adjudicated
  {
    missing := {};
    var todo := spec.fields.Keys;
    while todo != {}
      invariant todo <= spec.fields.Keys
      invariant missing == set n |
        n in spec.fields && n !in todo && spec.fields[n].required && n !in arguments && n !in adjudicated
    {
      var name :| name in todo;
      todo := todo - {name};
      if spec.fields[name].required && name !in arguments && name !in adjudicated {
        missing := missing + {name};
      }
    }
  }

  /** Each failure is a slot that met an outage, and each rejection of a slot is one with that problem. */
  ghost predicate ListsAreRight(ctx: Context, spec: Spec, slots: seq<Slot>, r: Outcome) {
    && (forall n :: r.failures[n] == |set i | 0 <= i < |slots| && MeetsOutage(ctx, spec, slots[i], n)|)
    && (forall p: Problem :: p.kind != OperationContract && p.kind != UnknownOperation ==>
          r.rejected[p] == |set i | 0 <= i < |slots| && HasProblem(ctx, spec, slots[i], p)|)
  }

  lemma ListsAreExact(ctx: Context, spec: Spec, slots: seq<Slot>, r: Outcome)
    requires r == Decision(ctx, spec, slots)
    ensures ListsAreRight(ctx, spec, slots, r)
  {
    hide Decision, MeetsOutage, HasProblem;
    forall n: string { FailuresAreExact(ctx, spec, slots, n); }
    forall p: Problem { RejectionsAreExact(ctx, spec, slots, p); }
  }

  /** The whole resolution, loops and all, comes to the decision. */
  method Resolve(ctx: Context, known: Option<Spec>, slots: seq<Slot>) returns (r: Outcome)
    ensures known.Some? ==> r == Decision(ctx, known.value, slots)
    ensures known.None? ==>
      r == Outcome(map[], {}, multiset{Problem("", UnknownOperation)}, multiset{}, multiset{}, false, false, None)
    ensures known.Some? ==> ListsAreRight(ctx, known.value, slots, r)
  {
    hide ListsAreRight, Conclude, Agree, Gather, Values, AcceptedNames, RefusedNames;
    hide Arguments, Disagreements, MissingFields;
    if known.None? {
      return Outcome(map[], {}, multiset{Problem("", UnknownOperation)}, multiset{}, multiset{}, false, false, None);
    }
    var spec := known.value;
    var grouped, adjudicated, rejected, failures, conflicts := JudgeSlots(ctx, spec, slots);
    GroupsHoldValues(ctx, spec, slots);
    var arguments, conflicting, more := SettleGroups(grouped);
    adjudicated, conflicts := adjudicated + conflicting, conflicts + more;
    var missing := FindMissing(spec, arguments, adjudicated);
    GroupsAreTheDecision(ctx, spec, slots, grouped, conflicting);
    assert arguments == Arguments(ctx, spec, slots);
    r := Conclude(spec, arguments, missing, rejected, failures, conflicts);
    assert r == Decision(ctx, spec, slots);
    hide Decision;
    ListsAreExact(ctx, spec, slots, r);
  }

  lemma GroupsHoldValues(ctx: Context, spec: Spec, slots: seq<Slot>)
    ensures forall n :: n in AcceptedNames(ctx, spec, slots) <==> Values(ctx, spec, slots, n) != []
  {
    forall n ensures n in AcceptedNames(ctx, spec, slots) <==> Values(ctx, spec, slots, n) != [] {
      ValuesFacts(ctx, spec, slots, n);
      var vs := Values(ctx, spec, slots, n);
      assert |vs| > 0 ==> vs[0] in vs;
      if n in AcceptedNames(ctx, spec, slots) {
        var i :| 0 <= i < |slots| && Judge(ctx, spec, slots[i]).Accepted? && Judge(ctx, spec, slots[i]).name == n;
        assert Judge(ctx, spec, slots[i]) == Accepted(n, Judge(ctx, spec, slots[i]).value);
        assert Judge(ctx, spec, slots[i]).value in vs;
      }
    }
  }

  lemma GroupsAreTheDecision(ctx: Context, spec: Spec, slots: seq<Slot>, grouped: map<string, seq<Value>>,
                             conflicting: set<string>)
    requires grouped.Keys == AcceptedNames(ctx, spec, slots)
    requires forall n :: n in grouped ==> grouped[n] == Values(ctx, spec, slots, n)
    requires conflicting == set n | n in grouped && !Agree(grouped[n])
    ensures (map n | n in grouped && grouped[n] != [] && Agree(grouped[n]) :: grouped[n][0]) ==
      Arguments(ctx, spec, slots)
    ensures (set n | n in conflicting && n in grouped :: InProposal(n, grouped[n])) == Disagreements(ctx, spec, slots)
    ensures MissingFields(spec, slots)
      == set n | n in spec.fields && spec.fields[n].required && n !in Arguments(ctx, spec, slots)
                 && n !in RefusedNames(ctx, spec, slots) + conflicting
  {
    hide Agree, SameValue, Normalize, TrimSpace;
    GroupsHoldValues(ctx, spec, slots);
    forall n | n in spec.fields
      ensures n in Named(slots) <==> n in AcceptedNames(ctx, spec, slots) || n in RefusedNames(ctx, spec, slots)
    {
      if n in Named(slots) {
        var i :| 0 <= i < |slots| && TrimSpace(slots[i].name) == n;
        assert Judge(ctx, spec, slots[i]).name == n;
      }
    }
  }

  // ---------- what the decision means ----------

  /** A required field is missing exactly when no slot names it, however the slots that do were judged. */
  lemma MissingIsUnnamed(ctx: Context, spec: Spec, slots: seq<Slot>, name: string)
    ensures name in Decision(ctx, spec, slots).missing <==>
              (name in spec.fields && spec.fields[name].required
               && forall i :: 0 <= i < |slots| ==> TrimSpace(slots[i].name) != name)
  {
  }

  /** Every slot is accepted, slots for one field agree, and every required field is named. */
  ghost predicate Clean(ctx: Context, spec: Spec, slots: seq<Slot>) {
    && (forall i :: 0 <= i < |slots| ==> Judge(ctx, spec, slots[i]).Accepted?)
    && (forall i, j :: 0 <= i < |slots| && 0 <= j < |slots| && TrimSpace(slots[i].name) == TrimSpace(slots[j].name) ==>
          SameValue(Judge(ctx, spec, slots[i]).value, Judge(ctx, spec, slots[j]).value))
    && (forall n :: n in spec.fields && spec.fields[n].required ==>
          exists i :: 0 <= i < |slots| && TrimSpace(slots[i].name) == n)
  }

  lemma {:induction false} GatherFacts<T>(slots: seq<Slot>, f: Slot -> multiset<T>)
    ensures forall x :: x in Gather(slots, f) <==> exists i :: 0 <= i < |slots| && x in f(slots[i])
  {
    if slots != [] {
      GatherFacts(slots[..|slots| - 1], f);
      assert forall i :: 0 <= i < |slots| - 1 ==> slots[..|slots| - 1][i] == slots[i];
    }
  }

  lemma {:induction false} GatherIsEmpty<T>(slots: seq<Slot>, f: Slot -> multiset<T>)
    ensures Gather(slots, f) == multiset{} <==> forall i :: 0 <= i < |slots| ==> f(slots[i]) == multiset{}
  {
    if slots != [] {
      var s, last := slots[..|slots| - 1], f(slots[|slots| - 1]);
      GatherIsEmpty(s, f);
      assert forall i :: 0 <= i < |s| ==> s[i] == slots[i];
      assert |Gather(s, f) + last| == |Gather(s, f)| + |last|;
    }
  }

  lemma NothingRefused(ctx: Context, spec: Spec, slots: seq<Slot>)
    ensures (forall i :: 0 <= i < |slots| ==> Judge(ctx, spec, slots[i]).Accepted?) <==>
              (Gather(slots, Refusal(ctx, spec)) == multiset{} && Gather(slots, Failure(ctx, spec)) == multiset{}
               && Gather(slots, Ambiguity(ctx, spec)) == multiset{})
  {
    hide Judge, Gather;
    GatherIsEmpty(slots, Refusal(ctx, spec));
    GatherIsEmpty(slots, Failure(ctx, spec));
    GatherIsEmpty(slots, Ambiguity(ctx, spec));
    assert forall i :: 0 <= i < |slots| ==>
      (Judge(ctx, spec, slots[i]).Accepted? <==>
       (Refusal(ctx, spec)(slots[i]) == multiset{} && Failure(ctx, spec)(slots[i]) == multiset{}
        && Ambiguity(ctx, spec)(slots[i]) == multiset{}));
  }

  /** No field has values that disagree, exactly when any two accepted slots for one field hold the same value. */
  lemma NoDisagreement(ctx: Context, spec: Spec, slots: seq<Slot>)
    ensures Disagreements(ctx, spec, slots) == {} <==>
      (forall i, j :: 0 <= i < |slots| && 0 <= j < |slots| && TrimSpace(slots[i].name) == TrimSpace(slots[j].name)
                      && Judge(ctx, spec, slots[i]).Accepted? && Judge(ctx, spec, slots[j]).Accepted? ==>
         SameValue(Judge(ctx, spec, slots[i]).value, Judge(ctx, spec, slots[j]).value))
  {
    hide Normalize, TrimSpace;
    var d := Disagreements(ctx, spec, slots);
    forall i, j | 0 <= i < |slots| && 0 <= j < |slots| && TrimSpace(slots[i].name) == TrimSpace(slots[j].name)
                  && Judge(ctx, spec, slots[i]).Accepted? && Judge(ctx, spec, slots[j]).Accepted?
                  && !SameValue(Judge(ctx, spec, slots[i]).value, Judge(ctx, spec, slots[j]).value)
      ensures d != {}
    {
      var n := TrimSpace(slots[i].name);
      ValuesFacts(ctx, spec, slots, n);
      var vs := Values(ctx, spec, slots, n);
      var a, b := Judge(ctx, spec, slots[i]), Judge(ctx, spec, slots[j]);
      assert a == Accepted(n, a.value) && b == Accepted(n, b.value);
      assert a.value in vs && b.value in vs;
      assert InProposal(n, vs) in d;
    }
    if d != {} {
      var c :| c in d;
      var n := c.slot;
      ValuesFacts(ctx, spec, slots, n);
      var vs := Values(ctx, spec, slots, n);
      var k :| 0 <= k < |vs| && !SameValue(vs[0], vs[k]);
      assert vs[0] in vs && vs[k] in vs;
    }
  }

  /** When every slot is accepted and none disagree, each named field is an argument. */
  lemma AllNamesAreArguments(ctx: Context, spec: Spec, slots: seq<Slot>)
    requires forall i :: 0 <= i < |slots| ==> Judge(ctx, spec, slots[i]).Accepted?
    requires Disagreements(ctx, spec, slots) == {}
    ensures Arguments(ctx, spec, slots).Keys == Named(slots)
  {
    hide Normalize, SameValue, TrimSpace;
    GroupsHoldValues(ctx, spec, slots);
    forall n | n in AcceptedNames(ctx, spec, slots) ensures Agree(Values(ctx, spec, slots, n)) {
      assert !Agree(Values(ctx, spec, slots, n)) ==>
        InProposal(n, Values(ctx, spec, slots, n)) in Disagreements(ctx, spec, slots);
    }
  }

  /** Ready for confirmation exactly when the slots are clean and the operation's own contract passes. */
  lemma ReadyIsExact(ctx: Context, spec: Spec, slots: seq<Slot>)
    ensures Decision(ctx, spec, slots).ready <==>
      (Clean(ctx, spec, slots) && (spec.validate.Some? ==> spec.validate.value(Arguments(ctx, spec, slots))))
    ensures Decision(ctx, spec, slots).ready ==> Decision(ctx, spec, slots).arguments.Keys == Named(slots)
  {
    hide Judge, SameValue, TrimSpace, Gather, Disagreements, Arguments, MissingFields;
    CleanIsClean(ctx, spec, slots);
    EmptySum(Gather(slots, Ambiguity(ctx, spec)), Disagreements(ctx, spec, slots));
    if Decision(ctx, spec, slots).ready { AllNamesAreArguments(ctx, spec, slots); }
  }

  lemma MissingIsEmpty(spec: Spec, slots: seq<Slot>)
    ensures MissingFields(spec, slots) == {} <==>
      (forall n :: n in spec.fields && spec.fields[n].required ==>
        exists i :: 0 <= i < |slots| && TrimSpace(slots[i].name) == n)
  {
    hide TrimSpace;
    forall n | n in spec.fields && spec.fields[n].required
      ensures n in MissingFields(spec, slots) <==> !exists i :: 0 <= i < |slots| && TrimSpace(slots[i].name) == n
    {
    }
  }

  /** Catalog codecs let listed names through only, a target codec only what the adjudicator accepts in that very
      form. */
  ghost predicate Verified(ctx: Context, spec: Spec, name: string, v: Value) {
    && name in spec.fields
    && (spec.fields[name].target ==> Adjudicate(ctx, Slot(name, v)) == Accept)
    && match spec.fields[name].codec
       case MachineType => v.Text? && ctx.env.machineNames.Some? && v.s in ctx.env.machineNames.value
       case Zone => v.Text? && ctx.env.zones.Some? && exists z :: z in ctx.env.zones.value && z.id == v.s
       case Image => v.Text? && ctx.env.images.Some? && exists i :: i in ctx.env.images.value && i.id == v.s && i.usable
       case Enum(members) => v.Text? && v.s in members
       case Integer => v.Num? && (PositiveInteger(v.n) || v.n == Infinite(false))
       case Capacity => v.Num? && (PositiveInteger(v.n) || v.n == Infinite(false))
       case Number => v.Num? && NotNegative(v.n)
       case Boolean => v.Bool?
       case StructuredJson => v.Structured?
       case ResourceRef => v.Text? && 0 < |v.s| <= 128
       case Unsupported => false
       case _ => v.Text? && 0 < |v.s| <= 512
  }

  /** Whatever is proposed, ready or not: every argument of the outcome is verified, so no unlisted machine type, zone
      or image and no unconfirmed target gets as far as a confirmation. */
  lemma ArgumentsAreVerified(ctx: Context, spec: Spec, slots: seq<Slot>, n: string)
    requires n in Decision(ctx, spec, slots).arguments
    ensures Verified(ctx, spec, n, Decision(ctx, spec, slots).arguments[n])
  {
    hide Normalize, Agree, Verified, TrimSpace, Adjudicate;
    var v := Values(ctx, spec, slots, n)[0];
    ValuesFacts(ctx, spec, slots, n);
    assert v in Values(ctx, spec, slots, n);
    var i :| 0 <= i < |slots| && Judge(ctx, spec, slots[i]) == Accepted(n, v);
    AcceptedIsVerified(ctx, spec, slots[i], v);
  }

  /** An integer or capacity argument is a positive integer exactly when the value it comes from was not read as
      +Inf. */
  lemma IntegerArgumentIff(ctx: Context, spec: Spec, slots: seq<Slot>, n: string) returns (i: nat)
    requires n in Decision(ctx, spec, slots).arguments
    requires spec.fields[n].codec.Integer? || spec.fields[n].codec.Capacity?
    ensures i < |slots| && TrimSpace(slots[i].name) == n
    ensures var v := Decision(ctx, spec, slots).arguments[n];
      var read := Parsed(ctx.env, spec.fields[n].codec, slots[i].value);
      && v.Num? && read == Some(v.n)
      && (PositiveInteger(v.n) <==> read != Some(Infinite(false)))
  {
    hide Normalize, TrimSpace, Parsed, Arguments;
    i := ArgumentIsFirstAccepted(ctx, spec, slots, n);
    AcceptedIntegerIff(ctx.env, spec.fields[n].codec, slots[i].value);
  }

  lemma AcceptedIsVerified(ctx: Context, spec: Spec, slot: Slot, v: Value)
    requires Judge(ctx, spec, slot) == Accepted(TrimSpace(slot.name), v)
    ensures Verified(ctx, spec, TrimSpace(slot.name), v)
  {
    var codec := spec.fields[TrimSpace(slot.name)].codec;
    hide TrimSpace, Adjudicate, CanonicalMachineType, CanonicalZone, CanonicalImage, AsNumber, CapacityGB;
    match codec {
      case MachineType => ResolvedMachineIsListed(TrimSpace(slot.value.s), v.s, ctx.env.machineNames);
      case Zone => ResolvedZoneIsListed(TrimSpace(slot.value.s), v.s, ctx.env.zones);
      case Image => ResolvedImageIsListed(TrimSpace(slot.value.s), v.s, ctx.env.images);
      case _ =>
    }
  }

  // ---------- which list a slot lands in ----------

  /** The slot names this field of the operation. */
  predicate Names(spec: Spec, slot: Slot, n: string) {
    TrimSpace(slot.name) == n && n in spec.fields
  }

  function NormalOf(ctx: Context, spec: Spec, slot: Slot, n: string): Normal
    requires n in spec.fields
  {
    Normalize(ctx.env, spec.fields[n].codec, slot.value)
  }

  /** A catalog is unavailable, or the adjudicator cannot say whether the target exists. */
  predicate MeetsOutage(ctx: Context, spec: Spec, slot: Slot, n: string) {
    && Names(spec, slot, n)
    && var v := NormalOf(ctx, spec, slot, n);
       v.Outage? || (v.Good? && spec.fields[n].target && ctx.verifier.Some? && ctx.verifier.value(Slot(n, v.v)).Outage?)
  }

  /** The value is fine, but there is no such target, or nobody to ask. */
  predicate MissesTarget(ctx: Context, spec: Spec, slot: Slot, n: string) {
    && Names(spec, slot, n)
    && var v := NormalOf(ctx, spec, slot, n);
       v.Good? && spec.fields[n].target && (ctx.verifier.None? || ctx.verifier.value(Slot(n, v.v)).Reject?)
  }

  predicate HasBadValue(ctx: Context, spec: Spec, slot: Slot, n: string) {
    Names(spec, slot, n) && NormalOf(ctx, spec, slot, n).Invalid?
  }

  predicate NamesNothing(spec: Spec, slot: Slot, n: string) {
    TrimSpace(slot.name) == n && n !in spec.fields
  }

  predicate IsAmbiguous(ctx: Context, spec: Spec, slot: Slot, n: string, names: seq<string>) {
    Names(spec, slot, n) && NormalOf(ctx, spec, slot, n) == Ambiguous(names)
  }

  lemma {:induction false} CountGathered<T>(slots: seq<Slot>, f: Slot -> multiset<T>, x: T)
    requires forall s :: f(s)[x] <= 1
    ensures Gather(slots, f)[x] == |set i | 0 <= i < |slots| && x in f(slots[i])|
  {
    var here := set i | 0 <= i < |slots| && x in f(slots[i]);
    if slots == [] {
      assert here == {};
    } else {
      var s := slots[..|slots| - 1];
      CountGathered(s, f, x);
      hide Gather;
      CountLast(s, slots, f, x);
    }
  }

  lemma CountLast<T>(s: seq<Slot>, slots: seq<Slot>, f: Slot -> multiset<T>, x: T)
    requires slots != [] && s == slots[..|slots| - 1]
    ensures |set i | 0 <= i < |slots| && x in f(slots[i])|
         == |set i | 0 <= i < |s| && x in f(s[i])| + if x in f(slots[|s|]) then 1 else 0
  {
    var here, before := set i | 0 <= i < |slots| && x in f(slots[i]), set i | 0 <= i < |s| && x in f(s[i]);
    assert forall i :: 0 <= i < |s| ==> s[i] == slots[i];
    if x in f(slots[|s|]) {
      assert here == before + {|s|};
    } else {
      assert here == before;
    }
  }

  lemma CountHere<T>(slots: seq<Slot>, f: Slot -> multiset<T>, x: T, here: set<int>)
    requires forall s :: f(s)[x] <= 1
    requires forall i :: i in here <==> 0 <= i < |slots| && x in f(slots[i])
    ensures Gather(slots, f)[x] == |here|
  {
    CountGathered(slots, f, x);
    assert here == set i | 0 <= i < |slots| && x in f(slots[i]);
  }

  /** Each slot that meets an outage is one dependency failure of its field, and nothing else is. */
  lemma FailuresAreExact(ctx: Context, spec: Spec, slots: seq<Slot>, n: string)
    ensures Decision(ctx, spec, slots).failures[n] == |set i | 0 <= i < |slots| && MeetsOutage(ctx, spec, slots[i], n)|
  {
    forall i | 0 <= i < |slots| ensures n in Failure(ctx, spec)(slots[i]) <==> MeetsOutage(ctx, spec, slots[i], n) {
      MeetsOutageIff(ctx, spec, slots[i], n);
    }
    CountHere(slots, Failure(ctx, spec), n, set i | 0 <= i < |slots| && MeetsOutage(ctx, spec, slots[i], n));
    hide Judge, MeetsOutage, Gather, Arguments, MissingFields, Disagreements;
  }

  lemma MeetsOutageIff(ctx: Context, spec: Spec, slot: Slot, n: string)
    ensures n in Failure(ctx, spec)(slot) <==> MeetsOutage(ctx, spec, slot, n)
  {
    hide Normalize, TrimSpace;
  }

  lemma IsAmbiguousIff(ctx: Context, spec: Spec, slot: Slot, n: string, names: seq<string>)
    ensures InCatalog(n, names) in Ambiguity(ctx, spec)(slot) <==> IsAmbiguous(ctx, spec, slot, n, names)
  {
    hide Normalize, TrimSpace;
  }

  /** The slot has this problem. */
  predicate HasProblem(ctx: Context, spec: Spec, slot: Slot, p: Problem) {
    match p.kind
    case UnknownField => NamesNothing(spec, slot, p.slot)
    case InvalidValue => HasBadValue(ctx, spec, slot, p.slot)
    case TargetNotExist => MissesTarget(ctx, spec, slot, p.slot)
    case _ => false
  }

  /** Each slot with a problem is one rejection of that kind; and the operation's own contract is rejected once, exactly
      when all slots are clean and it fails. */
  lemma RejectionsAreExact(ctx: Context, spec: Spec, slots: seq<Slot>, p: Problem)
    ensures p.kind != OperationContract && p.kind != UnknownOperation ==>
      Decision(ctx, spec, slots).rejected[p] == |set i | 0 <= i < |slots| && HasProblem(ctx, spec, slots[i], p)|
    ensures p.kind == UnknownOperation ==> Decision(ctx, spec, slots).rejected[p] == 0
    ensures p.kind == OperationContract ==>
      Decision(ctx, spec, slots).rejected[p]
      == if p.slot == "" && Clean(ctx, spec, slots) && spec.validate.Some?
            && !spec.validate.value(Arguments(ctx, spec, slots)) then 1 else 0
  {
    ProblemsCounted(ctx, spec, slots, p);
    NothingHere(slots, ctx, spec, p);
    CleanIsClean(ctx, spec, slots);
    hide Judge, Gather, HasProblem, Disagreements, Arguments, Clean, MissingFields, Refusal;
  }

  lemma ProblemsCounted(ctx: Context, spec: Spec, slots: seq<Slot>, p: Problem)
    ensures Gather(slots, Refusal(ctx, spec))[p] == |set i | 0 <= i < |slots| && HasProblem(ctx, spec, slots[i], p)|
  {
    forall i | 0 <= i < |slots| ensures p in Refusal(ctx, spec)(slots[i]) <==> HasProblem(ctx, spec, slots[i], p) {
      HasProblemIff(ctx, spec, slots[i], p);
    }
    CountHere(slots, Refusal(ctx, spec), p, set i | 0 <= i < |slots| && HasProblem(ctx, spec, slots[i], p));
  }

  lemma NothingHere(slots: seq<Slot>, ctx: Context, spec: Spec, p: Problem)
    ensures p.kind == OperationContract || p.kind == UnknownOperation ==>
      (set i | 0 <= i < |slots| && HasProblem(ctx, spec, slots[i], p)) == {}
  {
  }

  lemma HasProblemIff(ctx: Context, spec: Spec, slot: Slot, p: Problem)
    ensures p in Refusal(ctx, spec)(slot) <==> HasProblem(ctx, spec, slot, p)
  {
    hide Normalize, TrimSpace;
  }

  /** Each slot with an ambiguous value is one conflict of its field, with the candidates; and each field whose accepted
      values differ is one, with those values. */
  lemma ConflictsAreExact(ctx: Context, spec: Spec, slots: seq<Slot>, n: string, names: seq<string>, values: seq<Value>)
    ensures Decision(ctx, spec, slots).conflicts[InCatalog(n, names)]
      == |set i | 0 <= i < |slots| && IsAmbiguous(ctx, spec, slots[i], n, names)|
    ensures Decision(ctx, spec, slots).conflicts[InProposal(n, values)]
      == if Disputed(ctx, spec, slots, n) && values == Values(ctx, spec, slots, n) then 1 else 0
  {
    AmbiguitiesCounted(ctx, spec, slots, n, names);
    NoDisputeGathered(ctx, spec, slots, InProposal(n, values));
    DisputedIsListed(ctx, spec, slots, n);
    OneDisagreement(ctx, spec, slots, n, values);
    NoneInCatalog(ctx, spec, slots, InCatalog(n, names));
    hide Judge, Gather, IsAmbiguous, Values, Agree, Disputed, AcceptedNames, Arguments, MissingFields, Ambiguity;
  }

  lemma AmbiguitiesCounted(ctx: Context, spec: Spec, slots: seq<Slot>, n: string, names: seq<string>)
    ensures Gather(slots, Ambiguity(ctx, spec))[InCatalog(n, names)]
         == |set i | 0 <= i < |slots| && IsAmbiguous(ctx, spec, slots[i], n, names)|
  {
    forall i | 0 <= i < |slots|
      ensures InCatalog(n, names) in Ambiguity(ctx, spec)(slots[i]) <==> IsAmbiguous(ctx, spec, slots[i], n, names)
    {
      IsAmbiguousIff(ctx, spec, slots[i], n, names);
    }
    CountHere(slots, Ambiguity(ctx, spec), InCatalog(n, names),
              set i | 0 <= i < |slots| && IsAmbiguous(ctx, spec, slots[i], n, names));
  }

  lemma NoDisputeGathered(ctx: Context, spec: Spec, slots: seq<Slot>, x: Conflict)
    requires x.InProposal?
    ensures Gather(slots, Ambiguity(ctx, spec))[x] == 0
  {
    var f := Ambiguity(ctx, spec);
    CountGathered(slots, f, x);
    hide Judge, Gather;
    assert (set i | 0 <= i < |slots| && x in f(slots[i])) == {};
  }

  lemma OneDisagreement(ctx: Context, spec: Spec, slots: seq<Slot>, n: string, values: seq<Value>)
    ensures InProposal(n, values) in Disagreements(ctx, spec, slots) <==>
      (n in AcceptedNames(ctx, spec, slots) && !Agree(Values(ctx, spec, slots, n))
        && values == Values(ctx, spec, slots, n))
  {
    hide Judge, Values, Agree, AcceptedNames;
  }

  lemma NoneInCatalog(ctx: Context, spec: Spec, slots: seq<Slot>, x: Conflict)
    requires x.InCatalog?
    ensures x !in Disagreements(ctx, spec, slots)
  {
    hide Judge, Values, Agree, AcceptedNames;
  }

  /** The preview is the arguments, with sensitive texts covered and nothing else changed; there is one exactly when the
      proposal is ready. */
  lemma PreviewIsExact(ctx: Context, spec: Spec, slots: seq<Slot>)
    ensures Decision(ctx, spec, slots).preview.Some? <==> Decision(ctx, spec, slots).ready
    ensures Decision(ctx, spec, slots).ready ==>
      var d := Decision(ctx, spec, slots);
      && d.preview.value.Keys == d.arguments.Keys
      && forall n :: n in d.arguments ==>
           d.preview.value[n]
           == if n in spec.fields && spec.fields[n].codec.SensitiveText? then Text("[REDACTED]") else d.arguments[n]
  {
    hide Arguments, Gather, Disagreements, MissingFields;
  }

  /** What a slot contributes to its field's values: an accepted slot has a good value, and is no target or an
      accepted one; the argument is the first such value. */
  lemma ArgumentIsFirstAccepted(ctx: Context, spec: Spec, slots: seq<Slot>, n: string) returns (i: nat)
    requires n in Decision(ctx, spec, slots).arguments
    ensures i < |slots| && Names(spec, slots[i], n)
    ensures NormalOf(ctx, spec, slots[i], n) == Good(Decision(ctx, spec, slots).arguments[n])
    ensures forall j :: 0 <= j < i && Names(spec, slots[j], n) ==>
      MeetsOutage(ctx, spec, slots[j], n) || MissesTarget(ctx, spec, slots[j], n) || HasBadValue(ctx, spec, slots[j], n)
      || NormalOf(ctx, spec, slots[j], n).Ambiguous?
  {
    i := FirstAccepted(ctx, spec, slots, n);
    AcceptedMeansGood(ctx, spec, slots[i], n, Values(ctx, spec, slots, n)[0]);
    hide Judge, Values, Agree, Names, MeetsOutage, MissesTarget, HasBadValue, NormalOf;
    forall j | 0 <= j < i && Names(spec, slots[j], n)
      ensures MeetsOutage(ctx, spec, slots[j], n) || MissesTarget(ctx, spec, slots[j], n)
              || HasBadValue(ctx, spec, slots[j], n) || NormalOf(ctx, spec, slots[j], n).Ambiguous?
    {
      NotAcceptedMeans(ctx, spec, slots[j], n);
    }
  }

  lemma AcceptedMeansGood(ctx: Context, spec: Spec, slot: Slot, n: string, v: Value)
    requires Judge(ctx, spec, slot) == Accepted(n, v)
    ensures Names(spec, slot, n) && NormalOf(ctx, spec, slot, n) == Good(v)
  {
    hide Normalize, TrimSpace;
  }

  lemma NotAcceptedMeans(ctx: Context, spec: Spec, slot: Slot, n: string)
    requires Names(spec, slot, n) && !(Judge(ctx, spec, slot).Accepted? && Judge(ctx, spec, slot).name == n)
    ensures MeetsOutage(ctx, spec, slot, n) || MissesTarget(ctx, spec, slot, n) || HasBadValue(ctx, spec, slot, n)
            || NormalOf(ctx, spec, slot, n).Ambiguous?
  {
    hide Normalize, TrimSpace;
  }

  lemma AcceptedIsListed(ctx: Context, spec: Spec, slots: seq<Slot>, n: string, j: nat)
    requires j < |slots|
    ensures Judge(ctx, spec, slots[j]).Accepted? && Judge(ctx, spec, slots[j]).name == n ==>
      Values(ctx, spec, slots, n) != []
  {
    hide Judge;
    ValuesFacts(ctx, spec, slots, n);
    var judged := Judge(ctx, spec, slots[j]);
    assert judged.Accepted? && judged.name == n ==>
      judged == Accepted(n, judged.value) && judged.value in Values(ctx, spec, slots, n);
  }

  lemma {:induction false} FirstAccepted(ctx: Context, spec: Spec, slots: seq<Slot>, n: string) returns (i: nat)
    requires Values(ctx, spec, slots, n) != []
    ensures i < |slots| && Judge(ctx, spec, slots[i]) == Accepted(n, Values(ctx, spec, slots, n)[0])
    ensures forall j :: 0 <= j < i ==> !(Judge(ctx, spec, slots[j]).Accepted? && Judge(ctx, spec, slots[j]).name == n)
  {
    hide Judge;
    var s := slots[..|slots| - 1];
    assert forall j :: 0 <= j < |s| ==> s[j] == slots[j];
    if Values(ctx, spec, s, n) != [] {
      i := FirstAccepted(ctx, spec, s, n);
    } else {
      i := |slots| - 1;
      forall j | 0 <= j < i ensures !(Judge(ctx, spec, slots[j]).Accepted? && Judge(ctx, spec, slots[j]).name == n) {
        AcceptedIsListed(ctx, spec, s, n, j);
      }
    }
  }

  // ---------- the guided form ----------

  /** Two accepted slots for the field hold different values. */
  ghost predicate Disputed(ctx: Context, spec: Spec, slots: seq<Slot>, n: string) {
    exists i, j :: 0 <= i < |slots| && 0 <= j < |slots| && TrimSpace(slots[i].name) == n == TrimSpace(slots[j].name)
                   && Judge(ctx, spec, slots[i]).Accepted? && Judge(ctx, spec, slots[j]).Accepted?
                   && !SameValue(Judge(ctx, spec, slots[i]).value, Judge(ctx, spec, slots[j]).value)
  }

  lemma DisputedIsListed(ctx: Context, spec: Spec, slots: seq<Slot>, n: string)
    ensures Disputed(ctx, spec, slots, n) <==>
      n in AcceptedNames(ctx, spec, slots) && !Agree(Values(ctx, spec, slots, n))
  {
    hide Judge, SameValue, TrimSpace;
    ValuesFacts(ctx, spec, slots, n);
    var vs := Values(ctx, spec, slots, n);
    if Disputed(ctx, spec, slots, n) {
      var i, j :| 0 <= i < |slots| && 0 <= j < |slots| && TrimSpace(slots[i].name) == n == TrimSpace(slots[j].name)
                  && Judge(ctx, spec, slots[i]).Accepted? && Judge(ctx, spec, slots[j]).Accepted?
                  && !SameValue(Judge(ctx, spec, slots[i]).value, Judge(ctx, spec, slots[j]).value);
      var a, b := Judge(ctx, spec, slots[i]), Judge(ctx, spec, slots[j]);
      assert a == Accepted(n, a.value) && b == Accepted(n, b.value);
      assert a.value in vs && b.value in vs;
      SameIsTransitive();
    }
    if n in AcceptedNames(ctx, spec, slots) && !Agree(vs) {
      var k :| 0 <= k < |vs| && !SameValue(vs[0], vs[k]);
      assert vs[0] in vs && vs[k] in vs;
    }
  }

  lemma SameIsTransitive()
    ensures forall a, b, c :: SameValue(a, b) && SameValue(a, c) ==> SameValue(b, c)
    ensures forall a :: SameValue(a, a)
  {
  }

  /** The form opens exactly when the operation is guided, something is wrong, and every single thing that is wrong is
      one the form can collect again. It never opens on a proposal that is ready. */
  lemma IntakeIsExact(ctx: Context, spec: Spec, slots: seq<Slot>)
    ensures Decision(ctx, spec, slots).intake <==>
      (spec.guided && !Clean(ctx, spec, slots)
       && (forall i :: 0 <= i < |slots| ==> Collectable(spec, Judge(ctx, spec, slots[i])))
       && (forall n :: Disputed(ctx, spec, slots, n) ==> n in spec.collectable)
       && (forall n :: n in MissingFields(spec, slots) ==> n in spec.collectable))
  {
    hide Judge, SameValue, TrimSpace, Gather, Arguments, Values, AcceptedNames, MissingFields, Clean, Disputed;
    ReadyIsExact(ctx, spec, slots);
    CleanIsClean(ctx, spec, slots);
    ProblemsAreCollectable(ctx, spec, slots);
    ConflictsAreCollectable(ctx, spec, slots);
  }

  ghost predicate Collectable(spec: Spec, j: Judgement) {
    match j
    case Accepted(_, _) => true
    case Refused(n, kind) => kind == InvalidValue && n in spec.collectable
    case Failed(_) => false
    case Unclear(n, _) => n in spec.collectable
  }

  lemma CleanIsClean(ctx: Context, spec: Spec, slots: seq<Slot>)
    ensures Clean(ctx, spec, slots) <==>
      (MissingFields(spec, slots) == {} && Gather(slots, Refusal(ctx, spec)) == multiset{}
       && Gather(slots, Failure(ctx, spec)) == multiset{}
       && Gather(slots, Ambiguity(ctx, spec)) + multiset(Disagreements(ctx, spec, slots)) == multiset{})
  {
    hide MissingFields, TrimSpace, Judge, SameValue, Gather, Disagreements;
    NothingRefused(ctx, spec, slots);
    NoDisagreement(ctx, spec, slots);
    MissingIsEmpty(spec, slots);
    EmptySum(Gather(slots, Ambiguity(ctx, spec)), Disagreements(ctx, spec, slots));
  }

  lemma RejectionsAreCollectable(ctx: Context, spec: Spec, slots: seq<Slot>)
    ensures EveryRejectionFormCorrectable(Gather(slots, Refusal(ctx, spec)), spec.collectable) <==>
      (forall i :: 0 <= i < |slots| && Judge(ctx, spec, slots[i]).Refused? ==>
        Collectable(spec, Judge(ctx, spec, slots[i])))
  {
    hide Judge, Gather;
    GatherFacts(slots, Refusal(ctx, spec));
    forall i | 0 <= i < |slots| && Judge(ctx, spec, slots[i]).Refused?
      ensures Problem(Judge(ctx, spec, slots[i]).name, Judge(ctx, spec, slots[i]).kind)
              in Gather(slots, Refusal(ctx, spec))
    {
      var j := Judge(ctx, spec, slots[i]);
      assert Problem(j.name, j.kind) in Refusal(ctx, spec)(slots[i]);
    }
  }

  lemma AmbiguitiesAreCollectable(ctx: Context, spec: Spec, slots: seq<Slot>)
    ensures EveryConflictCollectable(Gather(slots, Ambiguity(ctx, spec)), spec.collectable) <==>
      (forall i :: 0 <= i < |slots| && Judge(ctx, spec, slots[i]).Unclear? ==>
        Collectable(spec, Judge(ctx, spec, slots[i])))
  {
    hide Judge, Gather;
    GatherFacts(slots, Ambiguity(ctx, spec));
    forall i | 0 <= i < |slots| && Judge(ctx, spec, slots[i]).Unclear?
      ensures InCatalog(Judge(ctx, spec, slots[i]).name, Judge(ctx, spec, slots[i]).names)
              in Gather(slots, Ambiguity(ctx, spec))
    {
      var j := Judge(ctx, spec, slots[i]);
      assert InCatalog(j.name, j.names) in Ambiguity(ctx, spec)(slots[i]);
    }
  }

  lemma NothingFailed(ctx: Context, spec: Spec, slots: seq<Slot>)
    ensures Gather(slots, Failure(ctx, spec)) == multiset{} <==>
      forall i :: 0 <= i < |slots| ==> !Judge(ctx, spec, slots[i]).Failed?
  {
    hide Judge, Gather;
    GatherIsEmpty(slots, Failure(ctx, spec));
    assert forall i :: 0 <= i < |slots| ==>
      (Judge(ctx, spec, slots[i]).Failed? <==> Failure(ctx, spec)(slots[i]) != multiset{});
  }

  lemma ProblemsAreCollectable(ctx: Context, spec: Spec, slots: seq<Slot>)
    ensures (Gather(slots, Failure(ctx, spec)) == multiset{}
             && EveryRejectionFormCorrectable(Gather(slots, Refusal(ctx, spec)), spec.collectable)
             && EveryConflictCollectable(Gather(slots, Ambiguity(ctx, spec)), spec.collectable)) <==>
            (forall i :: 0 <= i < |slots| ==> Collectable(spec, Judge(ctx, spec, slots[i])))
  {
    hide Judge, Gather, EveryRejectionFormCorrectable, EveryConflictCollectable;
    NothingFailed(ctx, spec, slots);
    RejectionsAreCollectable(ctx, spec, slots);
    AmbiguitiesAreCollectable(ctx, spec, slots);
  }

  lemma ConflictsAreCollectable(ctx: Context, spec: Spec, slots: seq<Slot>)
    ensures var a, d := Gather(slots, Ambiguity(ctx, spec)), Disagreements(ctx, spec, slots);
      EveryConflictCollectable(a + multiset(d), spec.collectable) <==>
        (EveryConflictCollectable(a, spec.collectable)
         && forall n :: Disputed(ctx, spec, slots, n) ==> n in spec.collectable)
  {
    hide Judge, Gather, SameValue, TrimSpace, Disputed, Values, AcceptedNames, Agree;
    var a, d := Gather(slots, Ambiguity(ctx, spec)), Disagreements(ctx, spec, slots);
    assert forall c :: c in a + multiset(d) <==> c in a || c in d;
    forall n ensures Disputed(ctx, spec, slots, n) <==> InProposal(n, Values(ctx, spec, slots, n)) in d {
      DisputedIsListed(ctx, spec, slots, n);
    }
  }

  // ---------- order ----------

  lemma {:induction false} GatherAnywhere<T>(s: seq<Slot>, x: Slot, t: seq<Slot>, f: Slot -> multiset<T>)
    ensures Gather(s + [x] + t, f) == Gather(s + t, f) + f(x)
  {
    var all := s + [x] + t;
    if t == [] {
      assert all[..|all| - 1] == s && s + t == s;
    } else {
      var r := t[..|t| - 1];
      GatherAnywhere(s, x, r, f);
      assert all[..|all| - 1] == s + [x] + r && (s + t)[..|s + t| - 1] == s + r;
      assert all[|all| - 1] == t[|t| - 1] == (s + t)[|s + t| - 1];
    }
  }

  /** What the slots contribute together does not depend on their order. */
  lemma {:induction false} GatherIgnoresOrder<T>(p: seq<Slot>, q: seq<Slot>, f: Slot -> multiset<T>)
    requires multiset(p) == multiset(q)
    ensures Gather(p, f) == Gather(q, f)
  {
    assert |p| == |multiset(p)| == |multiset(q)| == |q|;
    if p != [] {
      var r, x := p[..|p| - 1], p[|p| - 1];
      var s, t := TakeOut(r, x, p, q);
      GatherIgnoresOrder(r, s + t, f);
      GatherAnywhere(s, x, t, f);
    }
  }

  lemma TakeOut(r: seq<Slot>, x: Slot, p: seq<Slot>, q: seq<Slot>) returns (s: seq<Slot>, t: seq<Slot>)
    requires p == r + [x] && multiset(p) == multiset(q)
    ensures q == s + [x] + t && multiset(r) == multiset(s + t)
  {
    assert x in multiset(p);
    var k :| 0 <= k < |q| && q[k] == x;
    s, t := q[..k], q[k + 1..];
    assert q == s + [x] + t;
    assert multiset(q) == multiset(s) + multiset{x} + multiset(t);
    assert multiset(p) == multiset(r) + multiset{x};
    assert multiset(s + t) == multiset(s) + multiset(t);
    assert multiset(r) == multiset(p) - multiset{x} == multiset(s) + multiset(t);
  }

  function ValueOf(ctx: Context, spec: Spec, name: string): Slot -> multiset<Value> {
    (s: Slot) => var j := Judge(ctx, spec, s); if j.Accepted? && j.name == name then multiset{j.value} else multiset{}
  }

  lemma {:induction false} ValuesAreGathered(ctx: Context, spec: Spec, slots: seq<Slot>, name: string)
    ensures multiset(Values(ctx, spec, slots, name)) == Gather(slots, ValueOf(ctx, spec, name))
  {
    if slots != [] { ValuesAreGathered(ctx, spec, slots[..|slots| - 1], name); }
  }

  lemma ValuesIgnoreOrder(ctx: Context, spec: Spec, p: seq<Slot>, q: seq<Slot>, name: string)
    requires multiset(p) == multiset(q)
    ensures forall v :: v in Values(ctx, spec, p, name) <==> v in Values(ctx, spec, q, name)
    ensures Values(ctx, spec, p, name) == [] <==> Values(ctx, spec, q, name) == []
    ensures Agree(Values(ctx, spec, p, name)) <==> Agree(Values(ctx, spec, q, name))
  {
    hide Judge, Values, Gather;
    ValuesAreGathered(ctx, spec, p, name);
    ValuesAreGathered(ctx, spec, q, name);
    GatherIgnoresOrder(p, q, ValueOf(ctx, spec, name));
    var a, b := Values(ctx, spec, p, name), Values(ctx, spec, q, name);
    SameMembers(a, b);
    AgreeIsPairwise(a);
    AgreeIsPairwise(b);
  }

  lemma SameMembers(a: seq<Value>, b: seq<Value>)
    requires multiset(a) == multiset(b)
    ensures |a| == |b| && forall v :: v in a <==> v in b
  {
    assert |a| == |multiset(a)| == |multiset(b)| == |b|;
    assert forall v :: v in a <==> v in multiset(a);
  }

  lemma AgreeIsPairwise(a: seq<Value>)
    ensures Agree(a) <==> forall v, w :: v in a && w in a ==> SameValue(v, w)
  {
    hide SameValue;
    SameIsTransitive();
    if !Agree(a) {
      var i :| 0 <= i < |a| && !SameValue(a[0], a[i]);
      assert a[0] in a && a[i] in a;
    }
  }

  /** One field is given a NaN and an infinity and nothing else; the comparison of duplicates cannot tell
      those apart. */
  ghost predicate MixesNaNAndInfinity(ctx: Context, spec: Spec, slots: seq<Slot>, n: string) {
    && Num(NaN) in Values(ctx, spec, slots, n) && Num(Infinite(false)) in Values(ctx, spec, slots, n)
    && forall v :: v in Values(ctx, spec, slots, n) ==> v == Num(NaN) || v == Num(Infinite(false))
  }

  /** No codec lets a negative infinity through. */
  lemma NoNegativeInfinity(ctx: Context, spec: Spec, slots: seq<Slot>, n: string)
    ensures Num(Infinite(true)) !in Values(ctx, spec, slots, n)
  {
    hide Normalize, TrimSpace;
    ValuesFacts(ctx, spec, slots, n);
    forall i | 0 <= i < |slots| ensures Judge(ctx, spec, slots[i]) != Accepted(n, Num(Infinite(true))) {
      var name := TrimSpace(slots[i].name);
      if name in spec.fields { NeverNegativeInfinity(ctx.env, spec.fields[name].codec, slots[i].value); }
    }
  }

  lemma NeverNegativeInfinity(env: Env, codec: Codec, v: Value)
    ensures Normalize(env, codec, v) != Good(Num(Infinite(true)))
  {
  }

  /** Agreeing values are one value, unless NaN and infinity are mixed. */
  lemma AgreeMeansEqual(ctx: Context, spec: Spec, slots: seq<Slot>, n: string)
    requires Agree(Values(ctx, spec, slots, n))
    ensures (forall v, w :: v in Values(ctx, spec, slots, n) && w in Values(ctx, spec, slots, n) ==> v == w)
            <==> !MixesNaNAndInfinity(ctx, spec, slots, n)
  {
    hide Values, Agree;
    var vs := Values(ctx, spec, slots, n);
    AgreeIsPairwise(vs);
    NoNegativeInfinity(ctx, spec, slots, n);
    if v, w :| v in vs && w in vs && v != w {
      assert SameValue(v, w) && Marshalled(v) == None;
      forall x | x in vs ensures x == Num(NaN) || x == Num(Infinite(false)) { assert SameValue(v, x); }
    }
  }

  /** Every field's argument is the same in any order, unless that field mixes NaN and infinity. */
  lemma ArgumentIgnoresOrder(ctx: Context, spec: Spec, p: seq<Slot>, q: seq<Slot>, n: string)
    requires multiset(p) == multiset(q) && !MixesNaNAndInfinity(ctx, spec, p, n)
    ensures n in Arguments(ctx, spec, p) <==> n in Arguments(ctx, spec, q)
    ensures n in Arguments(ctx, spec, p) ==> Arguments(ctx, spec, p)[n] == Arguments(ctx, spec, q)[n]
  {
    hide Judge, Values, Agree;
    ValuesIgnoreOrder(ctx, spec, p, q, n);
    GroupsHoldValues(ctx, spec, p);
    GroupsHoldValues(ctx, spec, q);
    if n in Arguments(ctx, spec, p) {
      AgreeMeansEqual(ctx, spec, p, n);
      assert Values(ctx, spec, q, n)[0] in Values(ctx, spec, q, n);
      assert Values(ctx, spec, p, n)[0] in Values(ctx, spec, p, n);
    }
  }

  lemma {:induction false} FirstValue(ctx: Context, spec: Spec, slots: seq<Slot>, n: string, v: Value)
    requires slots != [] && Judge(ctx, spec, slots[0]) == Accepted(n, v)
    ensures Values(ctx, spec, slots, n) != [] && Values(ctx, spec, slots, n)[0] == v
  {
    if |slots| > 1 {
      FirstValue(ctx, spec, slots[..|slots| - 1], n, v);
    } else {
      assert Values(ctx, spec, slots[..0], n) == [];
    }
  }

  /** The same slots in an order that puts the i-th first. */
  lemma MoveToFront(slots: seq<Slot>, i: nat) returns (q: seq<Slot>)
    requires i < |slots|
    ensures multiset(q) == multiset(slots) && q != [] && q[0] == slots[i]
  {
    q := [slots[i]] + (slots[..i] + slots[i + 1..]);
    assert slots == slots[..i] + [slots[i]] + slots[i + 1..];
  }

  /** A field that mixes NaN and infinity takes whichever comes first. */
  lemma MixedArgumentFollowsOrder(ctx: Context, spec: Spec, slots: seq<Slot>, n: string)
    returns (q: seq<Slot>)
    requires MixesNaNAndInfinity(ctx, spec, slots, n)
    ensures multiset(q) == multiset(slots)
    ensures n in Arguments(ctx, spec, q) && n in Arguments(ctx, spec, slots)
    ensures Arguments(ctx, spec, q)[n] != Arguments(ctx, spec, slots)[n]
  {
    hide Judge, Values, Agree;
    ValuesFacts(ctx, spec, slots, n);
    var vs := Values(ctx, spec, slots, n);
    AgreeIsPairwise(vs);
    GroupsHoldValues(ctx, spec, slots);
    var other := if vs[0] == Num(NaN) then Num(Infinite(false)) else Num(NaN);
    assert other in vs && other != vs[0];
    var i :| 0 <= i < |slots| && Judge(ctx, spec, slots[i]) == Accepted(n, other);
    q := MoveToFront(slots, i);
    FirstValue(ctx, spec, q, n, other);
    ValuesIgnoreOrder(ctx, spec, slots, q, n);
    GroupsHoldValues(ctx, spec, q);
  }

  /** The arguments are the same for every order of the same slots, exactly when no field mixes NaN and infinity. */
  lemma ArgumentsIgnoreOrderIff(ctx: Context, spec: Spec, slots: seq<Slot>)
    ensures (forall q :: multiset(q) == multiset(slots) ==> Arguments(ctx, spec, q) == Arguments(ctx, spec, slots)) <==>
            (forall n :: !MixesNaNAndInfinity(ctx, spec, slots, n))
  {
    hide Arguments, MixesNaNAndInfinity;
    if n :| MixesNaNAndInfinity(ctx, spec, slots, n) {
      var q := MixedArgumentFollowsOrder(ctx, spec, slots, n);
    } else {
      forall q | multiset(q) == multiset(slots) ensures Arguments(ctx, spec, q) == Arguments(ctx, spec, slots) {
        forall n
          ensures n in Arguments(ctx, spec, slots) <==> n in Arguments(ctx, spec, q)
          ensures n in Arguments(ctx, spec, slots) ==> Arguments(ctx, spec, slots)[n] == Arguments(ctx, spec, q)[n]
        {
          ArgumentIgnoresOrder(ctx, spec, slots, q, n);
        }
      }
    }
  }

  /** Where that happens: a number field given the texts "NaN" and "Inf", both of which the parser takes. Either order
      is ready for confirmation, with a different argument. */
  lemma NaNOrInfByOrder(env: Env)
    requires env.parse("NaN") == Some(NaN) && env.parse("Inf") == Some(Infinite(false))
    ensures var spec := Spec(map["n" := Field(true, Codec.Number, false)], false, [], None);
      var a := Decision(Context(env, None), spec, [Slot("n", Text("NaN")), Slot("n", Text("Inf"))]);
      var b := Decision(Context(env, None), spec, [Slot("n", Text("Inf")), Slot("n", Text("NaN"))]);
      a.ready && b.ready && a.arguments == map["n" := Num(NaN)] && b.arguments == map["n" := Num(Infinite(false))]
  {
    TwoNumbers(env, "NaN", NaN, "Inf", Infinite(false));
    TwoNumbers(env, "Inf", Infinite(false), "NaN", NaN);
  }

  lemma TwoNumbers(env: Env, first: string, x: SlotCodecs.Number, second: string, y: SlotCodecs.Number)
    requires (first == "NaN" && second == "Inf") || (first == "Inf" && second == "NaN")
    requires env.parse(first) == Some(x) && env.parse(second) == Some(y)
    requires !x.Finite? && !y.Finite? && NotNegative(x) && NotNegative(y)
    ensures var spec := Spec(map["n" := Field(true, Codec.Number, false)], false, [], None);
      var d := Decision(Context(env, None), spec, [Slot("n", Text(first)), Slot("n", Text(second))]);
      d.ready && d.arguments == map["n" := Num(x)]
  {
    var spec := Spec(map["n" := Field(true, Codec.Number, false)], false, [], None);
    var ctx := Context(env, None);
    var one, two := Slot("n", Text(first)), Slot("n", Text(second));
    var slots := [one, two];
    NumberIsAccepted(env, spec, first, x);
    NumberIsAccepted(env, spec, second, y);
    assert TrimSpace("n") == "n";
    hide TrimSpace, Judge, Clean;
    TwoValues(ctx, spec, one, two, Num(x), Num(y));
    ReadyIsExact(ctx, spec, slots);
    assert Clean(ctx, spec, slots) by { TwoAreClean(ctx, spec, one, two, Num(x), Num(y)); }
  }

  lemma NumberIsAccepted(env: Env, spec: Spec, s: string, x: SlotCodecs.Number)
    requires s == "NaN" || s == "Inf"
    requires spec.fields == map["n" := Field(true, Codec.Number, false)] && env.parse(s) == Some(x) && NotNegative(x)
    ensures Judge(Context(env, None), spec, Slot("n", Text(s))) == Accepted("n", Num(x))
  {
    assert TrimSpace("n") == "n" && TrimSpace(s) == s;
  }

  lemma TwoValues(ctx: Context, spec: Spec, one: Slot, two: Slot, v: Value, w: Value)
    requires Judge(ctx, spec, one) == Accepted("n", v) && Judge(ctx, spec, two) == Accepted("n", w) && SameValue(v, w)
    ensures Arguments(ctx, spec, [one, two]) == map["n" := v]
  {
    hide Judge, SameValue;
    SameIsTransitive();
    var slots := [one, two];
    assert slots[..1] == [one] && [one][..0] == [];
    assert Values(ctx, spec, [one], "n") == [v];
    assert Values(ctx, spec, slots, "n") == [v, w];
    assert slots[0] == one && "n" in AcceptedNames(ctx, spec, slots);
    assert AcceptedNames(ctx, spec, slots) == {"n"};
  }

  lemma TwoAreClean(ctx: Context, spec: Spec, one: Slot, two: Slot, v: Value, w: Value)
    requires Judge(ctx, spec, one) == Accepted("n", v) && Judge(ctx, spec, two) == Accepted("n", w) && SameValue(v, w)
    requires spec.fields.Keys == {"n"} && TrimSpace(one.name) == "n" == TrimSpace(two.name)
    ensures Clean(ctx, spec, [one, two])
  {
    hide Judge, SameValue, TrimSpace;
    SameIsTransitive();
    assert SameValue(v, v) && SameValue(w, w) && SameValue(w, v);
    assert [one, two][0] == one;
  }

  lemma SameNames(p: seq<Slot>, q: seq<Slot>)
    requires multiset(p) == multiset(q)
    ensures Named(p) == Named(q)
  {
    hide TrimSpace;
    assert forall s :: s in p <==> s in multiset(p);
    assert forall s :: s in q <==> s in multiset(q);
    assert forall i :: 0 <= i < |p| ==> p[i] in q;
    assert forall i :: 0 <= i < |q| ==> q[i] in p;
  }

  /** Reordering the slots changes no list and neither verdict, as long as no field mixes NaN and infinity; the fields
      in dispute stay the same, only the order in which their values are shown may change. */
  lemma OrderIsIrrelevant(ctx: Context, spec: Spec, p: seq<Slot>, q: seq<Slot>)
    requires multiset(p) == multiset(q)
    ensures Decision(ctx, spec, p).missing == Decision(ctx, spec, q).missing
    ensures Decision(ctx, spec, p).failures == Decision(ctx, spec, q).failures
    ensures Clean(ctx, spec, p) <==> Clean(ctx, spec, q)
    ensures forall n :: Disputed(ctx, spec, p, n) <==> Disputed(ctx, spec, q, n)
    ensures Gather(p, Ambiguity(ctx, spec)) == Gather(q, Ambiguity(ctx, spec))
    ensures (forall n :: !MixesNaNAndInfinity(ctx, spec, p, n)) ==>
      (var a, b := Decision(ctx, spec, p), Decision(ctx, spec, q);
       a.arguments == b.arguments && a.rejected == b.rejected && a.ready == b.ready && a.intake == b.intake
         && a.preview == b.preview)
  {
    hide Judge, TrimSpace, Gather, Arguments, Values, Agree, Disputed, MixesNaNAndInfinity, SameValue;
    SameNames(p, q);
    GatherIgnoresOrder(p, q, Refusal(ctx, spec));
    GatherIgnoresOrder(p, q, Failure(ctx, spec));
    GatherIgnoresOrder(p, q, Ambiguity(ctx, spec));
    forall n ensures Disputed(ctx, spec, p, n) <==> Disputed(ctx, spec, q, n) {
      DisputedIgnoresOrder(ctx, spec, p, q, n);
    }
    CleanIgnoresOrder(ctx, spec, p, q);
    if forall n :: !MixesNaNAndInfinity(ctx, spec, p, n) {
      ArgumentsIgnoreOrderIff(ctx, spec, p);
      VerdictIgnoresOrder(ctx, spec, p, q);
    }
  }

  lemma DisputedIgnoresOrder(ctx: Context, spec: Spec, p: seq<Slot>, q: seq<Slot>, n: string)
    requires multiset(p) == multiset(q)
    ensures Disputed(ctx, spec, p, n) <==> Disputed(ctx, spec, q, n)
  {
    hide Judge, Values, Disputed, Agree, AcceptedNames;
    DisputedIsListed(ctx, spec, p, n);
    DisputedIsListed(ctx, spec, q, n);
    ValuesIgnoreOrder(ctx, spec, p, q, n);
    GroupsHoldValues(ctx, spec, p);
    GroupsHoldValues(ctx, spec, q);
  }

  lemma DisagreementsAreDisputes(ctx: Context, spec: Spec, slots: seq<Slot>)
    ensures Disagreements(ctx, spec, slots) == {} <==> forall n :: !Disputed(ctx, spec, slots, n)
  {
    hide Judge, Values, Disputed, Agree, AcceptedNames;
    forall n
      ensures Disputed(ctx, spec, slots, n) <==>
                InProposal(n, Values(ctx, spec, slots, n)) in Disagreements(ctx, spec, slots)
    {
      DisputedIsListed(ctx, spec, slots, n);
    }
  }

  lemma CleanIgnoresOrder(ctx: Context, spec: Spec, p: seq<Slot>, q: seq<Slot>)
    requires multiset(p) == multiset(q)
    requires forall n :: Disputed(ctx, spec, p, n) <==> Disputed(ctx, spec, q, n)
    ensures Clean(ctx, spec, p) <==> Clean(ctx, spec, q)
    ensures MissingFields(spec, p) == MissingFields(spec, q)
  {
    hide Judge, TrimSpace, Gather, Disagreements, Disputed, Clean;
    SameNames(p, q);
    GatherIgnoresOrder(p, q, Refusal(ctx, spec));
    GatherIgnoresOrder(p, q, Failure(ctx, spec));
    GatherIgnoresOrder(p, q, Ambiguity(ctx, spec));
    CleanIsClean(ctx, spec, p);
    CleanIsClean(ctx, spec, q);
    DisagreementsAreDisputes(ctx, spec, p);
    DisagreementsAreDisputes(ctx, spec, q);
    EmptySum(Gather(p, Ambiguity(ctx, spec)), Disagreements(ctx, spec, p));
    EmptySum(Gather(q, Ambiguity(ctx, spec)), Disagreements(ctx, spec, q));
  }

  lemma EmptySum(a: multiset<Conflict>, d: set<Conflict>)
    ensures a + multiset(d) == multiset{} <==> a == multiset{} && d == {}
  {
    assert |a + multiset(d)| == |a| + |multiset(d)|;
    assert d != {} ==> exists x :: x in d && x in multiset(d);
  }

  lemma VerdictIgnoresOrder(ctx: Context, spec: Spec, p: seq<Slot>, q: seq<Slot>)
    requires multiset(p) == multiset(q) && Arguments(ctx, spec, p) == Arguments(ctx, spec, q)
    requires Clean(ctx, spec, p) <==> Clean(ctx, spec, q)
    requires forall n :: Disputed(ctx, spec, p, n) <==> Disputed(ctx, spec, q, n)
    ensures var a, b := Decision(ctx, spec, p), Decision(ctx, spec, q);
      a.rejected == b.rejected && a.ready == b.ready && a.intake == b.intake && a.preview == b.preview
  {
    hide Judge, TrimSpace, Gather, Disagreements, Disputed, Clean, Arguments;
    CleanIgnoresOrder(ctx, spec, p, q);
    CleanIsClean(ctx, spec, p);
    CleanIsClean(ctx, spec, q);
    GatherIgnoresOrder(p, q, Refusal(ctx, spec));
    ReadyIsExact(ctx, spec, p);
    ReadyIsExact(ctx, spec, q);
    SameNames(p, q);
    GatherIgnoresOrder(p, q, Failure(ctx, spec));
    GatherIgnoresOrder(p, q, Ambiguity(ctx, spec));
    ConflictsAreCollectable(ctx, spec, p);
    ConflictsAreCollectable(ctx, spec, q);
    EmptySum(Gather(p, Ambiguity(ctx, spec)), Disagreements(ctx, spec, p));
    EmptySum(Gather(q, Ambiguity(ctx, spec)), Disagreements(ctx, spec, q));
    DisagreementsAreDisputes(ctx, spec, p);
    DisagreementsAreDisputes(ctx, spec, q);
  }

  // ---------- confirming again ----------

  /** The proposal says the given arguments and nothing else; it may repeat itself. */
  ghost predicate Lists(slots: seq<Slot>, arguments: map<string, Value>) {
    && (forall i :: 0 <= i < |slots| ==> slots[i].name in arguments && slots[i].value == arguments[slots[i].name])
    && (forall n :: n in arguments ==> exists i :: 0 <= i < |slots| && slots[i].name == n)
  }

  /** A machine-type argument that is nothing but blanks, which only a catalog holding such a name can give. */
  ghost predicate BlankMachine(spec: Spec, arguments: map<string, Value>, n: string) {
    n in arguments && n in spec.fields && spec.fields[n].codec.MachineType? && !NonBlank(arguments[n])
  }

  /** Where an argument of a ready result comes from, and what becomes of it when it is proposed again. */
  lemma ArgumentAgain(ctx: Context, spec: Spec, slots: seq<Slot>, n: string)
    requires SnapshotOk(ctx.env) && n in Arguments(ctx, spec, slots)
    ensures n in spec.fields && TrimSpace(n) == n
    ensures var v := Arguments(ctx, spec, slots)[n];
      Judge(ctx, spec, Slot(n, v)) == Accepted(n, v) <==> !BlankMachine(spec, Arguments(ctx, spec, slots), n)
  {
    hide Normalize, Agree;
    var vs := Values(ctx, spec, slots, n);
    var v := vs[0];
    ValuesFacts(ctx, spec, slots, n);
    assert v in vs;
    var i :| 0 <= i < |slots| && Judge(ctx, spec, slots[i]) == Accepted(n, v);
    TrimTwice(slots[i].name);
    NormalizeIsIdempotent(ctx.env, spec.fields[n].codec, slots[i].value);
  }

  lemma ListedSlotsAgree(ctx: Context, spec: Spec, slots: seq<Slot>, again: seq<Slot>)
    requires Lists(again, Arguments(ctx, spec, slots))
    requires forall n :: n in Arguments(ctx, spec, slots) ==> TrimSpace(n) == n
    requires forall n :: n in Arguments(ctx, spec, slots) ==>
      Judge(ctx, spec, Slot(n, Arguments(ctx, spec, slots)[n])) == Accepted(n, Arguments(ctx, spec, slots)[n])
    ensures Arguments(ctx, spec, again) == Arguments(ctx, spec, slots)
    ensures forall i :: 0 <= i < |again| ==> Judge(ctx, spec, again[i]) == Accepted(again[i].name, again[i].value)
    ensures Disagreements(ctx, spec, again) == {} && Named(again) == Arguments(ctx, spec, slots).Keys
  {
    hide Judge, TrimSpace, Values, AcceptedNames, SameValue;
    var a := Arguments(ctx, spec, slots);
    forall i | 0 <= i < |again| ensures Judge(ctx, spec, again[i]) == Accepted(again[i].name, again[i].value) {
      assert again[i] == Slot(again[i].name, a[again[i].name]);
    }
    forall n ensures forall v :: v in Values(ctx, spec, again, n) <==> n in a && v == a[n] {
      ValuesFacts(ctx, spec, again, n);
    }
    GroupsHoldValues(ctx, spec, again);
    SameIsTransitive();
    forall n | n in AcceptedNames(ctx, spec, again)
      ensures n in a && Agree(Values(ctx, spec, again, n)) && Values(ctx, spec, again, n)[0] == a[n]
    {
      var vs := Values(ctx, spec, again, n);
      assert vs[0] in vs;
      forall k | 0 <= k < |vs| ensures vs[k] == a[n] { assert vs[k] in vs; }
      assert SameValue(a[n], a[n]);
    }
    forall n | n in a ensures n in AcceptedNames(ctx, spec, again) {
      assert a[n] in Values(ctx, spec, again, n);
    }
  }

  /** Proposing the arguments of a ready result again is ready again with the same arguments, exactly when none of
      them is a blank machine type. */
  lemma ConfirmationIsAFixedPoint(ctx: Context, spec: Spec, slots: seq<Slot>, again: seq<Slot>)
    requires SnapshotOk(ctx.env) && Decision(ctx, spec, slots).ready
    requires Lists(again, Decision(ctx, spec, slots).arguments)
    ensures (Decision(ctx, spec, again).ready
             && Decision(ctx, spec, again).arguments == Decision(ctx, spec, slots).arguments) <==>
            (forall n :: !BlankMachine(spec, Decision(ctx, spec, slots).arguments, n))
  {
    hide Judge, TrimSpace, Gather, Disagreements, Arguments, Normalize, SameValue, BlankMachine;
    var a := Arguments(ctx, spec, slots);
    forall n | n in a
      ensures TrimSpace(n) == n && (Judge(ctx, spec, Slot(n, a[n])) == Accepted(n, a[n]) <==> !BlankMachine(spec, a, n))
    {
      ArgumentAgain(ctx, spec, slots, n);
    }
    ReadyIsExact(ctx, spec, slots);
    ReadyIsExact(ctx, spec, again);
    if n :| BlankMachine(spec, a, n) {
      BlankIsAnArgument(spec, a, n);
      BlankIsRefused(ctx, spec, a, again, n);
    } else {
      forall n | n in a ensures Judge(ctx, spec, Slot(n, a[n])) == Accepted(n, a[n]) {
        assert !BlankMachine(spec, a, n);
      }
      ListedSlotsAgree(ctx, spec, slots, again);
      CleanAgain(ctx, spec, slots, again);
    }
  }

  lemma BlankIsRefused(ctx: Context, spec: Spec, a: map<string, Value>, again: seq<Slot>, n: string)
    requires Lists(again, a) && BlankMachine(spec, a, n) && TrimSpace(n) == n
    ensures !Clean(ctx, spec, again)
  {
    hide Normalize, TrimSpace;
    var i :| 0 <= i < |again| && again[i].name == n;
    BlankIsInvalid(ctx.env, a[n]);
    assert !Judge(ctx, spec, again[i]).Accepted?;
  }

  lemma BlankIsAnArgument(spec: Spec, a: map<string, Value>, n: string)
    requires BlankMachine(spec, a, n)
    ensures n in a
  {
  }

  lemma BlankIsInvalid(env: Env, v: Value)
    requires !NonBlank(v)
    ensures Normalize(env, MachineType, v) == Invalid
  {
  }

  lemma CleanAgain(ctx: Context, spec: Spec, slots: seq<Slot>, again: seq<Slot>)
    requires Clean(ctx, spec, slots) && Named(again) == Named(slots)
    requires forall i :: 0 <= i < |again| ==> Judge(ctx, spec, again[i]).Accepted?
    requires Disagreements(ctx, spec, again) == {}
    ensures Clean(ctx, spec, again)
  {
    hide Judge, TrimSpace, SameValue, Disagreements;
    NoDisagreement(ctx, spec, again);
    forall n | n in spec.fields && spec.fields[n].required
      ensures exists i :: 0 <= i < |again| && TrimSpace(again[i].name) == n {
      assert n in Named(slots);
      assert n in Named(again);
    }
  }
}
