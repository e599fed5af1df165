/** The atomic text edits: what they leave behind and what they report, under every schedule of faults. */
module AtomicFile {
  import opened RemoteFiles
  import opened Options

  datatype ReplacePlan = ReplacePlan(path: string, before: Digest, data: Bytes, mode: nat, uid: nat, gid: nat,
                                     resolved: string)

  /** changed is box_may_be_changed, None when the reply does not carry it. */
  datatype Result = Applied(recovered: bool) | Error(errorClass: string, changed: Option<bool>)

  /** The nonce names of one run. */
  datatype Names = Names(temporary: string, backup: string)

  // ---------- replace ----------

  datatype Staged = Ready | Stopped(result: Result)

  const FAILED: Result := Error("atomic_replace_failed", Some(false))

  /** The re-check, the backup and the temporary file; the last component is backup_written. */
  function StageReplace(w: World, plan: ReplacePlan, n: Names): (World, Staged, bool) {
    var (w1, read) := ReadRegular(w, plan.path);
    if !read.Content? then (w1, Stopped(FAILED), false)
    else
      var (w2, resolution) := Normalize(w1);
      if !resolution.Resolved? then (w2, Stopped(FAILED), false)
      else if resolution.path != plan.resolved then
        (w2, Stopped(Error("resolved_path_changed_after_approval", None)), false)
      else if Sha(read.data) != plan.before then (w2, Stopped(Error("stale_after_approval", None)), false)
      else if read.node.mode != plan.mode || read.node.uid != plan.uid || read.node.gid != plan.gid then
        (w2, Stopped(Error("metadata_changed_after_approval", None)), false)
      else
        var (w3, backedUp) := WriteNew(w2, n.backup, read.data, plan.mode, Some((plan.uid, plan.gid)));
        if !backedUp then (w3, Stopped(FAILED), false)
        else
          var (w4, written) := WriteNew(w3, n.temporary, plan.data, plan.mode, Some((plan.uid, plan.gid)));
          (w4, if written then Ready else Stopped(FAILED), true)
  }

  /** The rename and what the reply to it, or its loss, leads to: the result, replaced and preserve_backup. */
  function SwapIn(w: World, plan: ReplacePlan, n: Names): (World, Result, bool, bool) {
    var (w1, renamed) := PosixRename(w, n.temporary, plan.path);
    var (w2, read) := VerifyRename(w1, w.quiet, plan.path);
    if renamed then
      if read.Content? && Sha(read.data) == Sha(plan.data) then (w2, Applied(false), true, false)
      else
        var (w3, rolledBack) := PosixRename(w2, n.backup, plan.path);
        (w3, Error("atomic_replace_failed", Some(!rolledBack)), true, false)
    else if !read.Content? then (w2, Error("atomic_replace_outcome_unknown", Some(true)), false, true)
    else
      var metadataOk := read.node.mode == plan.mode && read.node.uid == plan.uid && read.node.gid == plan.gid;
      if Sha(read.data) == Sha(plan.data) && metadataOk then (w2, Applied(true), true, false)
      else if Sha(read.data) == plan.before && metadataOk then (w2, FAILED, false, false)
      else (w2, Error("atomic_replace_outcome_unknown", Some(true)), false, true)
  }

  /** The finally block: without a replacement, drop the temporary and, unless it is evidence, the backup. */
  function CleanUp(w: World, n: Names, replaced: bool, dropBackup: bool): World {
    if replaced then w
    else
      var (w1, _) := Remove(w, n.temporary);
      if dropBackup then Remove(w1, n.backup).0 else w1
  }

  function ApplyReplace(w: World, plan: ReplacePlan, n: Names): (World, Result) {
    var (w1, staged, backupWritten) := StageReplace(w, plan, n);
    match staged
    case Stopped(result) => (CleanUp(w1, n, false, backupWritten), result)
    case Ready =>
      var (w2, result, replaced, preserve) := SwapIn(w1, plan, n);
      (CleanUp(w2, n, replaced, !preserve), result)
  }

  // ---------- what a replacement leaves behind ----------

  function Original(plan: ReplacePlan): Node {
    Regular(plan.before.of, plan.mode, plan.uid, plan.gid)
  }

  function Planned(plan: ReplacePlan): Node {
    Regular(plan.data, plan.mode, plan.uid, plan.gid)
  }

  predicate Holds(files: Files, path: string, node: Node) {
    path in files && files[path] == node
  }

  /** The approved original is at the target or in the backup. */
  predicate Recoverable(files: Files, plan: ReplacePlan, n: Names) {
    Holds(files, plan.path, Original(plan)) || Holds(files, n.backup, Original(plan))
  }

  /** The names are this run's own and differ from each other and from the target. */
  predicate Distinct(w: World, path: string, n: Names) {
    && n.temporary in w.mine && n.backup in w.mine && path !in w.mine && n.temporary != n.backup
  }

  lemma StageFacts(w: World, plan: ReplacePlan, n: Names, v: World, staged: Staged, backupWritten: bool)
    requires (v, staged, backupWritten) == StageReplace(w, plan, n) && Distinct(w, plan.path, n)
    ensures Confined(w, v, {n.temporary, n.backup}) && v.quiet == w.quiet
    ensures staged.Stopped? ==> staged.result.Error? && staged.result.changed != Some(true)
    ensures staged.Ready? ==> backupWritten && Holds(v.files, n.temporary, Planned(plan))
    ensures staged.Ready? ==> Holds(v.files, n.backup, Original(plan))
    ensures staged.Ready? && Protected(w, plan.path) ==> Holds(w.files, plan.path, Original(plan))
  {
    hide Confined, Protected, WriteNew, ReadRegular, Normalize;
    var (w1, read) := ReadRegular(w, plan.path);
    ReadRegularFacts(w, plan.path, w1, read);
    WidenScope(w, w1, {}, {n.temporary, n.backup});
    if !read.Content? { return; }
    var (w2, resolution) := Normalize(w1);
    NormalizeFacts(w1, w2, resolution);
    ConfinedTrans(w, w1, w2, {n.temporary, n.backup}, {});
    assert {n.temporary, n.backup} + {} == {n.temporary, n.backup};
    MineStays(w, w2, {n.temporary, n.backup});
    if !resolution.Resolved? || resolution.path != plan.resolved || Sha(read.data) != plan.before
       || read.node.mode != plan.mode || read.node.uid != plan.uid || read.node.gid != plan.gid { return; }
    var (w3, backedUp) := WriteNew(w2, n.backup, read.data, plan.mode, Some((plan.uid, plan.gid)));
    WriteNewFacts(w2, n.backup, read.data, plan.mode, Some((plan.uid, plan.gid)), w3, backedUp);
    ConfinedTrans(w, w2, w3, {n.temporary, n.backup}, {n.backup});
    assert {n.temporary, n.backup} + {n.backup} == {n.temporary, n.backup};
    MineStays(w2, w3, {n.backup});
    if !backedUp { return; }
    var (w4, written) := WriteNew(w3, n.temporary, plan.data, plan.mode, Some((plan.uid, plan.gid)));
    WriteNewFacts(w3, n.temporary, plan.data, plan.mode, Some((plan.uid, plan.gid)), w4, written);
    ConfinedTrans(w, w3, w4, {n.temporary, n.backup}, {n.temporary});
    assert {n.temporary, n.backup} + {n.temporary} == {n.temporary, n.backup};
    MineIsKept(w3, w4, {n.temporary}, n.backup);
  }

  lemma MineIsKept(w: World, v: World, scope: set<string>, p: string)
    requires Confined(w, v, scope) && p in w.mine && p !in scope
    ensures Untouched(w.files, v.files, p)
  {
    assert Protected(w, p);
  }

  /** Between w and v every state kept the original recoverable. */
  ghost predicate AlwaysRecoverable(w: World, v: World, plan: ReplacePlan, n: Names) {
    forall i :: |w.journal| <= i < |v.journal| ==> Recoverable(v.journal[i].after, plan, n)
  }

  /** From w to v no own change touched the target. */
  ghost predicate TargetLeftAlone(w: World, v: World, path: string) {
    forall i :: |w.journal| <= i < |v.journal| ==> OwnLeaves(v.journal[i], path)
  }

  /** The run's very last change is its own and leaves the original at the target. */
  ghost predicate LastPutsBack(w: World, v: World, plan: ReplacePlan) {
    EndsOwn(w, v) && Holds(v.files, plan.path, Original(plan))
  }

  lemma SwapFacts(w: World, plan: ReplacePlan, n: Names, v: World, result: Result, replaced: bool, preserve: bool)
    requires (v, result, replaced, preserve) == SwapIn(w, plan, n) && Distinct(w, plan.path, n)
    requires Holds(w.files, n.temporary, Planned(plan)) && Holds(w.files, n.backup, Original(plan))
    ensures Extends(w, v) && AlwaysRecoverable(w, v, plan, n)
    ensures Recoverable(v.files, plan, n)
    ensures result.Applied? ==>
              replaced && Holds(v.files, plan.path, Planned(plan)) && Holds(v.files, n.backup, Original(plan))
    ensures result.Error? && result.changed != Some(true) ==> Holds(v.files, plan.path, Original(plan))
    ensures result.Error? && result.changed != Some(true) ==> !preserve && (replaced ==> LastPutsBack(w, v, plan))
    ensures !replaced && preserve ==> Holds(v.files, n.backup, Original(plan))
    ensures !replaced && !preserve ==>
              Holds(v.files, plan.path, Original(plan)) && TargetLeftAlone(w, v, plan.path)
              && (AsTheirs(w, plan.path) ==> AsTheirs(v, plan.path))
  {
    hide Confined, PosixRename, VerifyRename, AlwaysRecoverable, Extends, TargetLeftAlone, EndsOwn, AsTheirs;
    var (w1, renamed) := PosixRename(w, n.temporary, plan.path);
    FirstRename(w, plan, n, w1, renamed);
    var (w2, read) := VerifyRename(w1, w.quiet, plan.path);
    ReadAfterRename(w, plan, n, w1, w2, read);
    if renamed && !(read.Content? && Sha(read.data) == Sha(plan.data)) {
      var (w3, rolledBack) := PosixRename(w2, n.backup, plan.path);
      RollBack(w, plan, n, w2, w3, rolledBack);
    }
  }

  lemma FirstRename(w: World, plan: ReplacePlan, n: Names, v: World, renamed: bool)
    requires (v, renamed) == PosixRename(w, n.temporary, plan.path) && Distinct(w, plan.path, n)
    requires Holds(w.files, n.temporary, Planned(plan)) && Holds(w.files, n.backup, Original(plan))
    ensures v.quiet && Extends(w, v) && AlwaysRecoverable(w, v, plan, n) && Holds(v.files, n.backup, Original(plan))
    ensures Confined(w, v, {n.temporary, plan.path})
    ensures renamed ==> Holds(v.files, plan.path, Planned(plan))
    ensures !renamed ==> Holds(v.files, plan.path, Planned(plan))
                         || (NoOwn(w, v) && (AsTheirs(w, plan.path) ==> AsTheirs(v, plan.path)))
  {
    PosixRenameFacts(w, n.temporary, plan.path, v, renamed);
    ArriveFacts(w);
    assert Protected(w, n.backup);
  }

  lemma ReadAfterRename(w: World, plan: ReplacePlan, n: Names, w1: World, w2: World, read: Read)
    requires (w2, read) == VerifyRename(w1, w.quiet, plan.path) && w1.quiet && Distinct(w, plan.path, n)
    requires Extends(w, w1) && AlwaysRecoverable(w, w1, plan, n) && Confined(w, w1, {n.temporary, plan.path})
    requires Holds(w1.files, n.backup, Original(plan))
    ensures Extends(w, w2) && AlwaysRecoverable(w, w2, plan, n) && w2.quiet == w.quiet && w2.mine == w.mine
    ensures Untouched(w1.files, w2.files, plan.path) && Holds(w2.files, n.backup, Original(plan))
    ensures read.Content? ==> Holds(w2.files, plan.path, read.node) && read.node.Regular? && read.node.data == read.data
    ensures NoOwn(w, w1) ==> TargetLeftAlone(w, w2, plan.path)
    ensures AsTheirs(w1, plan.path) ==> AsTheirs(w2, plan.path)
    ensures w2.theirs == w1.theirs
  {
    var (v, r) := ReadRegular(w1, plan.path);
    ReadRegularFacts(w1, plan.path, v, r);
    QuietReadTheirs(w1, plan.path);
    assert Protected(w1, plan.path) && Protected(w1, n.backup);
    forall i | |w.journal| <= i < |v.journal|
      ensures Recoverable(v.journal[i].after, plan, n)
      ensures NoOwn(w, w1) ==> OwnLeaves(v.journal[i], plan.path)
    {
      if i < |w1.journal| { assert v.journal[i] == w1.journal[i]; }
    }
    assert v.journal[..|w.journal|] == w1.journal[..|w.journal|];
  }

  lemma QuietReadTheirs(w: World, path: string)
    requires w.quiet
    ensures ReadRegular(w, path).0.theirs == w.theirs
  {
  }

  lemma RollBack(w: World, plan: ReplacePlan, n: Names, w2: World, w3: World, rolledBack: bool)
    requires (w3, rolledBack) == PosixRename(w2, n.backup, plan.path) && w2.mine == w.mine
    requires Distinct(w, plan.path, n) && Extends(w, w2) && AlwaysRecoverable(w, w2, plan, n)
    requires Holds(w2.files, n.backup, Original(plan))
    ensures Extends(w, w3) && AlwaysRecoverable(w, w3, plan, n) && Recoverable(w3.files, plan, n)
    ensures rolledBack ==> LastPutsBack(w, w3, plan)
  {
    PosixRenameFacts(w2, n.backup, plan.path, w3, rolledBack);
    forall i | |w.journal| <= i < |w3.journal| ensures Recoverable(w3.journal[i].after, plan, n) {
      if i < |w2.journal| { assert w3.journal[i] == w2.journal[i]; }
      else { RollBackStep(w2, plan, n, w3, i); }
    }
    assert w3.journal[..|w.journal|] == w2.journal[..|w.journal|];
  }

  lemma RollBackStep(w2: World, plan: ReplacePlan, n: Names, w3: World, i: nat)
    requires w3 == PosixRename(w2, n.backup, plan.path).0 && n.backup in w2.mine && n.backup != plan.path
    requires Holds(w2.files, n.backup, Original(plan)) && |w2.journal| <= i < |w3.journal|
    ensures Recoverable(w3.journal[i].after, plan, n)
  {
    var (v, done) := PosixRename(w2, n.backup, plan.path);
    PosixRenameFacts(w2, n.backup, plan.path, v, done);
    if w3.journal[i].own {
      assert Holds(w3.journal[i].after, plan.path, Original(plan));
    } else {
      TheyKeepMine(w2, w3, n.backup, plan.path, i);
    }
  }

  /** What the other writers do on the way to a rename leaves this run's own files alone. */
  lemma TheyKeepMine(w: World, v: World, p: string, target: string, i: nat)
    requires v == PosixRename(w, p, target).0 && p in w.mine && p in w.files && p != target
    requires |w.journal| <= i < |v.journal| && !v.journal[i].own
    ensures Untouched(w.files, v.journal[i].after, p)
  {
    ArriveFacts(w);
    assert Protected(w, p);
    assert v.journal[i] == Arrive(w).journal[i];
    hide Arrive;
  }

  lemma CleanUpFacts(w: World, n: Names, replaced: bool, dropBackup: bool, v: World)
    requires v == CleanUp(w, n, replaced, dropBackup)
    ensures Confined(w, v, {n.temporary, n.backup}) && v.quiet == w.quiet
    ensures replaced ==> v == w
    ensures !dropBackup ==> Confined(w, v, {n.temporary})
  {
    if !replaced {
      hide Confined, Remove;
      var (w1, done) := Remove(w, n.temporary);
      RemoveFacts(w, n.temporary, w1, done);
      WidenScope(w, w1, {n.temporary}, {n.temporary, n.backup});
      if dropBackup {
        var (w2, done') := Remove(w1, n.backup);
        RemoveFacts(w1, n.backup, w2, done');
        ConfinedTrans(w, w1, w2, {n.temporary}, {n.backup});
        assert {n.temporary} + {n.backup} == {n.temporary, n.backup};
      }
    } else {
      StandStill(w, {n.temporary, n.backup});
      StandStill(w, {n.temporary});
    }
  }

  /** A backup that is not dropped stays. */
  lemma CleanUpKeeps(w: World, plan: ReplacePlan, n: Names, replaced: bool, dropBackup: bool, v: World)
    requires v == CleanUp(w, n, replaced, dropBackup) && Distinct(w, plan.path, n)
    requires if replaced then Recoverable(w.files, plan, n) else !dropBackup && Holds(w.files, n.backup, Original(plan))
    ensures AlwaysRecoverable(w, v, plan, n) && Recoverable(v.files, plan, n)
  {
    hide CleanUp;
    CleanUpFacts(w, n, replaced, dropBackup, v);
    assert Protected(w, n.backup);
  }

  /** The journals of three successive stretches, seen from the end. */
  lemma Stretches(w: World, w1: World, w2: World, v: World)
    requires Extends(w, w1) && Extends(w1, w2) && Extends(w2, v)
    ensures Extends(w, v) && |w.journal| <= |w1.journal| <= |w2.journal| <= |v.journal|
    ensures forall i :: 0 <= i < |w1.journal| ==> v.journal[i] == w1.journal[i]
    ensures forall i :: 0 <= i < |w2.journal| ==> v.journal[i] == w2.journal[i]
  {
    assert v.journal[..|w.journal|] == w2.journal[..|w.journal|] == w1.journal[..|w.journal|];
    forall i | 0 <= i < |w2.journal| ensures v.journal[i] == w2.journal[i] {}
    forall i | 0 <= i < |w1.journal| ensures v.journal[i] == w1.journal[i] { assert w2.journal[i] == w1.journal[i]; }
  }

  lemma StandStill(w: World, scope: set<string>)
    ensures Confined(w, w, scope)
  {
  }

  // ---------- the promises of a replacement ----------

  /** Success means the planned file is in place and the original is kept beside it. */
  lemma ReplaceOkIsApplied(w: World, plan: ReplacePlan, n: Names, v: World, result: Result)
    requires (v, result) == ApplyReplace(w, plan, n) && Distinct(w, plan.path, n) && result.Applied?
    ensures Holds(v.files, plan.path, Planned(plan)) && Holds(v.files, n.backup, Original(plan))
  {
    hide StageReplace, SwapIn, CleanUp, Confined;
    var (w1, staged, backupWritten) := StageReplace(w, plan, n);
    StageFacts(w, plan, n, w1, staged, backupWritten);
    MineStays(w, w1, {n.temporary, n.backup});
    var (w2, r, replaced, preserve) := SwapIn(w1, plan, n);
    SwapFacts(w1, plan, n, w2, r, replaced, preserve);
    CleanUpFacts(w2, n, replaced, !preserve, v);
  }

  /** What the re-check looks at: the file, and where its path leads. */
  function SeenAgain(w: World, path: string): (Read, Resolution) {
    var (w1, read) := ReadRegular(w, path);
    (read, Normalize(w1).1)
  }

  /** It is the file that was approved, at the place that was approved. */
  predicate StillApproved(seen: (Read, Resolution), plan: ReplacePlan) {
    && seen.0.Content? && seen.0.node.Regular? && seen.0.data == plan.before.of
    && seen.0.node.mode == plan.mode && seen.0.node.uid == plan.uid && seen.0.node.gid == plan.gid
    && seen.1 == Resolved(plan.resolved)
  }

  /** Anything but the approved file at the approved place is refused: never a success, never reported as changed, and
      the target is left alone; the refusal names the first thing that is not as approved. */
  lemma OnlyTheApprovedIsReplaced(w: World, plan: ReplacePlan, n: Names, v: World, result: Result)
    requires (v, result) == ApplyReplace(w, plan, n) && Distinct(w, plan.path, n)
    ensures result.Applied? || result.changed == Some(true) ==> StillApproved(SeenAgain(w, plan.path), plan)
    ensures !StillApproved(SeenAgain(w, plan.path), plan) ==> TargetLeftAlone(w, v, plan.path)
    ensures var (read, place) := SeenAgain(w, plan.path);
      if !read.Content? || !place.Resolved? then result == FAILED
      else if place.path != plan.resolved then result == Error("resolved_path_changed_after_approval", None)
      else if read.data != plan.before.of then result == Error("stale_after_approval", None)
      else if !StillApproved((read, place), plan) then result == Error("metadata_changed_after_approval", None)
      else true
  {
    hide SwapIn, CleanUp, Confined, Extends, TargetLeftAlone, ReadRegular, Normalize, WriteNew;
    var both := {n.temporary, n.backup};
    var (w1, staged, backupWritten) := StageReplace(w, plan, n);
    StageFacts(w, plan, n, w1, staged, backupWritten);
    ReadRegularFacts(w, plan.path, ReadRegular(w, plan.path).0, ReadRegular(w, plan.path).1);
    if staged.Stopped? {
      CleanUpFacts(w1, n, false, backupWritten, v);
      LeftAlone(w, w1, both, plan.path);
      LeftAlone(w1, v, both, plan.path);
      StandStill(w1, both);
      LeftAlone(w1, w1, both, plan.path);
      JoinLeftAlone(w, w1, w1, v, plan.path);
    }
  }

  /** What was read is the file node, in its bytes, mode and owner. */
  predicate LooksLike(read: Read, node: Node) {
    && read.Content? && node.Regular? && read.data == node.data && read.node.Regular?
    && read.node.mode == node.mode && read.node.uid == node.uid && read.node.gid == node.gid
  }

  /** How a rename whose reply arrived is judged: only the planned bytes at the target make a success, and anything else
      is taken back, with the success of that as what the reply says of the guest. */
  lemma AnsweredReplaceIsExact(w: World, plan: ReplacePlan, n: Names, w1: World, w2: World, seen: Read)
    requires (w1, true) == PosixRename(w, n.temporary, plan.path) && (w2, seen) == VerifyRename(w1, w.quiet, plan.path)
    ensures SwapIn(w, plan, n).2 && !SwapIn(w, plan, n).3
    ensures SwapIn(w, plan, n).1
         == if seen.Content? && seen.data == plan.data then Applied(false)
            else Error("atomic_replace_failed", Some(!PosixRename(w2, n.backup, plan.path).1))
  {
    hide PosixRename, VerifyRename;
  }

  /** How one whose reply was lost is judged, by the look at the target alone: the planned file is a success, the
      original a failure that changed nothing, and of anything else the outcome is unknown, and then the backup stays
      as evidence. */
  lemma UnansweredReplaceIsExact(w: World, plan: ReplacePlan, n: Names, w1: World, w2: World, seen: Read)
    requires (w1, false) == PosixRename(w, n.temporary, plan.path) && (w2, seen) == VerifyRename(w1, w.quiet, plan.path)
    ensures SwapIn(w, plan, n).2 <==> LooksLike(seen, Planned(plan))
    ensures SwapIn(w, plan, n).3 <==> !LooksLike(seen, Planned(plan)) && !LooksLike(seen, Original(plan))
    ensures SwapIn(w, plan, n).1
         == if LooksLike(seen, Planned(plan)) then Applied(true)
            else if LooksLike(seen, Original(plan)) then Error("atomic_replace_failed", Some(false))
            else Error("atomic_replace_outcome_unknown", Some(true))
  {
    ContentIsRegular(w1, w.quiet, plan.path);
    hide PosixRename, VerifyRename;
  }

  lemma ContentIsRegular(w: World, quiet: bool, path: string)
    ensures var seen := VerifyRename(w, quiet, path).1; seen.Content? ==> seen.node.Regular?
  {
    hide Lstat, ReadData;
  }

  /** A reply without box_may_be_changed, or with false: this run left the target alone, or its very last change put the
      original back; and when nobody else writes the target, it is as it was. */
  lemma UnchangedMeansUnchanged(w: World, plan: ReplacePlan, n: Names, v: World, result: Result)
    requires (v, result) == ApplyReplace(w, plan, n) && Distinct(w, plan.path, n)
    requires result.Error? && result.changed != Some(true)
    ensures TargetLeftAlone(w, v, plan.path) || LastPutsBack(w, v, plan)
    ensures Protected(w, plan.path) ==> Untouched(w.files, v.files, plan.path)
  {
    hide StageReplace, SwapIn, CleanUp, Confined, TargetLeftAlone, Extends;
    var both := {n.temporary, n.backup};
    var (w1, staged, backupWritten) := StageReplace(w, plan, n);
    StageFacts(w, plan, n, w1, staged, backupWritten);
    MineStays(w, w1, both);
    LeftAlone(w, w1, both, plan.path);
    if staged.Stopped? {
      CleanUpFacts(w1, n, false, backupWritten, v);
      LeftAlone(w1, v, both, plan.path);
      StandStill(w1, both);
      LeftAlone(w1, w1, both, plan.path);
      JoinLeftAlone(w, w1, w1, v, plan.path);
    } else {
      var (w2, r, replaced, preserve) := SwapIn(w1, plan, n);
      SwapFacts(w1, plan, n, w2, r, replaced, preserve);
      CleanUpFacts(w2, n, replaced, !preserve, v);
      LeftAlone(w2, v, both, plan.path);
      if Protected(w, plan.path) { ProtectedLater(w, w1, w2, plan.path); }
      if replaced {
        LastOfAll(w, w1, v, plan);
      } else {
        JoinLeftAlone(w, w1, w2, v, plan.path);
      }
    }
  }

  lemma ProtectedLater(w: World, w1: World, w2: World, path: string)
    requires Extends(w, w1) && Extends(w1, w2) && Protected(w, path)
    ensures Protected(w2, path)
  {
  }

  lemma LastOfAll(w: World, w1: World, v: World, plan: ReplacePlan)
    requires Extends(w, w1) && LastPutsBack(w1, v, plan)
    ensures LastPutsBack(w, v, plan)
  {
  }

  lemma JoinLeftAlone(w: World, w1: World, w2: World, v: World, path: string)
    requires Extends(w, w1) && Extends(w1, w2) && Extends(w2, v)
    requires TargetLeftAlone(w, w1, path) && TargetLeftAlone(w1, w2, path) && TargetLeftAlone(w2, v, path)
    ensures TargetLeftAlone(w, v, path)
  {
    hide Extends;
    Stretches(w, w1, w2, v);
    forall i | |w.journal| <= i < |v.journal| ensures OwnLeaves(v.journal[i], path) {
      if i < |w1.journal| { assert OwnLeaves(w1.journal[i], path); }
      else if i < |w2.journal| { assert OwnLeaves(w2.journal[i], path); }
    }
  }

  lemma LeftAlone(w: World, v: World, scope: set<string>, path: string)
    requires Confined(w, v, scope) && path !in scope
    ensures TargetLeftAlone(w, v, path) && Extends(w, v)
    ensures Protected(w, path) ==> Untouched(w.files, v.files, path) && Protected(v, path)
    ensures AsTheirs(w, path) ==> AsTheirs(v, path) && KeptIfTheirs(w, v, path)
  {
  }

  /** In every state between w and v the target was as the other writers alone would have left it. */
  ghost predicate KeptIfTheirs(w: World, v: World, path: string) {
    forall i :: |w.journal| <= i < |v.journal| ==> WasTheirs(v.journal[i], path)
  }

  /** In every state of the run in which the other writers alone would have left the original at the target, it is
      there or in the backup. */
  lemma OriginalIsNeverLost(w: World, plan: ReplacePlan, n: Names, v: World, result: Result)
    requires (v, result) == ApplyReplace(w, plan, n) && Distinct(w, plan.path, n) && AsTheirs(w, plan.path)
    ensures forall i :: |w.journal| <= i < |v.journal| && Holds(v.journal[i].theirs, plan.path, Original(plan)) ==>
              Recoverable(v.journal[i].after, plan, n)
    ensures Holds(v.theirs, plan.path, Original(plan)) ==> Recoverable(v.files, plan, n)
  {
    hide StageReplace, SwapIn, CleanUp, Confined, TargetLeftAlone, Extends, LastPutsBack, Protected;
    var both := {n.temporary, n.backup};
    var (w1, staged, backupWritten) := StageReplace(w, plan, n);
    StageFacts(w, plan, n, w1, staged, backupWritten);
    MineStays(w, w1, both);
    LeftAlone(w, w1, both, plan.path);
    if staged.Stopped? {
      CleanUpFacts(w1, n, false, backupWritten, v);
      LeftAlone(w1, v, both, plan.path);
      Stretches(w, w1, w1, v) by { StandStill(w1, both); LeftAlone(w1, w1, both, plan.path); }
    } else {
      var (w2, r, replaced, preserve) := SwapIn(w1, plan, n);
      SwapFacts(w1, plan, n, w2, r, replaced, preserve);
      CleanUpFacts(w2, n, replaced, !preserve, v);
      LeftAlone(w2, v, both, plan.path);
      Stretches(w, w1, w2, v);
      if replaced || preserve {
        MineLater(w1, w2);
        CleanUpKeeps(w2, plan, n, replaced, !preserve, v);
      }
    }
    forall i | |w.journal| <= i < |v.journal| && Holds(v.journal[i].theirs, plan.path, Original(plan))
      ensures Recoverable(v.journal[i].after, plan, n)
    {
      if i < |w1.journal| { assert WasTheirs(w1.journal[i], plan.path); }
    }
  }

  /** When nobody else writes the target, that is every state of the run. */
  lemma UncontestedOriginalIsNeverLost(w: World, plan: ReplacePlan, n: Names, v: World, result: Result)
    requires (v, result) == ApplyReplace(w, plan, n) && Distinct(w, plan.path, n)
    requires Protected(w, plan.path) && Holds(w.files, plan.path, Original(plan))
    ensures AlwaysRecoverable(w, v, plan, n) && Recoverable(v.files, plan, n)
  {
    hide StageReplace, SwapIn, CleanUp, Confined, TargetLeftAlone, Extends, LastPutsBack, Protected;
    var both := {n.temporary, n.backup};
    var (w1, staged, backupWritten) := StageReplace(w, plan, n);
    StageFacts(w, plan, n, w1, staged, backupWritten);
    MineStays(w, w1, both);
    StaysAtTarget(w, w1, both, plan, n);
    if staged.Stopped? {
      CleanUpFacts(w1, n, false, backupWritten, v);
      StaysAtTarget(w1, v, both, plan, n);
      Stretches(w, w1, w1, v) by { StandStill(w1, both); LeftAlone(w1, w1, both, plan.path); }
    } else {
      var (w2, r, replaced, preserve) := SwapIn(w1, plan, n);
      SwapFacts(w1, plan, n, w2, r, replaced, preserve);
      CleanUpFacts(w2, n, replaced, !preserve, v);
      LeftAlone(w2, v, both, plan.path);
      Stretches(w, w1, w2, v);
      if replaced || preserve {
        MineLater(w1, w2);
        CleanUpKeeps(w2, plan, n, replaced, !preserve, v);
      } else {
        ProtectedLater(w, w1, w2, plan.path);
        StaysAtTarget(w2, v, both, plan, n);
      }
    }
  }

  lemma StaysAtTarget(w: World, v: World, scope: set<string>, plan: ReplacePlan, n: Names)
    requires Confined(w, v, scope) && plan.path !in scope && Protected(w, plan.path)
      && Holds(w.files, plan.path, Original(plan))
    ensures AlwaysRecoverable(w, v, plan, n) && Holds(v.files, plan.path, Original(plan))
    ensures Extends(w, v) && Protected(v, plan.path)
  {
  }

  lemma MineLater(w: World, v: World)
    requires Extends(w, v)
    ensures v.mine == w.mine
  {
  }

  /** With other writers about: every own change of the target leaves the original recoverable, and so does the run. */
  lemma OwnChangesAreRecoverable(w: World, plan: ReplacePlan, n: Names, v: World, result: Result)
    requires (v, result) == ApplyReplace(w, plan, n) && Distinct(w, plan.path, n)
    ensures forall i :: |w.journal| <= i < |v.journal| ==>
              OwnLeaves(v.journal[i], plan.path) || Recoverable(v.journal[i].after, plan, n)
    ensures TargetLeftAlone(w, v, plan.path) || Recoverable(v.files, plan, n)
  {
    hide StageReplace, SwapIn, CleanUp, Confined, Extends, LastPutsBack, Protected, AsTheirs, WasTheirs, KeptIfTheirs;
    var both := {n.temporary, n.backup};
    var (w1, staged, backupWritten) := StageReplace(w, plan, n);
    StageFacts(w, plan, n, w1, staged, backupWritten);
    MineStays(w, w1, both);
    LeftAlone(w, w1, both, plan.path);
    if staged.Stopped? {
      CleanUpFacts(w1, n, false, backupWritten, v);
      LeftAlone(w1, v, both, plan.path);
      StandStill(w1, both);
      LeftAlone(w1, w1, both, plan.path);
      JoinLeftAlone(w, w1, w1, v, plan.path);
    } else {
      var (w2, r, replaced, preserve) := SwapIn(w1, plan, n);
      SwapFacts(w1, plan, n, w2, r, replaced, preserve);
      CleanUpFacts(w2, n, replaced, !preserve, v);
      LeftAlone(w2, v, both, plan.path);
      Stretches(w, w1, w2, v);
      if replaced || preserve {
        MineLater(w1, w2);
        CleanUpKeeps(w2, plan, n, replaced, !preserve, v);
      } else {
        JoinLeftAlone(w, w1, w2, v, plan.path);
      }
    }
  }

  /** Without faults and other writers an edit goes through exactly if the target is the approved file, resolves to the
      approved place, and neither version is over the size limit. */
  lemma ReplaceSucceedsUndisturbedIff(w: World, plan: ReplacePlan, n: Names)
    requires Distinct(w, plan.path, n) && w.schedule == [] && n.temporary !in w.files && n.backup !in w.files
    ensures ApplyReplace(w, plan, n).1 == Applied(false) <==>
      (Holds(w.files, plan.path, Original(plan)) && w.home == plan.resolved
       && |plan.before.of| <= MAX_FILE_BYTES && |plan.data| <= MAX_FILE_BYTES)
  {
    var (v, result) := ApplyReplace(w, plan, n);
    hide Confined, ReadRegular, Normalize, Protected, StageReplace, SwapIn, CleanUp, ApplyReplace;
    ReadRegularFacts(w, plan.path, ReadRegular(w, plan.path).0, ReadRegular(w, plan.path).1);
    NormalizeFacts(w, Normalize(w).0, Normalize(w).1);
    OnlyTheApprovedIsReplaced(w, plan, n, v, result);
    assert Protected(w, plan.path) by { NobodyScheduled(w, plan.path); }
    ReadableIsSmall(w, plan.path);
    if StillApproved(SeenAgain(w, plan.path), plan) {
      if |plan.data| <= MAX_FILE_BYTES {
        ReplaceSucceedsUndisturbed(w, plan, n);
      } else {
        TooLargeIsRolledBack(w, plan, n);
      }
    }
  }

  /** Without faults and other writers: a success puts the planned file in place of the approved one and keeps that
      one as the backup; anything else leaves every file as it was, and no private file behind. */
  lemma UndisturbedReplaceIsExact(w: World, plan: ReplacePlan, n: Names)
    requires Distinct(w, plan.path, n) && w.schedule == [] && n.temporary !in w.files && n.backup !in w.files
    ensures var (v, result) := ApplyReplace(w, plan, n);
      v.files == if result.Applied? then w.files[n.backup := Original(plan)][plan.path := Planned(plan)] else w.files
  {
    hide Confined, PosixRename, WriteNew, Normalize, ReadRegular, SwapIn, CleanUp, Extends;
    ReadRegularFacts(w, plan.path, ReadRegular(w, plan.path).0, ReadRegular(w, plan.path).1);
    NormalizeFacts(w, Normalize(w).0, Normalize(w).1);
    var (w1, staged, backupWritten) := StageReplace(w, plan, n);
    StageFacts(w, plan, n, w1, staged, backupWritten);
    NobodyScheduled(w, plan.path);
    if ReadRegular(w, plan.path).1.Content? {
      var owner := Some((plan.uid, plan.gid));
      WriteAlone(w, n.backup, ReadRegular(w, plan.path).1.data, plan.mode, owner);
      var w3 := WriteNew(w, n.backup, ReadRegular(w, plan.path).1.data, plan.mode, owner).0;
      WriteAlone(w3, n.temporary, plan.data, plan.mode, owner);
    }
    if staged.Stopped? {
      assert w1 == w && !backupWritten;
      RemoveAlone(w, n.temporary);
      CleanUpAlone(w, n);
    } else {
      SwapAlone(w, w1, plan, n);
    }
  }

  lemma WriteAlone(w: World, path: string, data: Bytes, mode: nat, owner: Option<(nat, nat)>)
    requires w.schedule == [] && path in w.mine && path !in w.files
    ensures var (v, ok) := WriteNew(w, path, data, mode, owner);
      && ok && v.schedule == [] && v.mine == w.mine && v.quiet == w.quiet && v.user == w.user && v.group == w.group
      && v.files == w.files[path := if owner.Some? then Regular(data, mode, owner.value.0, owner.value.1)
                                    else Regular(data, mode, w.user, w.group)]
  {
    var (w1, _) := OpenNew(w, path);
    assert Arrive(w) == w && w1.schedule == []
      && w1.files == w.files[path := Regular([], w.umaskMode, w.user, w.group)];
    hide OpenNew;
    var (w2, _) := Write(w1, path, data);
    assert w2.schedule == [] && w2.files == w.files[path := Regular(data, w.umaskMode, w.user, w.group)];
    hide Write;
    var (w3, _) := Chmod(w2, path, mode);
    assert w3.schedule == [] && w3.files == w.files[path := Regular(data, mode, w.user, w.group)];
    hide Chmod;
  }

  lemma RemoveAlone(w: World, path: string)
    requires w.schedule == []
    ensures Remove(w, path).0.schedule == [] && Remove(w, path).0.files == w.files - {path}
  {
    assert path !in w.files ==> w.files - {path} == w.files;
  }

  lemma CleanUpAlone(w: World, n: Names)
    requires w.schedule == [] && n.temporary !in w.files
    ensures CleanUp(w, n, false, false).files == w.files
  {
    RemoveAlone(w, n.temporary);
    hide Remove;
    assert w.files - {n.temporary} == w.files;
  }

  lemma SwapAlone(w: World, w1: World, plan: ReplacePlan, n: Names)
    requires Distinct(w, plan.path, n) && n.temporary !in w.files && n.backup !in w.files
    requires w1.schedule == [] && w1.mine == w.mine && Holds(w.files, plan.path, Original(plan))
    requires w1.files == w.files[n.backup := Original(plan)][n.temporary := Planned(plan)]
    ensures var (w2, result, replaced, preserve) := SwapIn(w1, plan, n);
      && replaced && CleanUp(w2, n, replaced, !preserve) == w2
      && w2.files
         == if result.Applied? then w.files[n.backup := Original(plan)][plan.path := Planned(plan)] else w.files
  {
    hide ReadRegular, VerifyRename;
    var (v1, renamed) := PosixRename(w1, n.temporary, plan.path);
    assert renamed && v1.schedule == [] && v1.quiet && v1.mine == w.mine;
    assert v1.files == w.files[n.backup := Original(plan)][plan.path := Planned(plan)];
    var (v2, read) := VerifyRename(v1, w1.quiet, plan.path);
    QuietVerify(v1, w1.quiet, plan.path);
    if !(read.Content? && Sha(read.data) == Sha(plan.data)) {
      var (v3, rolledBack) := PosixRename(v2, n.backup, plan.path);
      assert rolledBack && v3.files == w.files;
    }
  }

  lemma QuietVerify(w: World, quiet: bool, path: string)
    requires w.schedule == []
    ensures VerifyRename(w, quiet, path).0 == w.(quiet := quiet)
  {
    ReadRegularFacts(w, path, ReadRegular(w, path).0, ReadRegular(w, path).1);
  }

  lemma NobodyScheduled(w: World, path: string)
    requires w.schedule == []
    ensures Protected(w, path)
  {
  }

  lemma ReadableIsSmall(w: World, path: string)
    ensures ReadRegular(w, path).1.Content? ==> |ReadRegular(w, path).1.data| <= MAX_FILE_BYTES
  {
  }

  lemma TooLargeIsRolledBack(w: World, plan: ReplacePlan, n: Names)
    requires Distinct(w, plan.path, n) && w.schedule == [] && |plan.data| > MAX_FILE_BYTES
    ensures !ApplyReplace(w, plan, n).1.Applied?
  {
    hide Confined, PosixRename, WriteNew, Normalize, ReadRegular;
    var (w1, staged, backupWritten) := StageReplace(w, plan, n);
    if staged.Ready? {
      StageFacts(w, plan, n, w1, staged, backupWritten);
      ReadableIsSmall(PosixRename(w1, n.temporary, plan.path).0, plan.path);
    }
  }

  /** Without faults and other writers an edit of the approved file goes through. */
  lemma ReplaceSucceedsUndisturbed(w: World, plan: ReplacePlan, n: Names)
    requires Distinct(w, plan.path, n) && w.schedule == []
    requires Holds(w.files, plan.path, Original(plan)) && n.temporary !in w.files && n.backup !in w.files
    requires w.home == plan.resolved && |plan.before.of| <= MAX_FILE_BYTES && |plan.data| <= MAX_FILE_BYTES
    ensures ApplyReplace(w, plan, n).1 == Applied(false)
  {
    hide Confined, PosixRename, ReadRegular, WriteNew, Normalize;
    ReadRegularFacts(w, plan.path, ReadRegular(w, plan.path).0, ReadRegular(w, plan.path).1);
    NormalizeFacts(w, Normalize(w).0, Normalize(w).1);
    var owner := Some((plan.uid, plan.gid));
    var (w3, backedUp) := WriteNew(w, n.backup, plan.before.of, plan.mode, owner);
    WriteNewFacts(w, n.backup, plan.before.of, plan.mode, owner, w3, backedUp);
    MineStays(w, w3, {n.backup});
    AloneStays(w, w3, n.backup, n.temporary);
    AloneStays(w, w3, n.backup, plan.path);
    var (w4, written) := WriteNew(w3, n.temporary, plan.data, plan.mode, owner);
    WriteNewFacts(w3, n.temporary, plan.data, plan.mode, owner, w4, written);
    AloneStays(w3, w4, n.temporary, plan.path);
    MineStays(w3, w4, {n.temporary});
    var (w5, renamed) := PosixRename(w4, n.temporary, plan.path);
    PosixRenameFacts(w4, n.temporary, plan.path, w5, renamed);
    ReadRegularFacts(w5, plan.path, ReadRegular(w5, plan.path).0, ReadRegular(w5, plan.path).1);
  }

  lemma AloneStays(w: World, v: World, scope: string, p: string)
    requires Confined(w, v, {scope}) && p != scope && w.schedule == []
    ensures Untouched(w.files, v.files, p)
  {
    assert Protected(w, p);
  }

  // ---------- where success is not the whole truth ----------

  /** What the other writers alone would have left at the target is there or in the backup. */
  ghost predicate NothingOfTheirsLost(v: World, plan: ReplacePlan, n: Names) {
    plan.path in v.theirs ==>
      (Holds(v.files, plan.path, v.theirs[plan.path]) || Holds(v.files, n.backup, v.theirs[plan.path]))
  }

  /** A success keeps what the rename replaced exactly if that was the approved original, or the planned file
      already. */
  lemma SuccessKeepsTheReplacedIff(w: World, plan: ReplacePlan, n: Names, v: World, result: Result)
    requires (v, result) == ApplyReplace(w, plan, n) && Distinct(w, plan.path, n) && AsTheirs(w, plan.path)
    requires result.Applied?
    ensures var found := AtArrival(StageReplace(w, plan, n).0);
      NothingOfTheirsLost(v, plan, n) <==>
        (plan.path in found ==> found[plan.path] == Original(plan) || found[plan.path] == Planned(plan))
  {
    hide StageReplace, CleanUp, Confined, TargetLeftAlone, Extends, Protected, PosixRename, VerifyRename;
    var both := {n.temporary, n.backup};
    var (w1, staged, backupWritten) := StageReplace(w, plan, n);
    StageFacts(w, plan, n, w1, staged, backupWritten);
    MineStays(w, w1, both);
    LeftAlone(w, w1, both, plan.path);
    var (w2, r, replaced, preserve) := SwapIn(w1, plan, n);
    SwapFacts(w1, plan, n, w2, r, replaced, preserve);
    CleanUpFacts(w2, n, replaced, !preserve, v);
    FoundIsTheirs(w1, plan, n);
  }

  /** After the verification of the rename, what the others left is what the rename found. */
  lemma FoundIsTheirs(w: World, plan: ReplacePlan, n: Names)
    requires Distinct(w, plan.path, n) && AsTheirs(w, plan.path)
    requires Holds(w.files, n.temporary, Planned(plan)) && Holds(w.files, n.backup, Original(plan))
    ensures var w2 := VerifyRename(PosixRename(w, n.temporary, plan.path).0, w.quiet, plan.path).0;
      Untouched(w2.theirs, AtArrival(w), plan.path)
  {
    hide PosixRename, VerifyRename, Confined, Extends, TargetLeftAlone, Protected;
    var (w1, renamed) := PosixRename(w, n.temporary, plan.path);
    FirstRename(w, plan, n, w1, renamed);
    PosixRenameFacts(w, n.temporary, plan.path, w1, renamed);
    ReadAfterRename(w, plan, n, w1, VerifyRename(w1, w.quiet, plan.path).0, VerifyRename(w1, w.quiet, plan.path).1);
    ArriveTheirs(w, plan.path);
  }

  /** The successful run that loses another writer's file written after the re-check: it is at neither place. */
  lemma LostUpdateOnSuccess(w: World, plan: ReplacePlan, n: Names, other: Node)
    requires Approved(w, plan, n) && |plan.data| <= MAX_FILE_BYTES
    requires other.Regular? && other != Original(plan) && other != Planned(plan)
    requires w.schedule == CalmStart(plan) + [Writes(plan.path, other)]
    ensures var (v, result) := ApplyReplace(w, plan, n);
      && result == Applied(false) && Holds(v.theirs, plan.path, other)
      && Holds(v.files, plan.path, Planned(plan)) && Holds(v.files, n.backup, Original(plan))
  {
    hide StageReplace, SwapIn;
    CalmStage(w, plan, n, [Writes(plan.path, other)]);
    FatalSuccess(StageReplace(w, plan, n).0, plan, n, other);
  }

  lemma FatalSuccess(w: World, plan: ReplacePlan, n: Names, other: Node)
    requires Distinct(w, plan.path, n) && !w.quiet && other.Regular? && |plan.data| <= MAX_FILE_BYTES
    requires w.schedule == [Writes(plan.path, other)]
    requires Holds(w.files, n.temporary, Planned(plan)) && Holds(w.files, n.backup, Original(plan))
    ensures var (v, result, replaced, preserve) := SwapIn(w, plan, n);
      && replaced && result == Applied(false) && Holds(v.theirs, plan.path, other)
      && Holds(v.files, plan.path, Planned(plan)) && Holds(v.files, n.backup, Original(plan))
  {
    hide ReadRegular;
    var w1 := PosixRename(w, n.temporary, plan.path).0;
    assert w1.schedule == [] && w1.quiet && PosixRename(w, n.temporary, plan.path).1;
    assert Holds(w1.files, n.backup, Original(plan)) && Holds(w1.theirs, plan.path, other);
    assert Holds(w1.files, plan.path, Planned(plan));
    ReadRegularFacts(w1, plan.path, ReadRegular(w1, plan.path).0, ReadRegular(w1, plan.path).1);
  }

  // ---------- where "unchanged" is not the whole truth ----------

  /** Another writer changes the path just before the next call. */
  predicate Meddles(w: World, path: string) {
    !w.quiet && w.schedule != [] && path in w.schedule[0].foreign && path !in w.mine
  }

  /** When a reply says unchanged, is the target what the other writers alone would have left? Always, if no rename was
      reported done. Otherwise the rollback put the approved original there, and that is what they left exactly if they
      left it: just before the rollback, if one of them wrote then, or else before the rename. Neither the re-check nor
      the verification is atomic with the rename that follows it. */
  lemma UnchangedReportIsExact(w: World, plan: ReplacePlan, n: Names, v: World, result: Result)
    requires (v, result) == ApplyReplace(w, plan, n) && Distinct(w, plan.path, n) && AsTheirs(w, plan.path)
    requires result.Error? && result.changed != Some(true)
    ensures var (w1, staged, _) := StageReplace(w, plan, n);
      var (renamed, ok) := PosixRename(w1, n.temporary, plan.path);
      var w2 := VerifyRename(renamed, w1.quiet, plan.path).0;
      if staged.Stopped? || !ok then AsTheirs(v, plan.path)
      else AsTheirs(v, plan.path) <==>
             Holds(AtArrival(if Meddles(w2, plan.path) then w2 else w1), plan.path, Original(plan))
  {
    hide StageReplace, CleanUp, Confined, TargetLeftAlone, Extends, Protected, PosixRename, VerifyRename;
    var both := {n.temporary, n.backup};
    var (w1, staged, backupWritten) := StageReplace(w, plan, n);
    StageFacts(w, plan, n, w1, staged, backupWritten);
    MineStays(w, w1, both);
    LeftAlone(w, w1, both, plan.path);
    if staged.Stopped? {
      CleanUpFacts(w1, n, false, backupWritten, v);
      LeftAlone(w1, v, both, plan.path);
    } else {
      var (w2, r, replaced, preserve) := SwapIn(w1, plan, n);
      SwapFacts(w1, plan, n, w2, r, replaced, preserve);
      CleanUpFacts(w2, n, replaced, !preserve, v);
      LeftAlone(w2, v, both, plan.path);
      if PosixRename(w1, n.temporary, plan.path).1 { WhatTheyLeft(w1, plan, n, v); }
    }
  }

  /** After a rollback: what the other writers left is what the rollback found if one of them wrote just before it, and
      what the rename found otherwise. */
  lemma WhatTheyLeft(w: World, plan: ReplacePlan, n: Names, v: World)
    requires Distinct(w, plan.path, n) && AsTheirs(w, plan.path)
    requires Holds(w.files, n.temporary, Planned(plan)) && Holds(w.files, n.backup, Original(plan))
    requires PosixRename(w, n.temporary, plan.path).1
    requires SwapIn(w, plan, n).0 == v && SwapIn(w, plan, n).1 == FAILED
    ensures var w2 := VerifyRename(PosixRename(w, n.temporary, plan.path).0, w.quiet, plan.path).0;
      Untouched(v.theirs, AtArrival(if Meddles(w2, plan.path) then w2 else w), plan.path)
    ensures Holds(v.files, plan.path, Original(plan))
  {
    hide PosixRename, VerifyRename, Confined, Extends, TargetLeftAlone, Protected;
    var (w1, renamed) := PosixRename(w, n.temporary, plan.path);
    FirstRename(w, plan, n, w1, renamed);
    PosixRenameFacts(w, n.temporary, plan.path, w1, renamed);
    var (w2, read) := VerifyRename(w1, w.quiet, plan.path);
    ReadAfterRename(w, plan, n, w1, w2, read);
    var (w3, rolledBack) := PosixRename(w2, n.backup, plan.path);
    PosixRenameFacts(w2, n.backup, plan.path, w3, rolledBack);
    ArriveTheirs(w, plan.path);
    ArriveTheirs(w2, plan.path);
  }

  lemma ArriveTheirs(w: World, path: string)
    requires path !in w.mine
    ensures if Meddles(w, path) then AsTheirs(Arrive(w), path) else Untouched(w.theirs, Arrive(w).theirs, path)
    ensures AsTheirs(w, path) ==> AsTheirs(Arrive(w), path)
  {
  }

  function Calm(plan: ReplacePlan): Move {
    Move(map[], Delivered, [], Some(plan.resolved))
  }

  /** The re-check, the backup and the temporary file without faults or other writers: eleven calls. */
  function CalmStart(plan: ReplacePlan): seq<Move> {
    var c := Calm(plan);
    [c, c, c] + [c, c, c, c] + [c, c, c, c]
  }

  ghost predicate Approved(w: World, plan: ReplacePlan, n: Names) {
    && Distinct(w, plan.path, n) && !w.quiet && |plan.before.of| <= MAX_FILE_BYTES
    && Holds(w.files, plan.path, Original(plan)) && n.temporary !in w.files && n.backup !in w.files
  }

  const LOST := Move(map[], LostBefore, [], None)

  function Writes(path: string, other: Node): Move {
    Move(map[path := Some(other)], Delivered, [], None)
  }

  /** The run that loses another writer's file written after the re-check: the rename replaces it, the reply to the
      verification is lost, and the rollback puts the older original back. */
  lemma LostUpdate(w: World, plan: ReplacePlan, n: Names, other: Node)
    requires Approved(w, plan, n) && other.Regular? && other != Original(plan)
    requires w.schedule == CalmStart(plan) + [Writes(plan.path, other), LOST]
    ensures var (v, result) := ApplyReplace(w, plan, n);
      result == FAILED && Holds(v.theirs, plan.path, other) && Holds(v.files, plan.path, Original(plan))
  {
    hide StageReplace, SwapIn;
    CalmStage(w, plan, n, [Writes(plan.path, other), LOST]);
    FatalSwap(StageReplace(w, plan, n).0, plan, n, other);
  }

  /** The run that loses one written after the verification: the rename replaces the original, the reply to the
      verification is lost, another writer replaces the new file, and the rollback replaces that. */
  lemma LostUpdateBeforeRollback(w: World, plan: ReplacePlan, n: Names, other: Node)
    requires Approved(w, plan, n) && other.Regular? && other != Original(plan)
    requires w.schedule == CalmStart(plan) + [Calm(plan), LOST, Writes(plan.path, other)]
    ensures var (v, result) := ApplyReplace(w, plan, n);
      result == FAILED && Holds(v.theirs, plan.path, other) && Holds(v.files, plan.path, Original(plan))
    ensures Holds(AtArrival(StageReplace(w, plan, n).0), plan.path, Original(plan))
  {
    hide StageReplace, SwapIn;
    CalmStage(w, plan, n, [Calm(plan), LOST, Writes(plan.path, other)]);
    FatalRollBack(StageReplace(w, plan, n).0, plan, n, other);
  }

  lemma CalmStage(w: World, plan: ReplacePlan, n: Names, rest: seq<Move>)
    requires Approved(w, plan, n) && w.schedule == CalmStart(plan) + rest
    ensures StageReplace(w, plan, n).1.Ready?
    ensures var v := StageReplace(w, plan, n).0;
      && v.schedule == rest && v.mine == w.mine && !v.quiet && Holds(v.files, plan.path, Original(plan))
      && Holds(v.files, n.temporary, Planned(plan)) && Holds(v.files, n.backup, Original(plan))
  {
    hide WriteNew, ReadRegular, Normalize;
    var c := Calm(plan);
    var s2, s1 := [c, c, c, c] + rest, [c, c, c, c] + ([c, c, c, c] + rest);
    assert w.schedule == [c, c] + ([c] + s1);
    CalmRead(w, plan, [c] + s1);
    var w1 := ReadRegular(w, plan.path).0;
    CalmNormalize(w1, plan, s1);
    var w2 := Normalize(w1).0;
    CalmWriteNew(w2, plan, n.backup, plan.before.of, s2);
    var w3 := WriteNew(w2, n.backup, plan.before.of, plan.mode, Some((plan.uid, plan.gid))).0;
    CalmWriteNew(w3, plan, n.temporary, plan.data, rest);
  }

  lemma CalmNormalize(w: World, plan: ReplacePlan, rest: seq<Move>)
    requires w.schedule == [Calm(plan)] + rest
    ensures var (v, r) := Normalize(w);
      r == Resolved(plan.resolved) && v.files == w.files && v.schedule == rest && v.mine == w.mine && v.quiet == w.quiet
  {
    CalmArrive(w, Calm(plan));
  }

  /** Only the files may differ, and the schedule has moved on. */
  ghost predicate OnlyFiles(w: World, v: World, files: Files, rest: seq<Move>) {
    v.files == files && v.schedule == rest && v.mine == w.mine && v.quiet == w.quiet
  }

  lemma CalmOpen(w: World, plan: ReplacePlan, path: string, rest: seq<Move>)
    requires path !in w.files && w.schedule == [Calm(plan)] + rest
    ensures OpenNew(w, path).1
    ensures OnlyFiles(w, OpenNew(w, path).0, w.files[path := Regular([], w.umaskMode, w.user, w.group)], rest)
  {
    CalmArrive(w, Calm(plan));
  }

  lemma CalmWrite(w: World, plan: ReplacePlan, path: string, data: Bytes, rest: seq<Move>)
    requires path in w.files && w.files[path].Regular? && w.schedule == [Calm(plan)] + rest
    ensures Write(w, path, data).1
      && OnlyFiles(w, Write(w, path, data).0, w.files[path := w.files[path].(data := data)], rest)
  {
    CalmArrive(w, Calm(plan));
  }

  lemma CalmChmod(w: World, plan: ReplacePlan, path: string, mode: nat, rest: seq<Move>)
    requires path in w.files && w.files[path].Regular? && w.schedule == [Calm(plan)] + rest
    ensures Chmod(w, path, mode).1
      && OnlyFiles(w, Chmod(w, path, mode).0, w.files[path := w.files[path].(mode := mode)], rest)
  {
    CalmArrive(w, Calm(plan));
  }

  lemma CalmChown(w: World, plan: ReplacePlan, path: string, uid: nat, gid: nat, rest: seq<Move>)
    requires path in w.files && w.files[path].Regular? && w.schedule == [Calm(plan)] + rest
    ensures Chown(w, path, uid, gid).1
    ensures OnlyFiles(w, Chown(w, path, uid, gid).0, w.files[path := w.files[path].(uid := uid, gid := gid)], rest)
  {
    CalmArrive(w, Calm(plan));
  }

  lemma CalmWriteNew(w: World, plan: ReplacePlan, path: string, data: Bytes, rest: seq<Move>)
    requires path !in w.files && var c := Calm(plan); w.schedule == [c, c, c, c] + rest
    ensures WriteNew(w, path, data, plan.mode, Some((plan.uid, plan.gid))).1
    ensures OnlyFiles(w, WriteNew(w, path, data, plan.mode, Some((plan.uid, plan.gid))).0,
                      w.files[path := Regular(data, plan.mode, plan.uid, plan.gid)], rest)
  {
    hide OpenNew, Write, Chmod, Chown;
    var c := Calm(plan);
    assert [c, c, c, c] + rest == [c] + ([c, c, c] + rest);
    assert [c, c, c] + rest == [c] + ([c, c] + rest);
    assert [c, c] + rest == [c] + ([c] + rest);
    CalmOpen(w, plan, path, [c, c, c] + rest);
    var w1 := OpenNew(w, path).0;
    CalmWrite(w1, plan, path, data, [c, c] + rest);
    var w2 := Write(w1, path, data).0;
    CalmChmod(w2, plan, path, plan.mode, [c] + rest);
    var w3 := Chmod(w2, path, plan.mode).0;
    CalmChown(w3, plan, path, plan.uid, plan.gid, rest);
  }

  lemma FatalSwap(w: World, plan: ReplacePlan, n: Names, other: Node)
    requires Distinct(w, plan.path, n) && !w.quiet && other.Regular?
    requires w.schedule == [Writes(plan.path, other), LOST]
    requires Holds(w.files, n.temporary, Planned(plan)) && Holds(w.files, n.backup, Original(plan))
    ensures var (v, result, replaced, preserve) := SwapIn(w, plan, n);
      replaced && result == FAILED && Holds(v.theirs, plan.path, other) && Holds(v.files, plan.path, Original(plan))
  {
    var w1 := PosixRename(w, n.temporary, plan.path).0;
    assert w1.schedule == [LOST] && w1.quiet;
    assert Holds(w1.files, n.backup, Original(plan)) && Holds(w1.theirs, plan.path, other);
    LostRead(w1, plan.path, []);
  }

  lemma FatalRollBack(w: World, plan: ReplacePlan, n: Names, other: Node)
    requires Distinct(w, plan.path, n) && !w.quiet && other.Regular?
    requires w.schedule == [Calm(plan), LOST, Writes(plan.path, other)] && Holds(w.files, plan.path, Original(plan))
    requires Holds(w.files, n.temporary, Planned(plan)) && Holds(w.files, n.backup, Original(plan))
    ensures var (v, result, replaced, preserve) := SwapIn(w, plan, n);
      replaced && result == FAILED && Holds(v.theirs, plan.path, other) && Holds(v.files, plan.path, Original(plan))
    ensures Holds(AtArrival(w), plan.path, Original(plan))
  {
    CalmArrive(w, Calm(plan));
    var w1 := PosixRename(w, n.temporary, plan.path).0;
    assert w1.schedule == [LOST, Writes(plan.path, other)] && w1.quiet && w1.mine == w.mine;
    assert Holds(w1.files, n.backup, Original(plan));
    LostRead(w1, plan.path, [Writes(plan.path, other)]);
  }

  /** A verification whose reply is lost. */
  lemma LostRead(w: World, path: string, rest: seq<Move>)
    requires w.quiet && w.schedule == [LOST] + rest
    ensures VerifyRename(w, false, path) == (w.(schedule := rest, quiet := false), Lost)
  {
  }

  lemma CalmArrive(w: World, c: Move)
    requires w.schedule != [] && w.schedule[0].foreign == map[]
    ensures Arrive(w).files == w.files && Arrive(w).schedule == w.schedule && Arrive(w).mine == w.mine
    ensures Arrive(w).quiet == w.quiet
  {
  }

  lemma CalmRead(w: World, plan: ReplacePlan, rest: seq<Move>)
    requires Holds(w.files, plan.path, Original(plan)) && |plan.before.of| <= MAX_FILE_BYTES
    requires var c := Calm(plan); w.schedule == [c, c] + rest
    ensures var (v, r) := ReadRegular(w, plan.path);
      r == Content(Original(plan), plan.before.of) && v.files == w.files && v.schedule == rest && v.mine == w.mine
      && v.quiet == w.quiet
  {
  }

  // ---------- create ----------

  datatype CreatePlan = CreatePlan(path: string, directory: string, data: Bytes, mode: nat, resolved: string,
                                   parentMode: nat, parentUid: nat, parentGid: nat)

  const CREATE_FAILED := "atomic_create_failed"

  datatype Presence = Absent | Present(reason: string) | Unknown

  function TargetAbsent(w: World, path: string): (World, Presence) {
    var (w1, stat) := Lstat(w, path);
    (w1, match stat
         case Missing => Absent
         case Broken => Unknown
         case Attrs(node) => Present(if node.Symlink? then "symlink_refused" else "target_already_exists"))
  }

  /** The re-check and the temporary file. */
  function StageCreate(w: World, plan: CreatePlan, temporary: string): (World, Staged) {
    var (w1, presence) := TargetAbsent(w, plan.path);
    if presence.Unknown? then (w1, Stopped(Error(CREATE_FAILED, Some(false))))
    else if presence.Present? then (w1, Stopped(Error(presence.reason + "_after_approval", None)))
    else
      var (w2, parent) := Lstat(w1, plan.directory);
      if !parent.Attrs? then (w2, Stopped(Error(CREATE_FAILED, Some(false))))
      else if parent.node.Symlink? then (w2, Stopped(Error("parent_symlink_refused", Some(false))))
      else if !parent.node.Directory? then (w2, Stopped(Error("parent_not_directory", Some(false))))
      else if parent.node != Directory(plan.parentMode, plan.parentUid, plan.parentGid) then
        (w2, Stopped(Error("parent_changed_after_approval", None)))
      else
        var (w3, resolution) := Normalize(w2);
        if resolution.Unresolved? then (w3, Stopped(Error(CREATE_FAILED, Some(false))))
        else if resolution.Refused? then (w3, Stopped(Error("resolved_path_not_allowed", Some(false))))
        else if resolution.path != plan.resolved then
          (w3, Stopped(Error("resolved_path_changed_after_approval", None)))
        else
          var (w4, written) := WriteNew(w3, temporary, plan.data, plan.mode, None);
          (w4, if written then Ready else Stopped(Error(CREATE_FAILED, Some(false))))
  }

  predicate AsApproved(read: Read, plan: CreatePlan) {
    read.Content? && Sha(read.data) == Sha(plan.data) && read.node.Regular? && read.node.mode == plan.mode
  }

  /** The no-overwrite rename and what its reply, or the loss of it, leads to; the last component is created. */
  function Publish(w: World, plan: CreatePlan, temporary: string): (World, Result, bool) {
    var (w1, renamed) := Rename(w, temporary, plan.path);
    if renamed then
      var (w2, read) := VerifyRename(w1, w.quiet, plan.path);
      (w2,
       if AsApproved(read, plan) then Applied(false)
       else if read.Content? then Error("postcondition_failed", Some(true))
       else Error(if read.Unfit? then read.reason else CREATE_FAILED, Some(true)),
       true)
    else
      var (w2, presence) := TargetAbsent(w1, plan.path);
      var resumed := w2.(quiet := w.quiet);
      if presence.Absent? then (resumed, Error(CREATE_FAILED, Some(false)), false)
      else if presence.Unknown? then (resumed, Error("atomic_create_outcome_unknown", Some(true)), false)
      else
        var (w3, read) := VerifyRename(w2, w.quiet, plan.path);
        if AsApproved(read, plan) then (w3, Applied(true), true)
        else if read.Unfit? then (w3, Error("target_created_after_approval", Some(false)), false)
        else (w3, Error("atomic_create_outcome_unknown", Some(true)), false)
  }

  function ApplyCreate(w: World, plan: CreatePlan, temporary: string): (World, Result) {
    var (w1, staged) := StageCreate(w, plan, temporary);
    match staged
    case Stopped(result) => (Remove(w1, temporary).0, result)
    case Ready =>
      var (w2, result, created) := Publish(w1, plan, temporary);
      (if created then w2 else Remove(w2, temporary).0, result)
  }

  // ---------- the promises of a creation ----------

  lemma TargetAbsentFacts(w: World, path: string, v: World, presence: Presence)
    requires (v, presence) == TargetAbsent(w, path)
    ensures Confined(w, v, {}) && v.quiet == w.quiet
    ensures Protected(w, path) && presence.Absent? ==> path !in w.files
    ensures Protected(w, path) && presence.Present? ==> path in w.files
    ensures w.schedule == [] ==> v == w && (presence.Absent? <==> path !in w.files) && !presence.Unknown?
  {
    LstatFacts(w, path, Lstat(w, path).0, Lstat(w, path).1);
  }

  lemma StageCreateFacts(w: World, plan: CreatePlan, temporary: string, v: World, staged: Staged)
    requires (v, staged) == StageCreate(w, plan, temporary) && temporary in w.mine
    ensures Confined(w, v, {temporary}) && v.quiet == w.quiet
    ensures staged.Stopped? ==> staged.result.Error? && staged.result.changed != Some(true)
    ensures staged.Ready? ==> temporary in v.files && v.files[temporary].Regular?
    ensures staged.Ready? ==> v.files[temporary].data == plan.data && v.files[temporary].mode == plan.mode
  {
    hide Confined, Protected, WriteNew, TargetAbsent, Lstat, Normalize;
    var (w1, presence) := TargetAbsent(w, plan.path);
    TargetAbsentFacts(w, plan.path, w1, presence);
    WidenScope(w, w1, {}, {temporary});
    if !presence.Absent? { return; }
    var (w2, parent) := Lstat(w1, plan.directory);
    LstatFacts(w1, plan.directory, w2, parent);
    ConfinedTrans(w, w1, w2, {temporary}, {});
    assert {temporary} + {} == {temporary};
    MineStays(w, w2, {temporary});
    if parent != Attrs(Directory(plan.parentMode, plan.parentUid, plan.parentGid)) { return; }
    var (w3, resolution) := Normalize(w2);
    NormalizeFacts(w2, w3, resolution);
    ConfinedTrans(w, w2, w3, {temporary}, {});
    MineStays(w, w3, {temporary});
    if resolution != Resolved(plan.resolved) { return; }
    var (w4, written) := WriteNew(w3, temporary, plan.data, plan.mode, None);
    WriteNewFacts(w3, temporary, plan.data, plan.mode, None, w4, written);
    ConfinedTrans(w, w3, w4, {temporary}, {temporary});
    assert {temporary} + {temporary} == {temporary};
  }

  /** An own change that takes nothing away and replaces nothing, except this run's temporary. */
  ghost predicate NothingOverwritten(w: World, v: World, temporary: string) {
    forall i, p :: |w.journal| <= i < |v.journal| && p in v.journal[i].before && p != temporary ==>
      OwnLeaves(v.journal[i], p)
  }

  lemma PublishFacts(w: World, plan: CreatePlan, temporary: string, v: World, result: Result, created: bool)
    requires (v, result, created) == Publish(w, plan, temporary)
    requires temporary in w.mine && plan.path != temporary && |plan.data| <= MAX_FILE_BYTES
    requires temporary in w.files && w.files[temporary].Regular?
    requires w.files[temporary].data == plan.data && w.files[temporary].mode == plan.mode
    ensures Extends(w, v) && NothingOverwritten(w, v, temporary)
    ensures result.Applied? ==> created && plan.path in v.files && v.files[plan.path].Regular?
    ensures result.Applied? ==> v.files[plan.path].data == plan.data && v.files[plan.path].mode == plan.mode
    ensures result.Error? && result.changed != Some(true) ==> TargetLeftAlone(w, v, plan.path)
    ensures created ==> plan.path in v.files
  {
    hide Rename, ReadRegular, TargetAbsent, NothingOverwritten, TargetLeftAlone, Confined, Extends;
    var (w1, renamed) := Rename(w, temporary, plan.path);
    RenamePublishes(w, temporary, plan.path, w1, renamed);
    if renamed {
      var (w2, read) := ReadRegular(w1, plan.path);
      ReadRegularFacts(w1, plan.path, w2, read);
      QuietRead(w, w1, w2, plan.path, temporary);
    } else {
      var (w2, presence) := TargetAbsent(w1, plan.path);
      TargetAbsentFacts(w1, plan.path, w2, presence);
      QuietRead(w, w1, w2, plan.path, temporary);
      if presence.Present? {
        var (w3, read) := ReadRegular(w2, plan.path);
        ReadRegularFacts(w2, plan.path, w3, read);
        QuietRead(w, w2, w3, plan.path, temporary);
      }
    }
  }

  /** After the rename the new file is at the target, or this run has changed nothing. */
  lemma RenamePublishes(w: World, temporary: string, path: string, w1: World, renamed: bool)
    requires (w1, renamed) == Rename(w, temporary, path) && temporary in w.mine && temporary in w.files
      && path != temporary
    ensures w1.quiet && Protected(w1, path) && Extends(w, w1) && NothingOverwritten(w, w1, temporary)
    ensures renamed ==> Holds(w1.files, path, w.files[temporary])
    ensures TargetLeftAlone(w, w1, path) || Holds(w1.files, path, w.files[temporary])
  {
    RenameFacts(w, temporary, path, w1, renamed);
  }

  /** Reading after the rename adds no own change. */
  lemma QuietRead(w: World, w1: World, w2: World, path: string, temporary: string)
    requires Extends(w, w1) && Confined(w1, w2, {}) && w1.quiet && NothingOverwritten(w, w1, temporary)
    ensures Extends(w, w2) && NothingOverwritten(w, w2, temporary) && Untouched(w1.files, w2.files, path)
    ensures Extends(w, w2.(quiet := w.quiet)) && NothingOverwritten(w, w2.(quiet := w.quiet), temporary)
    ensures Protected(w2, path)
    ensures TargetLeftAlone(w, w1, path) ==>
      TargetLeftAlone(w, w2, path) && TargetLeftAlone(w, w2.(quiet := w.quiet), path)
  {
    assert Protected(w1, path);
    assert w2.journal[..|w.journal|] == w1.journal[..|w.journal|];
    forall i, p | |w.journal| <= i < |w2.journal| && p in w2.journal[i].before && p != temporary
      ensures OwnLeaves(w2.journal[i], p)
    {
      if i < |w1.journal| { assert w2.journal[i] == w1.journal[i]; }
    }
    if TargetLeftAlone(w, w1, path) {
      forall i | |w.journal| <= i < |w2.journal| ensures OwnLeaves(w2.journal[i], path)
      {
        if i < |w1.journal| { assert w2.journal[i] == w1.journal[i]; }
      }
    }
  }

  lemma ConfinedOverwritesNothing(w: World, v: World, temporary: string, path: string)
    requires Confined(w, v, {temporary}) && path != temporary
    ensures NothingOverwritten(w, v, temporary) && TargetLeftAlone(w, v, path)
  {
  }

  lemma JoinCreate(w: World, a: World, v: World, temporary: string, path: string)
    requires Extends(w, a) && Extends(a, v)
    requires NothingOverwritten(w, a, temporary) && NothingOverwritten(a, v, temporary)
    ensures Extends(w, v) && NothingOverwritten(w, v, temporary)
    ensures TargetLeftAlone(w, a, path) && TargetLeftAlone(a, v, path) ==> TargetLeftAlone(w, v, path)
  {
    assert v.journal[..|w.journal|] == a.journal[..|w.journal|];
    forall i | |w.journal| <= i < |a.journal| ensures v.journal[i] == a.journal[i] {}
  }

  /** Under every schedule: a creation never overwrites a path that exists, success means the approved bytes and mode
      are at the target, and any reply but box_may_be_changed = true means this run did not create the target. */
  lemma CreateIsSafe(w: World, plan: CreatePlan, temporary: string, v: World, result: Result)
    requires (v, result) == ApplyCreate(w, plan, temporary)
    requires temporary in w.mine && plan.path != temporary && |plan.data| <= MAX_FILE_BYTES
    ensures NothingOverwritten(w, v, temporary)
    ensures result.Applied? ==> plan.path in v.files && v.files[plan.path].Regular?
    ensures result.Applied? ==> v.files[plan.path].data == plan.data && v.files[plan.path].mode == plan.mode
    ensures result.Error? && result.changed != Some(true) ==> TargetLeftAlone(w, v, plan.path)
  {
    hide StageCreate, Publish, Remove, Confined, NothingOverwritten, TargetLeftAlone, Rename;
    var (w1, staged) := StageCreate(w, plan, temporary);
    StageCreateFacts(w, plan, temporary, w1, staged);
    ConfinedOverwritesNothing(w, w1, temporary, plan.path);
    MineStays(w, w1, {temporary});
    ConfinedExtends(w, w1, {temporary});
    if staged.Stopped? {
      RemoveFacts(w1, temporary, Remove(w1, temporary).0, Remove(w1, temporary).1);
      ConfinedOverwritesNothing(w1, v, temporary, plan.path);
      ConfinedExtends(w1, v, {temporary});
      JoinCreate(w, w1, v, temporary, plan.path);
    } else {
      var (w2, r, created) := Publish(w1, plan, temporary);
      PublishFacts(w1, plan, temporary, w2, r, created);
      JoinCreate(w, w1, w2, temporary, plan.path);
      if !created {
        RemoveFacts(w2, temporary, Remove(w2, temporary).0, Remove(w2, temporary).1);
        ConfinedOverwritesNothing(w2, v, temporary, plan.path);
        ConfinedExtends(w2, v, {temporary});
        JoinCreate(w, w2, v, temporary, plan.path);
      }
    }
  }

  predicate HasMode(node: Node, mode: nat) {
    node.Regular? && node.mode == mode
  }

  /** How a creating rename whose reply arrived is judged: the planned bytes and mode are a success, and with anything
      else the guest may be changed. */
  lemma AnsweredCreateIsExact(w: World, plan: CreatePlan, temporary: string, w1: World, seen: Read)
    requires (w1, true) == Rename(w, temporary, plan.path) && seen == VerifyRename(w1, w.quiet, plan.path).1
    ensures Publish(w, plan, temporary).2
    ensures Publish(w, plan, temporary).1 == Applied(false) <==> AsApproved(seen, plan)
    ensures Publish(w, plan, temporary).1 != Applied(false) ==>
      Publish(w, plan, temporary).1.Error? && Publish(w, plan, temporary).1.changed == Some(true)
    ensures AsApproved(seen, plan) <==> seen.Content? && seen.data == plan.data && HasMode(seen.node, plan.mode)
  {
    hide Rename, VerifyRename;
  }

  /** How one whose reply was lost is judged, by the looks at the target: nothing there is a failure that changed
      nothing, the planned bytes and mode are a success, what is no regular file of a fitting size was created by
      others, and of anything else the outcome is unknown. */
  lemma UnansweredCreateIsExact(w: World, plan: CreatePlan, temporary: string, w1: World, w2: World,
                                presence: Presence, seen: Read)
    requires (w1, false) == Rename(w, temporary, plan.path) && (w2, presence) == TargetAbsent(w1, plan.path)
    requires seen == VerifyRename(w2, w.quiet, plan.path).1
    ensures Publish(w, plan, temporary).2 <==> presence.Present? && AsApproved(seen, plan)
    ensures Publish(w, plan, temporary).1
         == if presence.Present? && AsApproved(seen, plan) then Applied(true)
            else if presence.Absent? then Error("atomic_create_failed", Some(false))
            else if presence.Present? && seen.Unfit? then Error("target_created_after_approval", Some(false))
            else Error("atomic_create_outcome_unknown", Some(true))
    ensures AsApproved(seen, plan) <==> seen.Content? && seen.data == plan.data && HasMode(seen.node, plan.mode)
  {
    hide Rename, VerifyRename, TargetAbsent;
  }

  /** What the re-check before a creation looks at: the target, its directory, and where the path leads. */
  function SeenBeforeCreate(w: World, plan: CreatePlan): (Presence, Stat, Resolution) {
    var (w1, presence) := TargetAbsent(w, plan.path);
    var (w2, parent) := Lstat(w1, plan.directory);
    (presence, parent, Normalize(w2).1)
  }

  predicate CreateStillApproved(seen: (Presence, Stat, Resolution), plan: CreatePlan) {
    && seen.0.Absent? && seen.1 == Attrs(Directory(plan.parentMode, plan.parentUid, plan.parentGid))
    && seen.2 == Resolved(plan.resolved)
  }

  /** Only an absent target below the approved directory, at the approved place, is created; anything else is refused
      without a change to the target, and the refusal names the first thing that is not as approved. */
  lemma OnlyTheApprovedIsCreated(w: World, plan: CreatePlan, temporary: string, v: World, result: Result)
    requires (v, result) == ApplyCreate(w, plan, temporary)
    requires temporary in w.mine && plan.path != temporary && |plan.data| <= MAX_FILE_BYTES
    ensures result.Applied? || result.changed == Some(true) ==> CreateStillApproved(SeenBeforeCreate(w, plan), plan)
    ensures !CreateStillApproved(SeenBeforeCreate(w, plan), plan) ==> TargetLeftAlone(w, v, plan.path)
    ensures var (presence, parent, place) := SeenBeforeCreate(w, plan);
      if presence.Unknown? then result == Error(CREATE_FAILED, Some(false))
      else if presence.Present? then result == Error(presence.reason + "_after_approval", None)
      else if !parent.Attrs? then result == Error(CREATE_FAILED, Some(false))
      else if parent.node.Symlink? then result == Error("parent_symlink_refused", Some(false))
      else if !parent.node.Directory? then result == Error("parent_not_directory", Some(false))
      else if parent.node != Directory(plan.parentMode, plan.parentUid, plan.parentGid) then
        result == Error("parent_changed_after_approval", None)
      else if place.Unresolved? then result == Error(CREATE_FAILED, Some(false))
      else if place.Refused? then result == Error("resolved_path_not_allowed", Some(false))
      else if place.path != plan.resolved then result == Error("resolved_path_changed_after_approval", None)
      else true
  {
    CreateIsSafe(w, plan, temporary, v, result);
    hide Publish, Remove, TargetLeftAlone, NothingOverwritten, Lstat, Normalize, TargetAbsent, WriteNew;
  }

  /** Without faults and other writers a creation goes through exactly if the target is absent, its directory is the
      approved one, and the path resolves to the approved place. */
  lemma CreateSucceedsUndisturbedIff(w: World, plan: CreatePlan, temporary: string)
    requires temporary in w.mine && plan.path != temporary && plan.directory != temporary && w.schedule == []
    requires temporary !in w.files && |plan.data| <= MAX_FILE_BYTES
    ensures ApplyCreate(w, plan, temporary).1 == Applied(false) <==>
      (plan.path !in w.files && w.home == plan.resolved
       && Holds(w.files, plan.directory, Directory(plan.parentMode, plan.parentUid, plan.parentGid)))
  {
    var (v, result) := ApplyCreate(w, plan, temporary);
    hide Confined, Normalize, TargetAbsent, Lstat, ApplyCreate, TargetLeftAlone;
    TargetAbsentFacts(w, plan.path, TargetAbsent(w, plan.path).0, TargetAbsent(w, plan.path).1);
    LstatFacts(w, plan.directory, Lstat(w, plan.directory).0, Lstat(w, plan.directory).1);
    NormalizeFacts(w, Normalize(w).0, Normalize(w).1);
    OnlyTheApprovedIsCreated(w, plan, temporary, v, result);
    if CreateStillApproved(SeenBeforeCreate(w, plan), plan) { CreateSucceedsUndisturbed(w, plan, temporary); }
  }

  /** Without faults and other writers: a success adds the approved file, anything else leaves every file as it was. */
  lemma UndisturbedCreateIsExact(w: World, plan: CreatePlan, temporary: string)
    requires temporary in w.mine && plan.path != temporary && plan.directory != temporary && w.schedule == []
    requires temporary !in w.files && |plan.data| <= MAX_FILE_BYTES
    ensures var (v, result) := ApplyCreate(w, plan, temporary);
      v.files == if result.Applied? then w.files[plan.path := Regular(plan.data, plan.mode, w.user, w.group)]
        else w.files
  {
    hide Confined, Normalize, TargetAbsent, Lstat, WriteNew, Remove, Publish;
    TargetAbsentFacts(w, plan.path, TargetAbsent(w, plan.path).0, TargetAbsent(w, plan.path).1);
    LstatFacts(w, plan.directory, Lstat(w, plan.directory).0, Lstat(w, plan.directory).1);
    NormalizeFacts(w, Normalize(w).0, Normalize(w).1);
    WriteAlone(w, temporary, plan.data, plan.mode, None);
    var (w1, staged) := StageCreate(w, plan, temporary);
    if staged.Stopped? {
      RemoveAlone(w, temporary);
      assert w.files - {temporary} == w.files;
    } else {
      PublishAlone(w, w1, plan, temporary);
    }
  }

  lemma PublishAlone(w: World, w1: World, plan: CreatePlan, temporary: string)
    requires w1.schedule == [] && temporary !in w.files && plan.path !in w.files && plan.path != temporary
    requires |plan.data| <= MAX_FILE_BYTES
    requires w1.files == w.files[temporary := Regular(plan.data, plan.mode, w.user, w.group)]
    ensures var (v, result, created) := Publish(w1, plan, temporary);
      && created && result == Applied(false)
      && v.files == w.files[plan.path := Regular(plan.data, plan.mode, w.user, w.group)]
  {
    hide ReadRegular;
    var (v1, renamed) := Rename(w1, temporary, plan.path);
    assert renamed && v1.schedule == [] && v1.quiet;
    assert v1.files == w.files[plan.path := Regular(plan.data, plan.mode, w.user, w.group)];
    QuietVerify(v1, w1.quiet, plan.path);
    ReadRegularFacts(v1, plan.path, ReadRegular(v1, plan.path).0, ReadRegular(v1, plan.path).1);
  }

  lemma ConfinedExtends(w: World, v: World, scope: set<string>)
    requires Confined(w, v, scope)
    ensures Extends(w, v)
  {
  }

  /** Without faults and other writers an approved creation goes through. */
  lemma CreateSucceedsUndisturbed(w: World, plan: CreatePlan, temporary: string)
    requires temporary in w.mine && plan.path != temporary && plan.directory != temporary && w.schedule == []
    requires plan.path !in w.files && temporary !in w.files && w.home == plan.resolved
    requires Holds(w.files, plan.directory, Directory(plan.parentMode, plan.parentUid, plan.parentGid))
    requires |plan.data| <= MAX_FILE_BYTES
    ensures ApplyCreate(w, plan, temporary).1 == Applied(false)
  {
    hide Confined, Rename, ReadRegular, WriteNew, Normalize, TargetAbsent, Lstat;
    TargetAbsentFacts(w, plan.path, TargetAbsent(w, plan.path).0, TargetAbsent(w, plan.path).1);
    LstatFacts(w, plan.directory, Lstat(w, plan.directory).0, Lstat(w, plan.directory).1);
    NormalizeFacts(w, Normalize(w).0, Normalize(w).1);
    var (w1, written) := WriteNew(w, temporary, plan.data, plan.mode, None);
    WriteNewFacts(w, temporary, plan.data, plan.mode, None, w1, written);
    MineStays(w, w1, {temporary});
    AloneStays(w, w1, temporary, plan.path);
    var (w2, renamed) := Rename(w1, temporary, plan.path);
    RenameFacts(w1, temporary, plan.path, w2, renamed);
    ReadRegularFacts(w2, plan.path, ReadRegular(w2, plan.path).0, ReadRegular(w2, plan.path).1);
  }
}
