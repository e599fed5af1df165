/** Planning an edit: the plan is made from one reading of the guest, approved, and applied later. */
module EditPlan {
  import opened RemoteFiles
  import opened AtomicFile
  import opened Options

  // ---------- occurrences ----------

  predicate OccursAt(text: string, fragment: string, k: nat) {
    k + |fragment| <= |text| && text[k..k + |fragment|] == fragment
  }

  /** The leftmost occurrence at or after k. */
  function Find(text: string, fragment: string, k: nat): (r: Option<nat>)
    requires k <= |text|
    ensures r.Some? ==> k <= r.value && OccursAt(text, fragment, r.value)
    ensures forall j :: k <= j && (r.Some? ==> j < r.value) ==> !OccursAt(text, fragment, j)
    decreases |text| - k
  {
    if OccursAt(text, fragment, k) then Some(k) else if k == |text| then None else Find(text, fragment, k + 1)
  }

  /** str.count: occurrences counted from the left, each search starting where the last match ended. */
  function Count(text: string, fragment: string, k: nat): nat
    requires fragment != "" && k <= |text|
    decreases |text| - k
  {
    match Find(text, fragment, k)
    case None => 0
    case Some(p) => 1 + Count(text, fragment, p + |fragment|)
  }

  /** str.replace with a count of one. */
  function ReplaceFirst(text: string, fragment: string, substitute: string): string {
    match Find(text, fragment, 0)
    case None => text
    case Some(p) => text[..p] + substitute + text[p + |fragment|..]
  }

  /** The count is one exactly when the fragment occurs and every occurrence starts within the leftmost one; it is not
      the same as occurring once. */
  lemma CountOneIff(text: string, fragment: string)
    requires fragment != ""
    ensures Count(text, fragment, 0) == 1 <==>
      exists p: nat :: OccursAt(text, fragment, p) && forall j: nat :: OccursAt(text, fragment, j) ==>
        p <= j < p + |fragment|
  {
    var r := Find(text, fragment, 0);
    if r.Some? {
      var p := r.value;
      assert Count(text, fragment, 0) == 1 + Count(text, fragment, p + |fragment|);
      var next := Find(text, fragment, p + |fragment|);
      assert next.None? <==> Count(text, fragment, p + |fragment|) == 0;
    }
  }

  /** Some proper end of the fragment is also its beginning. */
  ghost predicate Bordered(fragment: string) {
    exists b :: 0 < b < |fragment| && Border(fragment, b)
  }

  predicate Border(fragment: string, b: nat) {
    b <= |fragment| && fragment[..b] == fragment[|fragment| - b..]
  }

  ghost predicate OccursOnce(text: string, fragment: string) {
    exists p: nat :: OccursAt(text, fragment, p) && forall j: nat :: OccursAt(text, fragment, j) ==> j == p
  }

  /** A count of one means a single place to edit, in every text, exactly for fragments that cannot overlap
      themselves. */
  lemma CountOneIsUniqueIff(fragment: string)
    requires fragment != ""
    ensures (forall text: string :: Count(text, fragment, 0) == 1 <==> OccursOnce(text, fragment)) <==>
      !Bordered(fragment)
  {
    hide Count, OccursOnce, Border;
    if b :| 0 < b < |fragment| && Border(fragment, b) {
      OverlappingText(fragment, b);
    } else {
      forall text: string ensures Count(text, fragment, 0) == 1 <==> OccursOnce(text, fragment) {
        UnborderedCount(text, fragment);
      }
    }
  }

  lemma OverlappingText(fragment: string, b: nat)
    requires 0 < b < |fragment| && Border(fragment, b)
    ensures Count(fragment + fragment[b..], fragment, 0) == 1 && !OccursOnce(fragment + fragment[b..], fragment)
  {
    hide Count, OccursAt, Border;
    var text := fragment + fragment[b..];
    OverlappingOccurrences(fragment, b);
    assert forall j: nat :: OccursAt(text, fragment, j) ==> 0 <= j < 0 + |fragment|;
    CountOneIff(text, fragment);
  }

  lemma OverlappingOccurrences(fragment: string, b: nat)
    requires 0 < b < |fragment| && Border(fragment, b)
    ensures OccursAt(fragment + fragment[b..], fragment, 0)
    ensures OccursAt(fragment + fragment[b..], fragment, |fragment| - b)
    ensures forall j: nat :: OccursAt(fragment + fragment[b..], fragment, j) ==> j < |fragment|
  {
    var tail := fragment[b..];
    var text := fragment + tail;
    assert text[0..0 + |fragment|] == fragment;
    var k := |fragment| - b;
    var window := text[k..k + |fragment|];
    forall i | 0 <= i < |fragment| ensures window[i] == fragment[i] {
      if i < b {
        assert window[i] == fragment[k..][i] == fragment[..b][i];
      } else {
        assert window[i] == tail[i - b];
      }
    }
    assert window == fragment;
  }

  lemma UnborderedCount(text: string, fragment: string)
    requires fragment != "" && !Bordered(fragment)
    ensures Count(text, fragment, 0) == 1 <==> OccursOnce(text, fragment)
  {
    CountOneIff(text, fragment);
    forall p: nat, j: nat | OccursAt(text, fragment, p) && OccursAt(text, fragment, j) && p <= j < p + |fragment|
      ensures j == p
    {
      var b := p + |fragment| - j;
      assert fragment[j - p..] == text[p..p + |fragment|][j - p..] == text[j..p + |fragment|];
      assert fragment[..b] == text[j..j + |fragment|][..b] == text[j..p + |fragment|];
      assert Border(fragment, b);
    }
  }

  // ---------- planning ----------

  /** UTF-8: what decodes is encoded back to the same bytes, and what is encoded decodes to the same text. */
  datatype Utf8 = Utf8(decode: Bytes -> Option<string>, encode: string -> Bytes)

  ghost predicate Lawful(u: Utf8) {
    && (forall b: Bytes :: u.decode(b).Some? ==> u.encode(u.decode(b).value) == b)
    && (forall t: string :: u.decode(u.encode(t)) == Some(t))
  }

  datatype ReplaceSpec = ReplaceSpec(path: string, expected: Digest, fragment: string, substitute: string)
  datatype CreateSpec = CreateSpec(path: string, directory: string, data: Bytes, mode: nat)

  datatype Planned<P> = Plan(plan: P) | Declined(errorClass: string)

  const READ_FAILED := "sftp_read_failed"

  function PrepareReplace(w: World, u: Utf8, spec: ReplaceSpec): (World, Planned<ReplacePlan>)
    requires spec.fragment != ""
  {
    var (w1, read) := ReadRegular(w, spec.path);
    match read
    case Unfit(reason) => (w1, Declined(reason))
    case Lost => (w1, Declined(READ_FAILED))
    case Content(node, data) =>
      var (w2, resolution) := Normalize(w1);
      (w2,
       match resolution
       case Unresolved => Declined(READ_FAILED)
       case Refused => Declined("resolved_path_not_allowed")
       case Resolved(resolved) =>
         if Sha(data) != spec.expected then Declined("stale_precondition") else Rewrite(u, spec, node, data, resolved))
  }

  /** Exactly one fragment is replaced in the text that was read. */
  function Rewrite(u: Utf8, spec: ReplaceSpec, node: Node, data: Bytes, resolved: string): Planned<ReplacePlan>
    requires spec.fragment != ""
  {
    var text := u.decode(data);
    if text.None? then Declined("not_utf8")
    else if Count(text.value, spec.fragment, 0) != 1 then Declined("match_count_not_one")
    else
      var substitute := u.encode(ReplaceFirst(text.value, spec.fragment, spec.substitute));
      if |substitute| > MAX_FILE_BYTES then Declined("result_too_large")
      else if !node.Regular? then Declined(READ_FAILED)
      else Plan(ReplacePlan(spec.path, Sha(data), substitute, node.mode, node.uid, node.gid, resolved))
  }

  function PrepareCreate(w: World, spec: CreateSpec): (World, Planned<CreatePlan>) {
    var (w1, presence) := TargetAbsent(w, spec.path);
    match presence
    case Unknown => (w1, Declined(READ_FAILED))
    case Present(reason) => (w1, Declined(reason))
    case Absent =>
      var (w2, parent) := Lstat(w1, spec.directory);
      if parent.Missing? then (w2, Declined("parent_not_found"))
      else if parent.Broken? then (w2, Declined(READ_FAILED))
      else if parent.node.Symlink? then (w2, Declined("parent_symlink_refused"))
      else if !parent.node.Directory? then (w2, Declined("parent_not_directory"))
      else
        var (w3, resolution) := Normalize(w2);
        (w3,
         match resolution
         case Unresolved => Declined(READ_FAILED)
         case Refused => Declined("resolved_path_not_allowed")
         case Resolved(resolved) =>
           Plan(CreatePlan(spec.path, spec.directory, spec.data, spec.mode, resolved,
                           parent.node.dirMode, parent.node.dirUid, parent.node.dirGid)))
  }

  // ---------- from approval to the file ----------

  /** The new bytes are the old ones with one occurrence of the fragment exchanged: the leftmost one, and no other
      occurrence starts outside it. */
  ghost predicate OneExchange(u: Utf8, spec: ReplaceSpec, before: Bytes, after: Bytes) {
    exists pre: string, post: string ::
      && before == u.encode(pre + spec.fragment + post) && after == u.encode(pre + spec.substitute + post)
      && forall j: nat :: OccursAt(pre + spec.fragment + post, spec.fragment, j) ==>
        |pre| <= j < |pre| + |spec.fragment|
  }

  lemma RewriteIsOneExchange(u: Utf8, spec: ReplaceSpec, node: Node, data: Bytes, resolved: string)
    requires spec.fragment != "" && Lawful(u) && Rewrite(u, spec, node, data, resolved).Plan?
    ensures OneExchange(u, spec, data, Rewrite(u, spec, node, data, resolved).plan.data)
  {
    var text := u.decode(data).value;
    CountOneIff(text, spec.fragment);
    var p := Find(text, spec.fragment, 0).value;
    var pre, post := text[..p], text[p + |spec.fragment|..];
    assert text == pre + spec.fragment + post;
    assert u.encode(text) == data;
  }

  /** Planning changes nothing, and a plan is for the digest the caller expected and exchanges one fragment. */
  lemma PlanFacts(w: World, u: Utf8, spec: ReplaceSpec, v: World, plan: ReplacePlan)
    requires spec.fragment != "" && Lawful(u) && PrepareReplace(w, u, spec) == (v, Plan(plan))
    ensures Confined(w, v, {})
    ensures plan.path == spec.path && plan.before == spec.expected && |plan.data| <= MAX_FILE_BYTES
    ensures OneExchange(u, spec, plan.before.of, plan.data)
    ensures Protected(w, spec.path) ==> Holds(w.files, spec.path, Original(plan))
  {
    hide Confined, Protected, ReadRegular, Normalize, OneExchange, Lawful;
    var (w1, read) := ReadRegular(w, spec.path);
    ReadRegularFacts(w, spec.path, w1, read);
    var (w2, resolution) := Normalize(w1);
    NormalizeFacts(w1, w2, resolution);
    ConfinedTrans(w, w1, w2, {}, {});
    assert {} + {} == var none: set<string> := {}; none;
    RewriteIsOneExchange(u, spec, read.node, read.data, resolution.path);
  }

  /** Whatever happened between approval and application, and during it: a reported success means that the expected
      bytes, with that one fragment exchanged and nothing else, are at the target, and the expected bytes are in the
      backup. */
  lemma SuccessIsTheApprovedEdit(w: World, u: Utf8, spec: ReplaceSpec, plan: ReplacePlan, later: World, n: Names,
                                 v: World,
                                 result: Result)
    requires spec.fragment != "" && Lawful(u) && PrepareReplace(w, u, spec).1 == Plan(plan)
    requires (v, result) == ApplyReplace(later, plan, n) && Distinct(later, spec.path, n) && result.Applied?
    ensures spec.path in v.files && v.files[spec.path].Regular? && n.backup in v.files && v.files[n.backup].Regular?
    ensures Sha(v.files[n.backup].data) == spec.expected
    ensures OneExchange(u, spec, v.files[n.backup].data, v.files[spec.path].data)
  {
    hide ApplyReplace, PrepareReplace, OneExchange;
    PlanFacts(w, u, spec, PrepareReplace(w, u, spec).0, plan);
    ReplaceOkIsApplied(later, plan, n, v, result);
  }

  /** On a quiet guest an edit is planned exactly when the file is the expected one, a text, holds the fragment with a
      count of one, and stays within the bound; and then applying it succeeds. */
  lemma QuietEditSucceeds(w: World, u: Utf8, spec: ReplaceSpec, n: Names, data: Bytes, mode: nat, uid: nat, gid: nat)
    requires spec.fragment != "" && Lawful(u) && w.schedule == [] && Distinct(w, spec.path, n)
    requires Holds(w.files, spec.path, Regular(data, mode, uid, gid)) && |data| <= MAX_FILE_BYTES
    requires n.temporary !in w.files && n.backup !in w.files
    ensures PrepareReplace(w, u, spec).0 == w
    ensures PrepareReplace(w, u, spec).1.Plan? <==>
      (Sha(data) == spec.expected && u.decode(data).Some? && Count(u.decode(data).value, spec.fragment, 0) == 1
       && |u.encode(ReplaceFirst(u.decode(data).value, spec.fragment, spec.substitute))| <= MAX_FILE_BYTES)
    ensures PrepareReplace(w, u, spec).1.Plan? ==>
      ApplyReplace(w, PrepareReplace(w, u, spec).1.plan, n).1 == Applied(false)
  {
    hide Confined, Protected, ReadRegular, Normalize, ApplyReplace, Lawful;
    var (w1, read) := ReadRegular(w, spec.path);
    ReadRegularFacts(w, spec.path, w1, read);
    NormalizeFacts(w, Normalize(w).0, Normalize(w).1);
    if PrepareReplace(w, u, spec).1.Plan? {
      ReplaceSucceedsUndisturbed(w, PrepareReplace(w, u, spec).1.plan, n);
    }
  }

  /** Planning a creation changes nothing and carries the request over; of protected paths it saw an absent target in a
      real directory. */
  lemma CreatePlanFacts(w: World, spec: CreateSpec, v: World, plan: CreatePlan)
    requires PrepareCreate(w, spec) == (v, Plan(plan))
    ensures Confined(w, v, {})
    ensures plan.path == spec.path && plan.directory == spec.directory && plan.data == spec.data
      && plan.mode == spec.mode
    ensures Protected(w, spec.path) ==> spec.path !in w.files
    ensures Protected(w, spec.directory) ==>
      Holds(w.files, spec.directory, Directory(plan.parentMode, plan.parentUid, plan.parentGid))
  {
    hide Protected, TargetAbsent, Lstat, Normalize;
    var (w1, presence) := TargetAbsent(w, spec.path);
    TargetAbsentFacts(w, spec.path, w1, presence);
    var (w2, parent) := Lstat(w1, spec.directory);
    LstatFacts(w1, spec.directory, w2, parent);
    ConfinedTrans(w, w1, w2, {}, {});
    NormalizeFacts(w2, Normalize(w2).0, Normalize(w2).1);
    ConfinedTrans(w, w2, v, {}, {});
  }

  /** On a quiet guest a creation is planned exactly when the target is absent and its parent a directory, and then
      applying it succeeds. */
  lemma QuietCreateSucceeds(w: World, spec: CreateSpec, temporary: string)
    requires w.schedule == [] && temporary in w.mine && temporary !in w.files
    requires spec.path != temporary && spec.directory != temporary && |spec.data| <= MAX_FILE_BYTES
    ensures PrepareCreate(w, spec).0 == w
    ensures PrepareCreate(w, spec).1.Plan? <==>
      spec.path !in w.files && spec.directory in w.files && w.files[spec.directory].Directory?
    ensures PrepareCreate(w, spec).1.Plan? ==>
      ApplyCreate(w, PrepareCreate(w, spec).1.plan, temporary).1 == Applied(false)
  {
    hide Confined, Protected, TargetAbsent, Lstat, Normalize, ApplyCreate;
    TargetAbsentFacts(w, spec.path, TargetAbsent(w, spec.path).0, TargetAbsent(w, spec.path).1);
    LstatFacts(w, spec.directory, Lstat(w, spec.directory).0, Lstat(w, spec.directory).1);
    NormalizeFacts(w, Normalize(w).0, Normalize(w).1);
    if PrepareCreate(w, spec).1.Plan? {
      CreateSucceedsUndisturbed(w, PrepareCreate(w, spec).1.plan, temporary);
    }
  }

  /** Why an edit is not planned on a quiet guest: the first thing that is wrong with the file or the request. */
  lemma QuietEditDeclines(w: World, u: Utf8, spec: ReplaceSpec)
    requires spec.fragment != "" && w.schedule == []
    ensures var planned := PrepareReplace(w, u, spec).1;
      if spec.path !in w.files then planned == Declined("sftp_read_failed")
      else match w.files[spec.path]
        case Symlink => planned == Declined("symlink_refused")
        case Directory(_, _, _) => planned == Declined("not_regular_file")
        case Special => planned == Declined("not_regular_file")
        case Regular(data, _, _, _) =>
          if |data| > 1048576 then planned == Declined("file_too_large")
          else if Sha(data) != spec.expected then planned == Declined("stale_precondition")
          else if u.decode(data).None? then planned == Declined("not_utf8")
          else if Count(u.decode(data).value, spec.fragment, 0) != 1 then planned == Declined("match_count_not_one")
          else if |u.encode(ReplaceFirst(u.decode(data).value, spec.fragment, spec.substitute))| > 1048576 then
            planned == Declined("result_too_large")
          else planned.Plan?
  {
    LstatFacts(w, spec.path, Lstat(w, spec.path).0, Lstat(w, spec.path).1);
    ReadRegularFacts(w, spec.path, ReadRegular(w, spec.path).0, ReadRegular(w, spec.path).1);
    NormalizeFacts(w, Normalize(w).0, Normalize(w).1);
    hide Lstat, Normalize, ReadData, Confined, Protected, Count, ReplaceFirst;
  }

  /** And why a creation is not. */
  lemma QuietCreateDeclines(w: World, spec: CreateSpec)
    requires w.schedule == []
    ensures var planned := PrepareCreate(w, spec).1;
      if spec.path in w.files then
        planned == Declined(if w.files[spec.path].Symlink? then "symlink_refused" else "target_already_exists")
      else if spec.directory !in w.files then planned == Declined("parent_not_found")
      else match w.files[spec.directory]
        case Symlink => planned == Declined("parent_symlink_refused")
        case Regular(_, _, _, _) => planned == Declined("parent_not_directory")
        case Special => planned == Declined("parent_not_directory")
        case Directory(_, _, _) => planned.Plan?
  {
    LstatFacts(w, spec.path, Lstat(w, spec.path).0, Lstat(w, spec.path).1);
    LstatFacts(w, spec.directory, Lstat(w, spec.directory).0, Lstat(w, spec.directory).1);
    NormalizeFacts(w, Normalize(w).0, Normalize(w).1);
    hide Lstat, Normalize, Confined, Protected;
  }
}
