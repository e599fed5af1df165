/** The guest's files over SFTP: any call may be lost before or after it took effect, and other writers act in
    between. */
module RemoteFiles {
  import opened Options

  type Bytes = seq<int>

  datatype Node =
    | Regular(data: Bytes, mode: nat, uid: nat, gid: nat)
    | Symlink
    | Directory(dirMode: nat, dirUid: nat, dirGid: nat)
    | Special

  type Files = map<string, Node>

  /** SHA-256, taken to be injective. */
  datatype Digest = Sha(of: Bytes)

  datatype Fault = Delivered | LostBefore | LostAfter

  /** What the surroundings do at one call: other writers' changes just before it, the fate of the call, what a read
      through a symlink returns, what a torn write leaves, and how the path resolves (None: to a refused path). */
  datatype Move = Move(foreign: map<string, Option<Node>>, fault: Fault, stray: Bytes, resolved: Option<string>)

  /** One change of the files, by this run or by another writer; theirs is what the other writers alone would have left
      by then. */
  datatype Change = Change(own: bool, before: Files, after: Files, theirs: Files)

  /** theirs are the files as they would be had this run never changed any. mine are the nonce paths no other writer
      knows. quiet holds from a rename to the verification of its result, where other writers are not considered. An
      exhausted schedule delivers every call. */
  datatype World = World(files: Files, theirs: Files, schedule: seq<Move>, mine: set<string>, quiet: bool,
                         journal: seq<Change>, user: nat, group: nat, umaskMode: nat, home: string)

  function ApplyForeign(files: Files, foreign: map<string, Option<Node>>, mine: set<string>): Files {
    var removed := set p | p in foreign && p !in mine && foreign[p].None?;
    var written := map p | p in foreign && p !in mine && foreign[p].Some? :: foreign[p].value;
    (files - removed) + written
  }

  function Record(w: World, own: bool, after: Files): World {
    w.(files := after, journal := w.journal + [Change(own, w.files, after, w.theirs)])
  }

  /** Other writers act before the call reaches the server. */
  function Arrive(w: World): World {
    if w.quiet || w.schedule == [] then w
    else
      var foreign := w.schedule[0].foreign;
      Record(w.(theirs := ApplyForeign(w.theirs, foreign, w.mine)), false, ApplyForeign(w.files, foreign, w.mine))
  }

  function FaultOf(w: World): Fault {
    if w.schedule == [] then Delivered else w.schedule[0].fault
  }

  function Stray(w: World): Bytes {
    if w.schedule == [] then [] else w.schedule[0].stray
  }

  function Advance(w: World): World {
    if w.schedule == [] then w else w.(schedule := w.schedule[1..])
  }

  /** A changing call that has arrived: refused by the server, or applied as its fault says. True is a normal return. */
  function Commit(w: World, accepted: bool, after: Files, torn: Files): (World, bool) {
    if !accepted then (Advance(w), false)
    else match FaultOf(w)
      case Delivered => (Advance(Record(w, true, after)), true)
      case LostBefore => (Advance(w), false)
      case LostAfter => (Advance(Record(w, true, torn)), false)
  }

  // ---------- single calls ----------

  datatype Stat = Attrs(node: Node) | Missing | Broken

  function Lstat(w0: World, path: string): (World, Stat) {
    var w := Arrive(w0);
    (Advance(w), if !FaultOf(w).Delivered? then Broken else if path in w.files then Attrs(w.files[path]) else Missing)
  }

  function ReadData(w0: World, path: string): (World, Option<Bytes>) {
    var w := Arrive(w0);
    (Advance(w),
     if !FaultOf(w).Delivered? || path !in w.files then None
     else match w.files[path]
       case Regular(data, _, _, _) => Some(data)
       case Symlink => Some(Stray(w))
       case _ => None)
  }

  datatype Resolution = Resolved(path: string) | Refused | Unresolved

  function Normalize(w0: World): (World, Resolution) {
    var w := Arrive(w0);
    (Advance(w),
     if !FaultOf(w).Delivered? then Unresolved
     else if w.schedule == [] then Resolved(w.home)
     else match w.schedule[0].resolved case Some(p) => Resolved(p) case None => Refused)
  }

  /** Exclusive creation: an existing path fails before it is truncated. */
  function OpenNew(w0: World, path: string): (World, bool) {
    var w := Arrive(w0);
    var after := w.files[path := Regular([], w.umaskMode, w.user, w.group)];
    Commit(w, path !in w.files, after, after)
  }

  /** A lost write may leave any bytes behind. */
  function Write(w0: World, path: string, data: Bytes): (World, bool) {
    var w := Arrive(w0);
    if path in w.files && w.files[path].Regular? then
      Commit(w, true, w.files[path := w.files[path].(data := data)], w.files[path := w.files[path].(data := Stray(w))])
    else Commit(w, false, w.files, w.files)
  }

  function Chmod(w0: World, path: string, mode: nat): (World, bool) {
    var w := Arrive(w0);
    if path in w.files && w.files[path].Regular? then
      var after := w.files[path := w.files[path].(mode := mode)];
      Commit(w, true, after, after)
    else Commit(w, false, w.files, w.files)
  }

  function Chown(w0: World, path: string, uid: nat, gid: nat): (World, bool) {
    var w := Arrive(w0);
    if path in w.files && w.files[path].Regular? then
      var after := w.files[path := w.files[path].(uid := uid, gid := gid)];
      Commit(w, true, after, after)
    else Commit(w, false, w.files, w.files)
  }

  /** The standard rename refuses an existing destination. */
  function Rename(w0: World, source: string, target: string): (World, bool) {
    var w := Arrive(w0).(quiet := true);
    if source in w.files && target !in w.files && source != target then
      var after := (w.files - {source})[target := w.files[source]];
      Commit(w, true, after, after)
    else Commit(w, false, w.files, w.files)
  }

  /** posix_rename replaces whatever non-directory is at the destination. */
  function PosixRename(w0: World, source: string, target: string): (World, bool) {
    var w := Arrive(w0).(quiet := true);
    if source in w.files && !(target in w.files && w.files[target].Directory?) && source != target then
      var after := (w.files - {source})[target := w.files[source]];
      Commit(w, true, after, after)
    else Commit(w, false, w.files, w.files)
  }

  function Remove(w0: World, path: string): (World, bool) {
    var w := Arrive(w0);
    Commit(w, path in w.files, w.files - {path}, w.files - {path})
  }

  // ---------- call sequences shared by both operations ----------

  const MAX_FILE_BYTES := 1048576

  datatype Read = Content(node: Node, data: Bytes) | Unfit(reason: string) | Lost

  /** Unfit is the ValueError of a symlink, a special file or one too large; Lost any other exception. */
  function ReadRegular(w: World, path: string): (World, Read) {
    var (w1, stat) := Lstat(w, path);
    match stat
    case Missing => (w1, Lost)
    case Broken => (w1, Lost)
    case Attrs(node) =>
      if node.Symlink? then (w1, Unfit("symlink_refused"))
      else if !node.Regular? then (w1, Unfit("not_regular_file"))
      else if |node.data| > MAX_FILE_BYTES then (w1, Unfit("file_too_large"))
      else
        var (w2, data) := ReadData(w1, path);
        if data.None? then (w2, Lost)
        else if |data.value| > MAX_FILE_BYTES then (w2, Unfit("file_too_large"))
        else (w2, Content(node, data.value))
  }

  /** The first look at a renamed file; it is a faithful look, and after it other writers are as they were before the
      rename. */
  function VerifyRename(w: World, quiet: bool, path: string): (World, Read) {
    var (v, read) := ReadRegular(w, path);
    (v.(quiet := quiet), read)
  }

  /** Create exclusively, write, set the mode and, for a replacement, the owner. False is an exception on the way. */
  function WriteNew(w: World, path: string, data: Bytes, mode: nat, owner: Option<(nat, nat)>): (World, bool) {
    var (w1, made) := OpenNew(w, path);
    if !made then (w1, false)
    else
      var (w2, written) := Write(w1, path, data);
      if !written then (w2, false)
      else
        var (w3, moded) := Chmod(w2, path, mode);
        if !moded || owner.None? then (w3, moded)
        else Chown(w3, path, owner.value.0, owner.value.1)
  }

  // ---------- what one call can do ----------

  /** The node at path is the same before and after, or absent both times. */
  predicate Untouched(before: Files, after: Files, path: string) {
    (path in before <==> path in after) && (path in before ==> before[path] == after[path])
  }

  /** If the change is this run's own, it does not touch path. */
  predicate OwnLeaves(c: Change, path: string) {
    c.own ==> Untouched(c.before, c.after, path)
  }

  /** The changes journalled between w and v; nothing is ever removed from the journal. */
  ghost predicate Extends(w: World, v: World) {
    && |w.journal| <= |v.journal| && v.journal[..|w.journal|] == w.journal
    && v.mine == w.mine && v.home == w.home && (w.quiet ==> v.quiet)
    && forall m :: m in v.schedule ==> m in w.schedule
  }

  /** No other writer will change p: it is a nonce name, or nobody is scheduled to write it, or the rename is done. */
  ghost predicate Protected(w: World, p: string) {
    w.quiet || p in w.mine || forall m :: m in w.schedule ==> p !in m.foreign
  }

  /** At path the files are what the other writers alone would have left. */
  predicate AsTheirs(w: World, path: string) {
    Untouched(w.theirs, w.files, path)
  }

  predicate WasTheirs(c: Change, path: string) {
    Untouched(c.theirs, c.after, path)
  }

  /** Every own change between w and v left all paths outside scope alone, a protected path outside scope had one and
      the same node all along, and one that was as the other writers left it stayed so. */
  ghost predicate Confined(w: World, v: World, scope: set<string>) {
    && Extends(w, v)
    && (forall i, p {:trigger OwnLeaves(v.journal[i], p)} :: |w.journal| <= i < |v.journal| && p !in scope ==>
          OwnLeaves(v.journal[i], p))
    && (forall i, p :: |w.journal| <= i < |v.journal| && p !in scope && Protected(w, p) ==>
          Untouched(w.files, v.journal[i].after, p))
    && (forall p :: p !in scope && Protected(w, p) ==> Untouched(w.files, v.files, p) && Protected(v, p))
    && (forall i, p {:trigger WasTheirs(v.journal[i], p)} ::
          |w.journal| <= i < |v.journal| && p !in scope && AsTheirs(w, p) ==> WasTheirs(v.journal[i], p))
    && (forall p :: p !in scope && AsTheirs(w, p) ==> AsTheirs(v, p))
  }

  lemma ConfinedTrans(a: World, b: World, c: World, s: set<string>, t: set<string>)
    requires Confined(a, b, s) && Confined(b, c, t)
    ensures Confined(a, c, s + t)
  {
    hide Protected, AsTheirs, WasTheirs;
    assert c.journal[..|a.journal|] == b.journal[..|a.journal|];
    forall i, p | |a.journal| <= i < |c.journal| && p !in s + t
      ensures OwnLeaves(c.journal[i], p)
      ensures Protected(a, p) ==> Untouched(a.files, c.journal[i].after, p)
      ensures AsTheirs(a, p) ==> WasTheirs(c.journal[i], p)
    {
      if i < |b.journal| { assert c.journal[i] == b.journal[i]; }
    }
  }

  lemma ArriveFacts(w: World)
    ensures Confined(w, Arrive(w), {}) && Arrive(w).quiet == w.quiet && Arrive(w).schedule == w.schedule
  {
    var a := Arrive(w);
    if !w.quiet && w.schedule != [] {
      var foreign := w.schedule[0].foreign;
      forall p ensures Protected(w, p) ==> Untouched(w.files, a.files, p)
               ensures AsTheirs(w, p) ==> Untouched(a.theirs, a.files, p)
      {
        assert p in foreign ==> w.schedule[0] in w.schedule;
      }
      hide ApplyForeign, Untouched;
    }
  }

  /** One own change within the scope. */
  lemma RecordFacts(w: World, after: Files, scope: set<string>)
    requires forall p :: p !in scope ==> Untouched(w.files, after, p)
    ensures Confined(w, Record(w, true, after), scope)
  {
    forall p | p !in scope ensures AsTheirs(w, p) ==> Untouched(w.theirs, after, p) {
      assert Untouched(w.files, after, p);
    }
    hide Untouched;
    var v := Record(w, true, after);
    assert forall p :: p !in scope && Protected(w, p) ==> Protected(v, p);
  }

  lemma CommitFacts(w: World, accepted: bool, after: Files, torn: Files, scope: set<string>, v: World, ok: bool)
    requires (v, ok) == Commit(w, accepted, after, torn)
    requires forall p :: p !in scope ==> Untouched(w.files, after, p) && Untouched(w.files, torn, p)
    ensures Confined(w, v, scope) && v.quiet == w.quiet
    ensures ok ==> accepted && v.files == after
    ensures w.schedule == [] ==> ok == accepted && v.schedule == []
  {
    hide Confined, Untouched;
    AdvanceFacts(w);
    WidenScope(w, Advance(w), {}, scope);
    RecordFacts(w, after, scope);
    RecordFacts(w, torn, scope);
    var q, t := Record(w, true, after), Record(w, true, torn);
    AdvanceFacts(q);
    AdvanceFacts(t);
    ConfinedTrans(w, q, Advance(q), scope, {});
    ConfinedTrans(w, t, Advance(t), scope, {});
    assert scope + {} == scope;
  }

  lemma WidenScope(w: World, v: World, s: set<string>, t: set<string>)
    requires Confined(w, v, s) && s <= t
    ensures Confined(w, v, t)
  {
  }

  lemma LstatFacts(w: World, path: string, v: World, r: Stat)
    requires (v, r) == Lstat(w, path)
    ensures Confined(w, v, {}) && v.quiet == w.quiet
    ensures Protected(w, path) && r.Attrs? ==> path in w.files && w.files[path] == r.node
    ensures Protected(w, path) && r.Missing? ==> path !in w.files
    ensures w.schedule == [] ==> v == w && r == if path in w.files then Attrs(w.files[path]) else Missing
  {
    ArriveFacts(w);
    AdvanceFacts(Arrive(w));
    ConfinedTrans(w, Arrive(w), v, {}, {});
    assert Protected(w, path) ==> Untouched(w.files, Arrive(w).files, path);
  }

  lemma AdvanceFacts(w: World)
    ensures Confined(w, Advance(w), {}) && Advance(w).quiet == w.quiet
  {
  }

  lemma ReadDataFacts(w: World, path: string, v: World, r: Option<Bytes>)
    requires (v, r) == ReadData(w, path)
    ensures Confined(w, v, {}) && v.quiet == w.quiet
    ensures Protected(w, path) && path in w.files && w.files[path].Regular? && r.Some? ==> r.value == w.files[path].data
    ensures w.schedule == [] ==> v == w
    ensures w.schedule == [] && path in w.files && w.files[path].Regular? ==> r == Some(w.files[path].data)
  {
    ArriveFacts(w);
    AdvanceFacts(Arrive(w));
    ConfinedTrans(w, Arrive(w), v, {}, {});
    assert Protected(w, path) ==> Untouched(w.files, Arrive(w).files, path);
  }

  /** Reads change nothing, and of a protected path they tell the truth. */
  lemma ReadRegularFacts(w: World, path: string, v: World, r: Read)
    requires (v, r) == ReadRegular(w, path)
    ensures Confined(w, v, {}) && v.quiet == w.quiet
    ensures Protected(w, path) && r.Content? ==> path in w.files && w.files[path] == r.node
    ensures Protected(w, path) && r.Content? ==> r.node.Regular? && r.node.data == r.data
    ensures r.Content? ==> r.node.Regular?
    ensures Protected(w, path) && r.Unfit? ==>
              path in w.files && (w.files[path].Regular? ==> |w.files[path].data| > MAX_FILE_BYTES)
    ensures w.schedule == [] ==> v == w
    ensures w.schedule == [] && path in w.files && w.files[path].Regular? && |w.files[path].data| <= MAX_FILE_BYTES ==>
              r == Content(w.files[path], w.files[path].data)
  {
    hide Lstat, ReadData, Protected;
    var (w1, stat) := Lstat(w, path);
    LstatFacts(w, path, w1, stat);
    if stat.Attrs? && stat.node.Regular? && |stat.node.data| <= MAX_FILE_BYTES {
      var (w2, data) := ReadData(w1, path);
      ReadDataFacts(w1, path, w2, data);
      ConfinedTrans(w, w1, w2, {}, {});
    }
  }

  lemma NormalizeFacts(w: World, v: World, r: Resolution)
    requires (v, r) == Normalize(w)
    ensures Confined(w, v, {}) && v.quiet == w.quiet
    ensures w.schedule == [] ==> v == w && r == Resolved(w.home)
  {
    ArriveFacts(w);
    AdvanceFacts(Arrive(w));
    ConfinedTrans(w, Arrive(w), v, {}, {});
  }

  /** A call on one path: other writers first, then at most one own change, and that within the path. */
  lemma OnePathCall(w: World, path: string, accepted: bool, after: Files, torn: Files, v: World, ok: bool)
    requires (v, ok) == Commit(Arrive(w), accepted, after, torn)
    requires forall p :: p != path ==> Untouched(Arrive(w).files, after, p) && Untouched(Arrive(w).files, torn, p)
    ensures Confined(w, v, {path}) && v.quiet == w.quiet
    ensures ok ==> accepted && v.files == after
    ensures w.schedule == [] ==> ok == accepted && v.schedule == []
  {
    ArriveFacts(w);
    CommitFacts(Arrive(w), accepted, after, torn, {path}, v, ok);
    ConfinedTrans(w, Arrive(w), v, {}, {path});
    assert {} + {path} == {path};
  }

  lemma OpenNewFacts(w: World, path: string, v: World, ok: bool)
    requires (v, ok) == OpenNew(w, path)
    ensures Confined(w, v, {path}) && v.quiet == w.quiet
    ensures ok ==> path in v.files && v.files[path].Regular?
    ensures w.schedule == [] ==> ok == (path !in w.files) && v.schedule == []
  {
    var a := Arrive(w).files;
    var after := a[path := Regular([], w.umaskMode, w.user, w.group)];
    OnePathCall(w, path, path !in a, after, after, v, ok);
  }

  lemma WriteFacts(w: World, path: string, data: Bytes, v: World, ok: bool)
    requires (v, ok) == Write(w, path, data) && path in w.mine && path in w.files && w.files[path].Regular?
    ensures Confined(w, v, {path}) && v.quiet == w.quiet
    ensures ok ==> path in v.files && v.files[path].Regular? && v.files[path].data == data
    ensures w.schedule == [] ==> ok && v.schedule == []
  {
    ArriveFacts(w);
    var a := Arrive(w).files;
    assert Untouched(w.files, a, path);
    OnePathCall(w, path, true, a[path := a[path].(data := data)], a[path := a[path].(data := Stray(w))], v, ok);
  }

  lemma ChmodFacts(w: World, path: string, mode: nat, v: World, ok: bool)
    requires (v, ok) == Chmod(w, path, mode) && path in w.mine && path in w.files && w.files[path].Regular?
    ensures Confined(w, v, {path}) && v.quiet == w.quiet
    ensures ok ==> path in v.files && v.files[path] == w.files[path].(mode := mode)
    ensures w.schedule == [] ==> ok && v.schedule == []
  {
    ArriveFacts(w);
    var a := Arrive(w).files;
    assert Untouched(w.files, a, path);
    var after := a[path := a[path].(mode := mode)];
    OnePathCall(w, path, true, after, after, v, ok);
  }

  lemma ChownFacts(w: World, path: string, uid: nat, gid: nat, v: World, ok: bool)
    requires (v, ok) == Chown(w, path, uid, gid) && path in w.mine && path in w.files && w.files[path].Regular?
    ensures Confined(w, v, {path}) && v.quiet == w.quiet
    ensures ok ==> path in v.files && v.files[path] == w.files[path].(uid := uid, gid := gid)
    ensures w.schedule == [] ==> ok && v.schedule == []
  {
    ArriveFacts(w);
    var a := Arrive(w).files;
    assert Untouched(w.files, a, path);
    var after := a[path := a[path].(uid := uid, gid := gid)];
    OnePathCall(w, path, true, after, after, v, ok);
  }

  /** A new private file is complete, with its bytes, mode and owner, or its creation is reported as failed. */
  lemma WriteNewFacts(w: World, path: string, data: Bytes, mode: nat, owner: Option<(nat, nat)>, v: World, ok: bool)
    requires (v, ok) == WriteNew(w, path, data, mode, owner) && path in w.mine
    ensures Confined(w, v, {path}) && v.quiet == w.quiet
    ensures ok ==> path in v.files && v.files[path].Regular? && v.files[path].data == data && v.files[path].mode == mode
    ensures ok && owner.Some? ==> v.files[path].uid == owner.value.0 && v.files[path].gid == owner.value.1
    ensures w.schedule == [] && path !in w.files ==> ok && v.schedule == []
  {
    hide OpenNew, Write, Chmod, Chown, Confined;
    var (w1, made) := OpenNew(w, path);
    OpenNewFacts(w, path, w1, made);
    assert {path} + {path} == {path};
    if made {
      MineStays(w, w1, {path});
      var (w2, written) := Write(w1, path, data);
      WriteFacts(w1, path, data, w2, written);
      ConfinedTrans(w, w1, w2, {path}, {path});
      if written {
        MineStays(w1, w2, {path});
        var (w3, moded) := Chmod(w2, path, mode);
        ChmodFacts(w2, path, mode, w3, moded);
        ConfinedTrans(w, w2, w3, {path}, {path});
        if moded && owner.Some? {
          MineStays(w2, w3, {path});
          ChownFacts(w3, path, owner.value.0, owner.value.1, v, ok);
          ConfinedTrans(w, w3, v, {path}, {path});
        }
      }
    }
  }

  lemma MineStays(w: World, v: World, scope: set<string>)
    requires Confined(w, v, scope)
    ensures v.mine == w.mine && v.home == w.home
  {
  }

  lemma RemoveFacts(w: World, path: string, v: World, ok: bool)
    requires (v, ok) == Remove(w, path)
    ensures Confined(w, v, {path}) && v.quiet == w.quiet
    ensures ok ==> path !in v.files
    ensures w.schedule == [] ==> v.schedule == [] && path !in v.files
  {
    var a := Arrive(w).files;
    OnePathCall(w, path, path in a, a - {path}, a - {path}, v, ok);
  }

  /** The node that was at a path when a call reached the server. */
  function AtArrival(w: World): Files {
    Arrive(w).files
  }

  /** The files once source has been moved to target. */
  function Moved(files: Files, source: string, target: string): Files
    requires source in files
  {
    (files - {source})[target := files[source]]
  }

  /** All own changes between w and v are the one move of source to target, made on the files the call found. */
  ghost predicate OnlyMoves(w: World, v: World, source: string, target: string)
    requires source in AtArrival(w)
  {
    forall i :: |w.journal| <= i < |v.journal| && v.journal[i].own ==>
      v.journal[i].before == AtArrival(w) && v.journal[i].after == Moved(AtArrival(w), source, target)
  }

  /** No own change between w and v. */
  ghost predicate NoOwn(w: World, v: World) {
    forall i :: |w.journal| <= i < |v.journal| ==> !v.journal[i].own
  }

  /** The last change before v is this run's own. */
  ghost predicate EndsOwn(w: World, v: World) {
    |v.journal| > |w.journal| && v.journal[|v.journal| - 1].own && v.journal[|v.journal| - 1].after == v.files
  }

  lemma CommitMove(w: World, q: World, source: string, target: string, accepted: bool, v: World, ok: bool)
    requires q == Arrive(w).(quiet := true) && source in w.mine && source in w.files && source != target
    requires source in q.files
      && (v, ok) == Commit(q, accepted, Moved(q.files, source, target), Moved(q.files, source, target))
    ensures v.quiet && Confined(w, v, {source, target}) && OnlyMoves(w, v, source, target)
    ensures if ok then v.files == Moved(q.files, source, target) && EndsOwn(w, v)
            else v.files == Moved(q.files, source, target) || v.files == q.files
    ensures v.theirs == q.theirs
    ensures !accepted ==> !ok && v.files == q.files
    ensures v.files == q.files ==> NoOwn(w, v)
    ensures w.schedule == [] ==> ok == accepted && v.schedule == []
  {
    var after := Moved(q.files, source, target);
    assert source in q.files && source !in after;
    MoveChanges(w, q, source, target, accepted, v, ok);
    hide OnlyMoves, Confined, Moved, Commit, Arrive, EndsOwn, NoOwn;
    ArriveFacts(w);
    Hush(w, Arrive(w));
    MoveOutside(q.files, source, target);
    CommitFacts(q, accepted, after, after, {source, target}, v, ok);
    ConfinedTrans(w, q, v, {}, {source, target});
    assert {} + {source, target} == {source, target};
  }

  lemma MoveOutside(files: Files, source: string, target: string)
    requires source in files
    ensures forall p :: p !in {source, target} ==> Untouched(files, Moved(files, source, target), p)
  {
  }

  lemma MoveChanges(w: World, q: World, source: string, target: string, accepted: bool, v: World, ok: bool)
    requires q == Arrive(w).(quiet := true) && source in q.files && source != target
    requires (v, ok) == Commit(q, accepted, Moved(q.files, source, target), Moved(q.files, source, target))
    ensures OnlyMoves(w, v, source, target) && v.quiet && v.theirs == q.theirs
    ensures if ok then v.files == Moved(q.files, source, target) && EndsOwn(w, v)
            else v.files == Moved(q.files, source, target) || v.files == q.files
    ensures !accepted ==> !ok && v.files == q.files
    ensures v.files == q.files ==> NoOwn(w, v)
    ensures w.schedule == [] ==> ok == accepted && v.schedule == []
  {
    assert source !in Moved(q.files, source, target);
    ArriveIsNotOwn(w);
    hide Arrive, Moved;
    OneOwnChange(w, q, accepted, Moved(q.files, source, target), v, ok);
  }

  lemma ArriveIsNotOwn(w: World)
    ensures |w.journal| <= |Arrive(w).journal| && NoOwn(w, Arrive(w)) && Arrive(w).schedule == w.schedule
  {
  }

  lemma OneOwnChange(w: World, q: World, accepted: bool, after: Files, v: World, ok: bool)
    requires |w.journal| <= |q.journal| && NoOwn(w, q) && q.schedule == w.schedule
      && (v, ok) == Commit(q, accepted, after, after)
    requires after != q.files
    ensures forall i :: |w.journal| <= i < |v.journal| && v.journal[i].own ==>
              v.journal[i].before == q.files && v.journal[i].after == after
    ensures v.quiet == q.quiet && v.theirs == q.theirs
    ensures if ok then v.files == after && EndsOwn(w, v) else v.files == after || v.files == q.files
    ensures !accepted ==> !ok && v.files == q.files
    ensures v.files == q.files ==> NoOwn(w, v)
    ensures w.schedule == [] ==> ok == accepted && v.schedule == []
  {
    hide Record, Advance;
    if accepted && !FaultOf(q).LostBefore? {
      OwnRecord(w, q, after, v);
    } else {
      Passed(q, v);
    }
    SameFault(w, q, v);
  }

  lemma SameFault(w: World, q: World, v: World)
    requires q.schedule == w.schedule && v.schedule == Advance(q).schedule
    ensures w.schedule == [] ==> FaultOf(q).Delivered? && v.schedule == []
  {
  }

  lemma Passed(q: World, v: World)
    requires v == Advance(q)
    ensures v.journal == q.journal && v.files == q.files && v.quiet == q.quiet && v.theirs == q.theirs
  {
  }

  lemma OwnRecord(w: World, q: World, after: Files, v: World)
    requires |w.journal| <= |q.journal| && NoOwn(w, q) && v == Advance(Record(q, true, after))
    ensures forall i :: |w.journal| <= i < |v.journal| && v.journal[i].own ==>
              v.journal[i].before == q.files && v.journal[i].after == after
    ensures EndsOwn(w, v) && v.files == after && v.quiet == q.quiet && v.theirs == q.theirs
    ensures v.schedule == Advance(q).schedule
  {
    var r := Record(q, true, after);
    Passed(r, v);
    assert v.journal == q.journal + [Change(true, q.files, after, q.theirs)];
  }

  lemma Hush(w: World, a: World)
    requires Confined(w, a, {})
    ensures Confined(w, a.(quiet := true), {})
  {
  }

  lemma SourceArrives(w: World, source: string)
    requires source in w.mine && source in w.files
    ensures source in AtArrival(w) && AtArrival(w)[source] == w.files[source]
  {
    ArriveFacts(w);
    assert Protected(w, source);
  }

  /** posix_rename either did nothing or moved the source over the target; its reply may be lost both ways. */
  lemma PosixRenameFacts(w: World, source: string, target: string, v: World, ok: bool)
    requires source in w.mine && source in w.files && source != target && (v, ok) == PosixRename(w, source, target)
    ensures v.quiet && Confined(w, v, {source, target})
    ensures source in AtArrival(w) && AtArrival(w)[source] == w.files[source] && OnlyMoves(w, v, source, target)
    ensures if ok then v.files == Moved(AtArrival(w), source, target) && EndsOwn(w, v)
            else v.files == Moved(AtArrival(w), source, target) || v.files == AtArrival(w)
    ensures v.files == AtArrival(w) ==> NoOwn(w, v)
    ensures v.theirs == Arrive(w).theirs
    ensures w.schedule == [] && (target !in w.files || !w.files[target].Directory?) ==> ok && v.schedule == []
    ensures w.schedule == [] || w.quiet ==> AtArrival(w) == w.files
  {
    SourceArrives(w, source);
    var q := Arrive(w).(quiet := true);
    CommitMove(w, q, source, target, !(target in q.files && q.files[target].Directory?), v, ok);
  }

  /** The standard rename moves the source only to a path that was free when the call arrived. */
  lemma RenameFacts(w: World, source: string, target: string, v: World, ok: bool)
    requires source in w.mine && source in w.files && source != target && (v, ok) == Rename(w, source, target)
    ensures v.quiet && Confined(w, v, {source, target})
    ensures source in AtArrival(w) && AtArrival(w)[source] == w.files[source] && OnlyMoves(w, v, source, target)
    ensures ok ==> target !in AtArrival(w) && v.files == Moved(AtArrival(w), source, target)
    ensures !ok ==> (target !in AtArrival(w) && v.files == Moved(AtArrival(w), source, target))
                    || (v.files == AtArrival(w) && NoOwn(w, v))
    ensures target in AtArrival(w) ==> NoOwn(w, v)
    ensures w.schedule == [] && target !in w.files ==> ok && v.schedule == []
    ensures w.schedule == [] || w.quiet ==> AtArrival(w) == w.files
  {
    SourceArrives(w, source);
    var q := Arrive(w).(quiet := true);
    CommitMove(w, q, source, target, target !in q.files, v, ok);
  }
}
