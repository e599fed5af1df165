/** The bounded breadth-first search over one directory tree of the guest. */
module GuestSearch {
  import opened Options

  /** What reading a file yields; NotRegular is a file swapped since it was listed, Denied an exception. */
  datatype Content = Text(lines: seq<string>) | NotUtf8 | TooLong | NotRegular | Denied

  datatype Node =
    | Directory(listable: bool, items: seq<Item>)
    | File(size: nat, content: Content)
    | Symlink
    | Special

  datatype Item = Item(name: string, node: Node)

  /** One queued directory. */
  datatype Dir = Dir(path: string, depth: nat, node: Node)

  datatype Match =
    | PathMatch(path: string, isDirectory: bool, depth: nat)
    | LineMatch(path: string, number: nat, line: string)

  /** The request: search looks inside files, find only at names. The matchers stand for the glob and literal tests. */
  datatype Spec = Spec(search: bool, cap: nat, maxDepth: nat,
                       nameHit: string -> bool, fileGlob: string -> bool, lineHit: string -> bool,
                       allowed: string -> bool)

  datatype Limits = Limits(directories: nat, files: nat, fileBytes: nat, totalBytes: nat)

  datatype Outcome =
    | Failed
    | Scanned(matches: seq<Match>, truncated: bool, directories: nat, filesSeen: nat, filesScanned: nat, bytes: nat)

  function Join(path: string, name: string): string {
    path + "/" + name
  }

  // ---------- the specification: a search without budgets ----------

  function LineHits(spec: Spec, path: string, lines: seq<string>, number: nat): seq<Match> {
    if lines == [] then []
    else (if spec.lineHit(lines[0]) then [LineMatch(path, number, lines[0])] else [])
         + LineHits(spec, path, lines[1..], number + 1)
  }

  /** A file search looks into: named by the glob, not over the size limit and decodable. */
  predicate Eligible(spec: Spec, lim: Limits, item: Item) {
    item.node.File? && spec.fileGlob(item.name) && item.node.size <= lim.fileBytes && item.node.content.Text?
  }

  function FileHits(spec: Spec, lim: Limits, path: string, item: Item): seq<Match> {
    if Eligible(spec, lim, item) then LineHits(spec, path, item.node.content.lines, 1) else []
  }

  function ItemHits(spec: Spec, lim: Limits, d: Dir, item: Item): seq<Match> {
    var path := Join(d.path, item.name);
    if !spec.allowed(path) || item.node.Symlink? || item.node.Special? then []
    else if spec.search then FileHits(spec, lim, path, item)
    else if d.depth + 1 <= spec.maxDepth && spec.nameHit(item.name)
    then [PathMatch(path, item.node.Directory?, d.depth + 1)]
    else []
  }

  function ItemDirs(spec: Spec, d: Dir, item: Item): seq<Dir> {
    var path := Join(d.path, item.name);
    if spec.allowed(path) && item.node.Directory? && (spec.search || d.depth + 1 < spec.maxDepth)
    then [Dir(path, d.depth + 1, item.node)] else []
  }

  function Hits(spec: Spec, lim: Limits, d: Dir, items: seq<Item>): seq<Match> {
    if items == [] then [] else ItemHits(spec, lim, d, items[0]) + Hits(spec, lim, d, items[1..])
  }

  function Subdirs(spec: Spec, d: Dir, items: seq<Item>): seq<Dir> {
    if items == [] then [] else ItemDirs(spec, d, items[0]) + Subdirs(spec, d, items[1..])
  }

  function Items(n: Node): seq<Item> {
    if n.Directory? then n.items else []
  }

  function NodeSize(n: Node): nat {
    1 + if n.Directory? then ItemsSize(n.items) else 0
  }

  function ItemsSize(items: seq<Item>): nat {
    if items == [] then 0 else NodeSize(items[0].node) + ItemsSize(items[1..])
  }

  function QueueSize(q: seq<Dir>): nat {
    if q == [] then 0 else NodeSize(q[0].node) + QueueSize(q[1..])
  }

  lemma {:induction false} QueueSizeConcat(a: seq<Dir>, b: seq<Dir>)
    ensures QueueSize(a + b) == QueueSize(a) + QueueSize(b)
  {
    if a == [] {
      assert a + b == b;
    } else {
      assert (a + b)[1..] == a[1..] + b;
      QueueSizeConcat(a[1..], b);
    }
  }

  lemma {:induction false} SubdirsAreSmaller(spec: Spec, d: Dir, items: seq<Item>)
    ensures QueueSize(Subdirs(spec, d, items)) <= ItemsSize(items)
  {
    if items != [] {
      SubdirsAreSmaller(spec, d, items[1..]);
      QueueSizeConcat(ItemDirs(spec, d, items[0]), Subdirs(spec, d, items[1..]));
    }
  }

  function Next(spec: Spec, q: seq<Dir>): seq<Dir>
    requires q != []
  {
    q[1..] + Subdirs(spec, q[0], Items(q[0].node))
  }

  lemma NextIsSmaller(spec: Spec, q: seq<Dir>)
    requires q != []
    ensures QueueSize(Next(spec, q)) < QueueSize(q)
  {
    QueueSizeConcat(q[1..], Subdirs(spec, q[0], Items(q[0].node)));
    SubdirsAreSmaller(spec, q[0], Items(q[0].node));
  }

  /** Every match in breadth-first order. */
  function Bfs(spec: Spec, lim: Limits, q: seq<Dir>): seq<Match>
    decreases QueueSize(q)
  {
    if q == [] then []
    else
      NextIsSmaller(spec, q);
      Hits(spec, lim, q[0], Items(q[0].node)) + Bfs(spec, lim, Next(spec, q))
  }

  /** The search of one root. */
  function Everything(spec: Spec, lim: Limits, root: Dir): seq<Match> {
    Bfs(spec, lim, [root])
  }

  // ---------- the order of work, and what it costs ----------

  /** One step of a search without budgets: listing a directory, or looking at an entry; opens is the listed size of a
      file to look into, decoded whether its bytes turn out to be text. */
  datatype Visit = Listing | Entry(opens: Option<nat>, decoded: bool, hits: seq<Match>)

  function Look(spec: Spec, lim: Limits, d: Dir, item: Item): Visit {
    Entry(if spec.search && spec.allowed(Join(d.path, item.name)) && item.node.File? && spec.fileGlob(item.name)
             && item.node.size <= lim.fileBytes then Some(item.node.size) else None,
          item.node.File? && item.node.content.Text?,
          ItemHits(spec, lim, d, item))
  }

  function Looks(spec: Spec, lim: Limits, d: Dir, items: seq<Item>): seq<Visit> {
    if items == [] then [] else [Look(spec, lim, d, items[0])] + Looks(spec, lim, d, items[1..])
  }

  /** Every step of a search without budgets. */
  function Trace(spec: Spec, lim: Limits, q: seq<Dir>): seq<Visit>
    decreases QueueSize(q)
  {
    if q == [] then []
    else
      NextIsSmaller(spec, q);
      [Listing] + Looks(spec, lim, q[0], Items(q[0].node)) + Trace(spec, lim, Next(spec, q))
  }

  datatype Meter = Meter(directories: nat, filesSeen: nat, filesScanned: nat, bytes: nat)

  /** Bytes are charged for decoded files only. */
  function Spend(m: Meter, v: Visit): Meter {
    match v
    case Listing => m.(directories := m.directories + 1)
    case Entry(opens, decoded, _) =>
      if opens.None? then m
      else if !decoded then m.(filesSeen := m.filesSeen + 1)
      else m.(filesSeen := m.filesSeen + 1, filesScanned := m.filesScanned + 1, bytes := m.bytes + opens.value)
  }

  predicate Affords(m: Meter, v: Visit, lim: Limits) {
    match v
    case Listing => m.directories + 1 <= lim.directories
    case Entry(opens, _, _) => opens.Some? ==> m.filesSeen + 1 <= lim.files && m.bytes + opens.value <= lim.totalBytes
  }

  function Spent(done: seq<Visit>): Meter {
    if done == [] then Meter(0, 0, 0, 0) else Spend(Spent(done[..|done| - 1]), done[|done| - 1])
  }

  function HitsOf(done: seq<Visit>): seq<Match> {
    if done == [] then []
    else HitsOf(done[..|done| - 1]) + if done[|done| - 1].Entry? then done[|done| - 1].hits else []
  }

  /** The budgets suffice for every step. */
  predicate Afforded(done: seq<Visit>, lim: Limits) {
    forall k :: 0 <= k < |done| ==> Affords(Spent(done[..k]), done[k], lim)
  }

  function Steps(spec: Spec, lim: Limits, root: Dir): seq<Visit> {
    Trace(spec, lim, [root])
  }

  /** When a search must report truncation: the cap is reached, or some step finds a budget too small. */
  ghost predicate Truncates(spec: Spec, lim: Limits, root: Dir) {
    |Everything(spec, lim, root)| >= spec.cap || !Afforded(Steps(spec, lim, root), lim)
  }

  /** When matches are missing: there are more than the cap, or one comes at or after a step that finds a budget too
      small. */
  ghost predicate Loses(spec: Spec, lim: Limits, root: Dir) {
    var t := Steps(spec, lim, root);
    || |Everything(spec, lim, root)| > spec.cap
    || exists j, k :: 0 <= k <= j < |t| && t[j].Entry? && t[j].hits != [] && !Affords(Spent(t[..k]), t[k], lim)
  }

  lemma OneMoreVisit(done: seq<Visit>, v: Visit, lim: Limits)
    ensures Spent(done + [v]) == Spend(Spent(done), v)
    ensures HitsOf(done + [v]) == HitsOf(done) + if v.Entry? then v.hits else []
    ensures Afforded(done + [v], lim) <==> Afforded(done, lim) && Affords(Spent(done), v, lim)
  {
    var all := done + [v];
    assert all[..|done|] == done;
    assert forall k :: 0 <= k < |done| ==> all[..k] == done[..k] && all[k] == done[k];
    if Afforded(all, lim) {
      forall k | 0 <= k < |done| ensures Affords(Spent(done[..k]), done[k], lim) {
        assert Affords(Spent(all[..k]), all[k], lim);
      }
      assert Affords(Spent(all[..|done|]), all[|done|], lim);
    }
  }

  lemma {:induction false} HitsOfConcat(a: seq<Visit>, b: seq<Visit>)
    ensures HitsOf(a + b) == HitsOf(a) + HitsOf(b)
  {
    if b == [] {
      assert a + b == a;
    } else {
      assert (a + b)[..|a + b| - 1] == a + b[..|b| - 1];
      HitsOfConcat(a, b[..|b| - 1]);
    }
  }

  lemma {:induction false} LooksHoldHits(spec: Spec, lim: Limits, d: Dir, items: seq<Item>)
    ensures HitsOf(Looks(spec, lim, d, items)) == Hits(spec, lim, d, items)
  {
    if items != [] {
      var v := Look(spec, lim, d, items[0]);
      LooksHoldHits(spec, lim, d, items[1..]);
      HitsOfConcat([v], Looks(spec, lim, d, items[1..]));
      assert HitsOf([v]) == v.hits by { assert [v][..0] == []; }
    }
  }

  lemma ListedHits(looks: seq<Visit>, rest: seq<Visit>)
    ensures HitsOf([Listing] + looks + rest) == HitsOf(looks) + HitsOf(rest)
  {
    assert HitsOf([Listing]) == [] by { assert [Listing][..0] == []; }
    hide HitsOf;
    HitsOfConcat([Listing], looks);
    HitsOfConcat([Listing] + looks, rest);
  }

  /** The steps hold the matches in breadth-first order. */
  lemma {:induction false} TraceHoldsBfs(spec: Spec, lim: Limits, q: seq<Dir>)
    ensures HitsOf(Trace(spec, lim, q)) == Bfs(spec, lim, q)
    decreases QueueSize(q)
  {
    if q != [] {
      NextIsSmaller(spec, q);
      var looks, rest := Looks(spec, lim, q[0], Items(q[0].node)), Trace(spec, lim, Next(spec, q));
      TraceHoldsBfs(spec, lim, Next(spec, q));
      LooksHoldHits(spec, lim, q[0], Items(q[0].node));
      assert Trace(spec, lim, q) == [Listing] + looks + rest;
      assert Bfs(spec, lim, q) == Hits(spec, lim, q[0], Items(q[0].node)) + Bfs(spec, lim, Next(spec, q));
      hide HitsOf, Looks, Hits, Next, Bfs, Trace;
      ListedHits(looks, rest);
    }
  }

  // ---------- where a scan stops ----------

  /** The scan got through all steps of upto and stopped: with the cap reached, or before a step no budget is left
      for. */
  ghost predicate StoppedAfter(spec: Spec, lim: Limits, all: seq<Visit>, upto: seq<Visit>, matches: seq<Match>) {
    && upto <= all && Afforded(upto, lim) && matches <= HitsOf(upto)
    && (|matches| == spec.cap
        || (|matches| < spec.cap && matches == HitsOf(upto) && |upto| < |all|
          && !Affords(Spent(upto), all[|upto|], lim)))
  }

  lemma StoppedInside(spec: Spec, lim: Limits, part: seq<Visit>, all: seq<Visit>, upto: seq<Visit>, matches: seq<Match>)
    requires part <= all && StoppedAfter(spec, lim, part, upto, matches)
    ensures StoppedAfter(spec, lim, all, upto, matches)
  {
  }

  lemma {:induction false} NoHits(done: seq<Visit>)
    ensures HitsOf(done) == [] <==> forall j :: 0 <= j < |done| && done[j].Entry? ==> done[j].hits == []
  {
    if done != [] {
      var s := done[..|done| - 1];
      NoHits(s);
      assert forall j :: 0 <= j < |s| ==> s[j] == done[j];
    }
  }

  /** A scan that ran through: nothing is truncated and nothing lost. */
  lemma RanThrough(spec: Spec, lim: Limits, root: Dir, matches: seq<Match>)
    requires matches == HitsOf(Steps(spec, lim, root)) && |matches| < spec.cap && Afforded(Steps(spec, lim, root), lim)
    ensures matches == Everything(spec, lim, root) && !Truncates(spec, lim, root) && !Loses(spec, lim, root)
  {
    hide Trace, Bfs, Affords, Spent, HitsOf;
    TraceHoldsBfs(spec, lim, [root]);
    var t := Steps(spec, lim, root);
    assert forall k :: 0 <= k < |t| ==> Affords(Spent(t[..k]), t[k], lim);
  }

  /** A scan that stopped: truncation is due, and matches are missing exactly when the condition for a loss holds. */
  lemma StoppedFacts(spec: Spec, lim: Limits, root: Dir, upto: seq<Visit>, matches: seq<Match>)
    requires StoppedAfter(spec, lim, Steps(spec, lim, root), upto, matches)
    ensures matches <= Everything(spec, lim, root) && Truncates(spec, lim, root)
    ensures matches != Everything(spec, lim, root) <==> Loses(spec, lim, root)
  {
    hide Trace, Bfs, Affords, Spent, HitsOf;
    TraceHoldsBfs(spec, lim, [root]);
    var t := Steps(spec, lim, root);
    var rest := t[|upto|..];
    assert t == upto + rest;
    HitsOfConcat(upto, rest);
    NoHits(rest);
    assert forall j :: 0 <= j < |rest| ==> rest[j] == t[|upto| + j];
    assert forall k :: 0 <= k < |upto| ==> t[..k] == upto[..k] && t[k] == upto[k];
    var n := |upto|;
    assert forall k :: 0 <= k < n ==> Affords(Spent(t[..k]), t[k], lim);
    if n < |t| && !Affords(Spent(upto), t[n], lim) {
      assert t[..n] == upto && !Affords(Spent(t[..n]), t[n], lim);
    }
    if j, k :| 0 <= k <= j < |t| && t[j].Entry? && t[j].hits != [] && !Affords(Spent(t[..k]), t[k], lim) {
      assert rest[j - n] == t[j];
      assert HitsOf(rest) != [];
    }
    if HitsOf(rest) != [] && |matches| < spec.cap {
      var j :| 0 <= j < |rest| && rest[j].Entry? && rest[j].hits != [];
      assert t[n + j] == rest[j] && n < |t|;
    }
  }

  /** find spends directories only, so its budgets suffice exactly when there are not too many of them. */
  lemma {:induction false} FindSpendsDirectories(spec: Spec, lim: Limits, q: seq<Dir>)
    requires !spec.search
    ensures Afforded(Trace(spec, lim, q), lim) <==> Listings(Trace(spec, lim, q)) <= lim.directories
  {
    FindOpensNothing(spec, lim, q);
    CountsListings(Trace(spec, lim, q), lim);
  }

  function Listings(done: seq<Visit>): nat {
    if done == [] then 0 else Listings(done[..|done| - 1]) + if done[|done| - 1].Listing? then 1 else 0
  }

  lemma {:induction false} FindOpensNothing(spec: Spec, lim: Limits, q: seq<Dir>)
    requires !spec.search
    ensures forall v :: v in Trace(spec, lim, q) ==> v.Listing? || v.opens.None?
    decreases QueueSize(q)
  {
    if q != [] {
      NextIsSmaller(spec, q);
      FindOpensNothing(spec, lim, Next(spec, q));
      LooksOpenNothing(spec, lim, q[0], Items(q[0].node));
    }
  }

  lemma {:induction false} LooksOpenNothing(spec: Spec, lim: Limits, d: Dir, items: seq<Item>)
    requires !spec.search
    ensures forall v :: v in Looks(spec, lim, d, items) ==> v.Entry? && v.opens.None?
  {
    if items != [] { LooksOpenNothing(spec, lim, d, items[1..]); }
  }

  lemma {:induction false} CountsListings(done: seq<Visit>, lim: Limits)
    requires forall v :: v in done ==> v.Listing? || v.opens.None?
    ensures Spent(done).directories == Listings(done)
    ensures Afforded(done, lim) <==> Listings(done) <= lim.directories
  {
    if done != [] {
      var s, v := done[..|done| - 1], done[|done| - 1];
      CountsListings(s, lim);
      assert done == s + [v];
      OneMoreVisit(s, v, lim);
    }
  }

  /** Each file fits into what the decoded ones before it leave of the byte budget. */
  ghost predicate BytesFit(done: seq<Visit>, lim: Limits) {
    forall k :: 0 <= k < |done| && done[k].Entry? && done[k].opens.Some? ==>
      Spent(done[..k]).bytes + done[k].opens.value <= lim.totalBytes
  }

  lemma AffordedStep(s: seq<Visit>, v: Visit, lim: Limits)
    ensures Afforded(s + [v], lim) <==> Afforded(s, lim) && Affords(Spent(s), v, lim)
  {
    var done := s + [v];
    hide Affords, Spent;
    assert done[..|s|] == s && done[|s|] == v;
    assert forall k :: 0 <= k < |s| ==> done[..k] == s[..k] && done[k] == s[k];
  }

  lemma BytesFitStep(s: seq<Visit>, v: Visit, lim: Limits)
    ensures BytesFit(s + [v], lim) <==>
      BytesFit(s, lim) && (v.Entry? && v.opens.Some? ==> Spent(s).bytes + v.opens.value <= lim.totalBytes)
  {
    var done := s + [v];
    hide Spent;
    assert done[..|s|] == s && done[|s|] == v;
    assert forall k :: 0 <= k < |s| ==> done[..k] == s[..k] && done[k] == s[k];
  }

  lemma {:induction false} AffordedIff(done: seq<Visit>, lim: Limits)
    ensures Afforded(done, lim) <==>
      Spent(done).directories <= lim.directories && Spent(done).filesSeen <= lim.files && BytesFit(done, lim)
  {
    if done == [] {
      assert Afforded(done, lim) && BytesFit(done, lim);
    } else {
      var s, v := done[..|done| - 1], done[|done| - 1];
      AffordedIff(s, lim);
      assert done == s + [v];
      AffordedStep(s, v, lim);
      BytesFitStep(s, v, lim);
      OneMoreVisit(s, v, lim);
      hide Spent, Afforded, BytesFit;
      AffordsIff(Spent(s), v, lim);
      hide Affords, Spend;
    }
  }

  lemma AffordsIff(m: Meter, v: Visit, lim: Limits)
    ensures var after := Spend(m, v);
      m.directories <= lim.directories && m.filesSeen <= lim.files && Affords(m, v, lim) <==>
        (after.directories <= lim.directories && after.filesSeen <= lim.files
         && (v.Entry? && v.opens.Some? ==> m.bytes + v.opens.value <= lim.totalBytes))
  {
  }

  /** When every file that is opened decodes, the byte budget suffices exactly if it covers them all. */
  lemma {:induction false} BytesFitIff(done: seq<Visit>, lim: Limits)
    ensures Spent(done).filesScanned <= Spent(done).filesSeen
    ensures Spent(done).filesScanned == Spent(done).filesSeen ==>
      (BytesFit(done, lim) <==> Spent(done).bytes <= lim.totalBytes)
  {
    if done == [] {
      assert BytesFit(done, lim);
    } else {
      var s, v := done[..|done| - 1], done[|done| - 1];
      BytesFitIff(s, lim);
      assert done == s + [v];
      BytesFitStep(s, v, lim);
      OneMoreVisit(s, v, lim);
      hide Spent, BytesFit;
      BytesAfter(Spent(s), v);
    }
  }

  lemma BytesAfter(m: Meter, v: Visit)
    requires m.filesScanned <= m.filesSeen
    ensures var after := Spend(m, v);
      && after.filesScanned <= after.filesSeen && m.bytes <= after.bytes
      && (after.filesScanned == after.filesSeen ==>
            && m.filesScanned == m.filesSeen
            && after.bytes == m.bytes + if v.Entry? && v.opens.Some? then v.opens.value else 0)
  {
  }

  /** One file, and a cap of one: truncation is reported and nothing is missing. */
  lemma TruncatedWithoutLoss(lim: Limits)
    requires lim.directories >= 1
    ensures var spec := Spec(false, 1, 1, _ => true, _ => true, _ => true, _ => true);
      var root := Dir("r", 0, Directory(true, [Item("a", File(0, NotUtf8))]));
      Truncates(spec, lim, root) && !Loses(spec, lim, root)
  {
    var spec := Spec(false, 1, 1, _ => true, _ => true, _ => true, _ => true);
    var items := [Item("a", File(0, NotUtf8))];
    var root := Dir("r", 0, Directory(true, items));
    assert items[1..] == [];
    assert Subdirs(spec, root, items) == [] by { assert Subdirs(spec, root, []) == []; }
    assert Next(spec, [root]) == [];
    assert Trace(spec, lim, []) == [] && Bfs(spec, lim, []) == [];
    assert Looks(spec, lim, root, items) == [Look(spec, lim, root, items[0])];
    assert Hits(spec, lim, root, items) == [PathMatch(Join("r", "a"), false, 1)];
    FindSpendsDirectories(spec, lim, [root]);
    var t := Steps(spec, lim, root);
    assert t == [Listing, Look(spec, lim, root, items[0])];
    assert Listings(t) == 1 by { assert t[..1] == [Listing] && [Listing][..0] == []; }
  }

  /** The same matches counted without any queue: a directory's own, then those of each subdirectory it admits. */
  function Below(spec: Spec, lim: Limits, d: Dir): multiset<Match>
    decreases d.node, 1, 0
  {
    multiset(Hits(spec, lim, d, Items(d.node))) + BelowItems(spec, lim, d, Items(d.node))
  }

  function BelowItems(spec: Spec, lim: Limits, d: Dir, items: seq<Item>): multiset<Match>
    requires forall i :: 0 <= i < |items| ==> items[i].node < d.node
    decreases d.node, 0, |items|
  {
    if items == [] then multiset{}
    else
      var sub := ItemDirs(spec, d, items[0]);
      (if sub == [] then multiset{} else Below(spec, lim, sub[0])) + BelowItems(spec, lim, d, items[1..])
  }

  function BelowAll(spec: Spec, lim: Limits, q: seq<Dir>): multiset<Match> {
    if q == [] then multiset{} else Below(spec, lim, q[0]) + BelowAll(spec, lim, q[1..])
  }

  // ---------- the scan ----------

  /** Nothing below raises: every directory can be listed and every file opened. */
  predicate Clean(n: Node) {
    && (n.Directory? ==> n.listable && forall i :: 0 <= i < |n.items| ==> Clean(n.items[i].node))
    && (n.File? ==> !n.content.Denied?)
  }

  predicate Within(m: Meter, lim: Limits) {
    m.filesScanned <= m.filesSeen <= lim.files && m.bytes <= lim.totalBytes && m.directories <= lim.directories
  }

  method ScanLines(spec: Spec, path: string, lines: seq<string>, before: seq<Match>)
    returns (matches: seq<Match>, truncated: bool)
    requires |before| < spec.cap
    ensures truncated ==> |matches| == spec.cap && matches <= before + LineHits(spec, path, lines, 1)
    ensures !truncated ==> |matches| < spec.cap && matches == before + LineHits(spec, path, lines, 1)
  {
    matches, truncated := before, false;
    var i := 0;
    while i < |lines|
      invariant 0 <= i <= |lines| && |matches| < spec.cap && !truncated
      invariant matches + LineHits(spec, path, lines[i..], i + 1) == before + LineHits(spec, path, lines, 1)
    {
      assert lines[i..][1..] == lines[i + 1..];
      ghost var rest := LineHits(spec, path, lines[i + 1..], i + 2);
      if spec.lineHit(lines[i]) {
        assert matches + ([LineMatch(path, i + 1, lines[i])] + rest) ==
          matches + [LineMatch(path, i + 1, lines[i])] + rest;
        matches := matches + [LineMatch(path, i + 1, lines[i])];
        if |matches| >= spec.cap {
          return matches, true;
        }
      }
      i := i + 1;
    }
  }

  /** The part of the entry loop that looks inside one allowed regular file, for a search. A file no budget is left
      for is still counted as seen, up to the limit. */
  method ScanFile(spec: Spec, lim: Limits, d: Dir, item: Item, before: seq<Match>, meter: Meter)
    returns (failed: bool, matches: seq<Match>, m: Meter, truncated: bool)
    requires |before| < spec.cap && Within(meter, lim) && item.node.File? && spec.search
    requires spec.allowed(Join(d.path, item.name))
    ensures Within(m, lim)
    ensures failed ==> !Clean(item.node)
    ensures !failed && !Affords(meter, Look(spec, lim, d, item), lim) ==> truncated && matches == before
    ensures !failed && Affords(meter, Look(spec, lim, d, item), lim) ==>
              && m == Spend(meter, Look(spec, lim, d, item))
              && matches <= before + ItemHits(spec, lim, d, item)
              && if truncated then |matches| == spec.cap
                 else |matches| < spec.cap && matches == before + ItemHits(spec, lim, d, item)
  {
    failed, matches, m, truncated := false, before, meter, false;
    if !spec.fileGlob(item.name) || item.node.size > lim.fileBytes {
      return;
    }
    if m.filesSeen + 1 > lim.files || m.bytes + item.node.size > lim.totalBytes {
      m := m.(filesSeen := if m.filesSeen + 1 > lim.files then lim.files else m.filesSeen + 1);
      truncated := true;
      return;
    }
    m := m.(filesSeen := m.filesSeen + 1);
    match item.node.content {
      case Denied => failed := true;
      case NotRegular =>
      case TooLong =>
      case NotUtf8 =>
      case Text(lines) =>
        m := m.(filesScanned := m.filesScanned + 1, bytes := m.bytes + item.node.size);
        matches, truncated := ScanLines(spec, Join(d.path, item.name), lines, matches);
    }
  }

  /** What the loop does with one entry. */
  method VisitEntry(spec: Spec, lim: Limits, d: Dir, item: Item, queue: seq<Dir>, before: seq<Match>, meter: Meter)
    returns (failed: bool, matches: seq<Match>, directories: seq<Dir>, m: Meter, truncated: bool)
    requires |before| < spec.cap && Within(meter, lim)
    ensures Within(m, lim)
    ensures failed ==> !Clean(item.node)
    ensures !failed && !Affords(meter, Look(spec, lim, d, item), lim) ==> truncated && matches == before
    ensures !failed && Affords(meter, Look(spec, lim, d, item), lim) ==>
              && m == Spend(meter, Look(spec, lim, d, item))
              && matches <= before + ItemHits(spec, lim, d, item)
              && if truncated then |matches| == spec.cap
                 else |matches| < spec.cap && matches == before + ItemHits(spec, lim, d, item)
    ensures !failed && !truncated ==> directories == queue + ItemDirs(spec, d, item)
  {
    hide Clean, LineHits, Within;
    failed, matches, directories, m, truncated := false, before, queue, meter, false;
    var path := Join(d.path, item.name);
    if !spec.allowed(path) || item.node.Symlink? || item.node.Special? {
      return;
    }
    if !spec.search {
      var entryDepth := d.depth + 1;
      if entryDepth <= spec.maxDepth && spec.nameHit(item.name) {
        matches := matches + [PathMatch(path, item.node.Directory?, entryDepth)];
        if |matches| >= spec.cap {
          truncated := true;
          return;
        }
      }
      if item.node.Directory? && entryDepth < spec.maxDepth {
        directories := directories + [Dir(path, entryDepth, item.node)];
      }
      return;
    }
    if item.node.Directory? {
      directories := directories + [Dir(path, d.depth + 1, item.node)];
      return;
    }
    failed, matches, m, truncated := ScanFile(spec, lim, d, item, matches, m);
  }

  /** The loop over one directory's entries. done are the steps so far, upto those the loop got through. */
  method ScanEntries(spec: Spec, lim: Limits, d: Dir, queue: seq<Dir>, before: seq<Match>, meter: Meter,
                     ghost done: seq<Visit>)
    returns (failed: bool, matches: seq<Match>, directories: seq<Dir>, m: Meter, truncated: bool,
             ghost upto: seq<Visit>)
    requires |before| < spec.cap && Within(meter, lim) && d.node.Directory?
    requires before == HitsOf(done) && meter == Spent(done) && Afforded(done, lim)
    ensures Within(m, lim)
    ensures failed ==> !Clean(d.node)
    ensures !failed && truncated ==> StoppedAfter(spec, lim, done + Looks(spec, lim, d, d.node.items), upto, matches)
    ensures !failed && !truncated ==> upto == done + Looks(spec, lim, d, d.node.items)
    ensures !failed && !truncated ==>
              |matches| < spec.cap && matches == HitsOf(upto) && m == Spent(upto) && Afforded(upto, lim)
    ensures !failed && !truncated ==> directories == queue + Subdirs(spec, d, d.node.items)
  {
    hide Clean, Within, Subdirs, Looks, ItemHits, ItemDirs, Affords, Spend, Spent, HitsOf, Afforded;
    failed, matches, directories, m, truncated := false, before, queue, meter, false;
    var items := d.node.items;
    upto := done;
    ghost var all := done + Looks(spec, lim, d, items);
    NoEntries(spec, lim, d);
    assert items[|items|..] == [] && items[0..] == items;
    var i := 0;
    while i < |items|
      invariant 0 <= i <= |items| && Within(m, lim) && |matches| < spec.cap && !truncated && !failed
      invariant upto + Looks(spec, lim, d, items[i..]) == all
      invariant matches == HitsOf(upto) && m == Spent(upto) && Afforded(upto, lim)
      invariant directories + Subdirs(spec, d, items[i..]) == queue + Subdirs(spec, d, items)
    {
      ghost var v := Look(spec, lim, d, items[i]);
      OneEntry(spec, lim, d, items, i, upto, directories);
      OneMoreVisit(upto, v, lim);
      failed, matches, directories, m, truncated := VisitEntry(spec, lim, d, items[i], directories, matches, m);
      if failed {
        DirtyEntry(d.node, i);
        break;
      }
      if Affords(Spent(upto), v, lim) {
        upto := upto + [v];
      }
      if truncated {
        break;
      }
      i := i + 1;
    }
  }

  lemma DirtyEntry(n: Node, i: nat)
    requires n.Directory? && i < |n.items| && !Clean(n.items[i].node)
    ensures !Clean(n)
  {
  }

  /** Handling entry i moves it from the steps to come to those done. */
  lemma OneEntry(spec: Spec, lim: Limits, d: Dir, items: seq<Item>, i: nat, done: seq<Visit>, ds: seq<Dir>)
    requires i < |items|
    ensures done + Looks(spec, lim, d, items[i..])
         == done + [Look(spec, lim, d, items[i])] + Looks(spec, lim, d, items[i + 1..])
    ensures ds + Subdirs(spec, d, items[i..]) == ds + ItemDirs(spec, d, items[i]) + Subdirs(spec, d, items[i + 1..])
  {
    hide ItemDirs, Look;
    assert items[i..][1..] == items[i + 1..];
  }

  lemma NoEntries(spec: Spec, lim: Limits, d: Dir)
    ensures Looks(spec, lim, d, []) == [] && Subdirs(spec, d, []) == []
  {
  }

  /** Whatever the tree: the matches are a prefix of the search without budgets; truncation is reported exactly when
      the cap is reached or a budget is too small; matches are missing exactly when more than the cap exist or one
      comes too late for a budget. */
  method Scan(spec: Spec, lim: Limits, root: Dir) returns (r: Outcome)
    requires spec.cap >= 1 && root.node.Directory?
    ensures Clean(root.node) ==> r.Scanned?
    ensures r.Scanned? ==> r.matches <= Everything(spec, lim, root)
    ensures r.Scanned? ==> (r.truncated <==> Truncates(spec, lim, root))
    ensures r.Scanned? ==> (r.matches == Everything(spec, lim, root) <==> !Loses(spec, lim, root))
    ensures r.Scanned? && !r.truncated ==> multiset(r.matches) == Below(spec, lim, root)
    ensures r.Scanned? && !r.truncated ==>
              Meter(r.directories, r.filesSeen, r.filesScanned, r.bytes) == Spent(Steps(spec, lim, root))
    ensures r.Scanned? && !spec.search ==> DepthSorted(r.matches, root.depth + 1)
    ensures r.Scanned? ==> |r.matches| <= spec.cap && r.directories <= lim.directories
    ensures r.Scanned? ==> r.filesScanned <= r.filesSeen <= lim.files && r.bytes <= lim.totalBytes
  {
    hide Below, BelowAll, DepthSorted, Subdirs, Looks, Affords, HitsOf, Afforded, Truncates, Loses;
    var directories := [root];
    var meter := Meter(0, 0, 0, 0);
    var matches: seq<Match> := [];
    var truncated := false;
    ghost var all := Steps(spec, lim, root);
    ghost var done: seq<Visit> := [];
    ghost var upto: seq<Visit> := [];
    NothingDone(lim);
    while directories != [] && |matches| < spec.cap
      invariant !truncated && |matches| < spec.cap && Within(meter, lim)
      invariant done + Trace(spec, lim, directories) == all
      invariant matches == HitsOf(done) && meter == Spent(done) && Afforded(done, lim)
      invariant forall d :: d in directories ==> d.node.Directory?
      invariant Clean(root.node) ==> forall d :: d in directories ==> Clean(d.node)
      decreases QueueSize(directories)
    {
      NextIsSmaller(spec, directories);
      var current := directories[0];
      ghost var looks, rest := Looks(spec, lim, current, current.node.items), Trace(spec, lim, Next(spec, directories));
      Ahead(done, looks, rest);
      ListingStep(done, lim);
      if meter.directories >= lim.directories {
        upto, truncated := done, true;
        break;
      }
      done := done + [Listing];
      meter := meter.(directories := meter.directories + 1);
      if !current.node.listable {
        return Failed;
      }
      SubdirsAreDirectories(spec, current, current.node.items);
      var failed;
      failed, matches, directories, meter, truncated, upto :=
        ScanEntries(spec, lim, current, directories[1..], matches, meter, done);
      if failed {
        return Failed;
      }
      if truncated {
        StoppedInside(spec, lim, done + looks, all, upto, matches);
        break;
      }
      done := upto;
    }
    if truncated {
      StoppedFacts(spec, lim, root, upto, matches);
    } else {
      assert done == all;
      RanThrough(spec, lim, root, matches);
    }
    BfsFacts(spec, lim, root, matches);
    r := Scanned(matches, truncated, meter.directories, meter.filesSeen, meter.filesScanned, meter.bytes);
  }

  lemma NothingDone(lim: Limits)
    ensures HitsOf([]) == [] && Spent([]) == Meter(0, 0, 0, 0) && Afforded([], lim)
  {
  }

  /** The steps ahead start with the listing of the first directory. */
  lemma Ahead(done: seq<Visit>, looks: seq<Visit>, rest: seq<Visit>)
    ensures done + ([Listing] + looks + rest) == done + [Listing] + looks + rest
    ensures (done + ([Listing] + looks + rest))[|done|] == Listing
    ensures done + [Listing] + looks <= done + ([Listing] + looks + rest) && done <= done + ([Listing] + looks + rest)
  {
  }

  lemma ListingStep(done: seq<Visit>, lim: Limits)
    ensures HitsOf(done + [Listing]) == HitsOf(done)
    ensures Spent(done + [Listing]) == Spent(done).(directories := Spent(done).directories + 1)
    ensures Afforded(done + [Listing], lim) <==> Afforded(done, lim) && Spent(done).directories < lim.directories
    ensures Affords(Spent(done), Listing, lim) <==> Spent(done).directories < lim.directories
  {
    OneMoreVisit(done, Listing, lim);
  }

  lemma {:induction false} SubdirsAreDirectories(spec: Spec, d: Dir, items: seq<Item>)
    ensures forall s :: s in Subdirs(spec, d, items) ==> s.node.Directory? && s.depth == d.depth + 1
    ensures (forall x :: x in items ==> Clean(x.node)) ==> forall s :: s in Subdirs(spec, d, items) ==> Clean(s.node)
  {
    if items != [] {
      SubdirsAreDirectories(spec, d, items[1..]);
      assert items[0] in items;
      assert forall x :: x in items[1..] ==> x in items;
    }
  }

  lemma BfsFacts(spec: Spec, lim: Limits, root: Dir, matches: seq<Match>)
    requires matches <= Everything(spec, lim, root)
    ensures multiset(Everything(spec, lim, root)) == Below(spec, lim, root)
    ensures !spec.search ==> DepthSorted(matches, root.depth + 1)
  {
    BfsIsEverythingBelow(spec, lim, [root]);
    assert BelowAll(spec, lim, [root]) == Below(spec, lim, root);
    if !spec.search {
      FindGoesDeeperOnly(spec, lim, [root], root.depth + 1);
      PrefixDepthSorted(matches, Everything(spec, lim, root), root.depth + 1);
    }
  }

  lemma PrefixDepthSorted(a: seq<Match>, b: seq<Match>, least: nat)
    requires a <= b && DepthSorted(b, least)
    ensures DepthSorted(a, least)
  {
    assert forall i :: 0 <= i < |a| ==> a[i] == b[i];
  }

  // ---------- what the breadth-first order promises ----------

  /** Breadth first visits what a plain recursive descent visits, each match as often. */
  lemma {:induction false} BfsIsEverythingBelow(spec: Spec, lim: Limits, q: seq<Dir>)
    ensures multiset(Bfs(spec, lim, q)) == BelowAll(spec, lim, q)
    decreases QueueSize(q)
  {
    if q != [] {
      NextIsSmaller(spec, q);
      BfsIsEverythingBelow(spec, lim, Next(spec, q));
      BelowAllConcat(spec, lim, q[1..], Subdirs(spec, q[0], Items(q[0].node)));
      SubdirsHoldTheRest(spec, lim, q[0], Items(q[0].node));
    }
  }

  lemma {:induction false} BelowAllConcat(spec: Spec, lim: Limits, a: seq<Dir>, b: seq<Dir>)
    ensures BelowAll(spec, lim, a + b) == BelowAll(spec, lim, a) + BelowAll(spec, lim, b)
  {
    if a == [] {
      assert a + b == b;
    } else {
      assert (a + b)[1..] == a[1..] + b;
      BelowAllConcat(spec, lim, a[1..], b);
    }
  }

  lemma {:induction false} SubdirsHoldTheRest(spec: Spec, lim: Limits, d: Dir, items: seq<Item>)
    requires forall i :: 0 <= i < |items| ==> items[i].node < d.node
    ensures BelowItems(spec, lim, d, items) == BelowAll(spec, lim, Subdirs(spec, d, items))
  {
    if items != [] {
      forall i | 0 <= i < |items[1..]| ensures items[1..][i].node < d.node { assert items[1..][i] == items[i + 1]; }
      SubdirsHoldTheRest(spec, lim, d, items[1..]);
      BelowAllConcat(spec, lim, ItemDirs(spec, d, items[0]), Subdirs(spec, d, items[1..]));
      var sub := ItemDirs(spec, d, items[0]);
      if sub != [] { assert sub[1..] == []; }
    }
  }

  /** The breadth-first queue: no directory is shallower than the first, and none more than one level deeper. */
  ghost predicate Layered(q: seq<Dir>) {
    forall i, j :: 0 <= i < j < |q| ==> q[i].depth <= q[j].depth <= q[i].depth + 1
  }

  ghost predicate DepthSorted(ms: seq<Match>, least: nat) {
    && (forall i :: 0 <= i < |ms| ==> ms[i].PathMatch? && ms[i].depth >= least)
    && (forall i, j :: 0 <= i < j < |ms| ==> ms[i].depth <= ms[j].depth)
  }

  lemma NextStaysLayered(spec: Spec, q: seq<Dir>)
    requires q != [] && Layered(q)
    ensures Layered(Next(spec, q)) && forall d :: d in Next(spec, q) ==> d.depth >= q[0].depth
  {
    var subs := Subdirs(spec, q[0], Items(q[0].node));
    SubdirsAreDirectories(spec, q[0], Items(q[0].node));
    var n := Next(spec, q);
    forall i, j | 0 <= i < j < |n| ensures n[i].depth <= n[j].depth <= n[i].depth + 1 {
      assert j < |q| - 1 ==> n[j] == q[j + 1];
      assert i < |q| - 1 ==> n[i] == q[i + 1];
      assert i >= |q| - 1 ==> n[i] in subs;
      assert j >= |q| - 1 ==> n[j] in subs;
    }
    forall i | 0 <= i < |n| ensures n[i].depth >= q[0].depth {
      if i < |q| - 1 { assert n[i] == q[i + 1]; } else { assert n[i] in subs; }
    }
  }

  /** find reports shallow paths first. */
  lemma {:induction false} FindGoesDeeperOnly(spec: Spec, lim: Limits, q: seq<Dir>, least: nat)
    requires !spec.search && Layered(q) && (q != [] ==> least == q[0].depth + 1)
    ensures DepthSorted(Bfs(spec, lim, q), least)
    decreases QueueSize(q)
  {
    if q != [] {
      var d, n := q[0], Next(spec, q);
      NextIsSmaller(spec, q);
      NextStaysLayered(spec, q);
      HitsAreChildren(spec, lim, d, Items(d.node));
      hide Hits, Subdirs, ItemHits, NodeSize;
      FindGoesDeeperOnly(spec, lim, n, if n == [] then least else n[0].depth + 1);
      DepthSortedConcat(Hits(spec, lim, d, Items(d.node)), Bfs(spec, lim, n), least);
    }
  }

  lemma DepthSortedConcat(a: seq<Match>, b: seq<Match>, least: nat)
    requires forall i :: 0 <= i < |a| ==> a[i].PathMatch? && a[i].depth == least
    requires DepthSorted(b, least)
    ensures DepthSorted(a + b, least)
  {
  }

  lemma {:induction false} HitsAreChildren(spec: Spec, lim: Limits, d: Dir, items: seq<Item>)
    requires !spec.search
    ensures forall i :: 0 <= i < |Hits(spec, lim, d, items)| ==>
              Hits(spec, lim, d, items)[i].PathMatch? && Hits(spec, lim, d, items)[i].depth == d.depth + 1
  {
    if items != [] { HitsAreChildren(spec, lim, d, items[1..]); }
  }
}
