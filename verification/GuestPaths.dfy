/** What a search finds, said over the paths of the tree: a path is the indices of the items it goes through. */
module GuestPaths {
  import opened Options
  import opened GuestSearch

  type Path = seq<nat>

  // ---------- paths ----------

  /** The path exists: every index is that of an item, and only directories have items. */
  predicate Exists(n: Node, p: Path) {
    p == [] || (p[0] < |Items(n)| && Exists(Items(n)[p[0]].node, p[1..]))
  }

  function NodeAt(n: Node, p: Path): Node
    requires Exists(n, p)
  {
    if p == [] then n else NodeAt(Items(n)[p[0]].node, p[1..])
  }

  /** The text of the path below the given one. */
  function TextOf(text: string, n: Node, p: Path): string
    requires Exists(n, p)
    decreases |p|
  {
    if p == [] then text else TextOf(Join(text, Items(n)[p[0]].name), Items(n)[p[0]].node, p[1..])
  }

  lemma {:induction false} PrefixExists(n: Node, p: Path, j: nat)
    requires Exists(n, p) && j <= |p|
    ensures Exists(n, p[..j])
  {
    if j > 0 {
      PrefixExists(Items(n)[p[0]].node, p[1..], j - 1);
      assert p[..j][1..] == p[1..][..j - 1];
    }
  }

  function NameOf(n: Node, p: Path): string
    requires Exists(n, p) && p != []
  {
    if |p| == 1 then Items(n)[p[0]].name else NameOf(Items(n)[p[0]].node, p[1..])
  }

  /** From the root down to the last item but one, everything on the path is an allowed directory. */
  predicate LeadsOn(spec: Spec, root: Dir, p: Path) {
    && p != [] && Exists(root.node, p)
    && forall j :: 0 < j < |p| ==>
         && Exists(root.node, p[..j]) && NodeAt(root.node, p[..j]).Directory?
         && spec.allowed(TextOf(root.path, root.node, p[..j]))
  }

  /** find reports the path as m. */
  predicate FindsAt(spec: Spec, root: Dir, p: Path, m: Match) {
    && LeadsOn(spec, root, p) && root.depth + |p| <= spec.maxDepth
    && var n := NodeAt(root.node, p);
       && (n.Directory? || n.File?)
       && spec.allowed(TextOf(root.path, root.node, p)) && spec.nameHit(NameOf(root.node, p))
       && m == PathMatch(TextOf(root.path, root.node, p), n.Directory?, root.depth + |p|)
  }

  /** search looks into the file at the path. */
  predicate OpensAt(spec: Spec, lim: Limits, root: Dir, p: Path) {
    && LeadsOn(spec, root, p)
    && var n := NodeAt(root.node, p);
       && n.File? && spec.allowed(TextOf(root.path, root.node, p))
       && spec.fileGlob(NameOf(root.node, p)) && n.size <= lim.fileBytes
  }

  /** search reports a line of the file at the path as m. */
  predicate SearchesAt(spec: Spec, lim: Limits, root: Dir, p: Path, m: Match) {
    && OpensAt(spec, lim, root, p) && m.LineMatch? && m.path == TextOf(root.path, root.node, p)
    && var n := NodeAt(root.node, p);
       && n.content.Text? && 1 <= m.number <= |n.content.lines|
       && n.content.lines[m.number - 1] == m.line && spec.lineHit(m.line)
  }

  predicate ReportsAt(spec: Spec, lim: Limits, root: Dir, p: Path, m: Match) {
    if spec.search then SearchesAt(spec, lim, root, p, m) else FindsAt(spec, root, p, m)
  }

  /** A directory below the root that is listed in its turn. */
  predicate ListsAt(spec: Spec, root: Dir, p: Path) {
    && LeadsOn(spec, root, p) && NodeAt(root.node, p).Directory? && spec.allowed(TextOf(root.path, root.node, p))
    && (spec.search || root.depth + |p| < spec.maxDepth)
  }

  // ---------- sums over all paths ----------

  /** The sum of f over every path below n. */
  function SumPaths(n: Node, f: Path -> nat): nat
    decreases n, |Items(n)| + 1
  {
    SumFrom(n, 0, f)
  }

  function SumFrom(n: Node, i: nat, f: Path -> nat): nat
    requires i <= |Items(n)|
    decreases n, |Items(n)| - i
  {
    if i == |Items(n)| then 0
    else f([i]) + SumPaths(Items(n)[i].node, Under(f, i)) + SumFrom(n, i + 1, f)
  }

  /** The function on the paths below one item. */
  function Under(f: Path -> nat, i: nat): Path -> nat {
    (p: Path) => f([i] + p)
  }

  lemma {:induction false} SumSame(n: Node, f: Path -> nat, g: Path -> nat)
    requires forall p :: p != [] && Exists(n, p) ==> f(p) == g(p)
    ensures SumPaths(n, f) == SumPaths(n, g)
    decreases n, |Items(n)| + 1
  {
    SumFromSame(n, 0, f, g);
  }

  lemma {:induction false} SumFromSame(n: Node, i: nat, f: Path -> nat, g: Path -> nat)
    requires i <= |Items(n)| && forall p :: p != [] && Exists(n, p) ==> f(p) == g(p)
    ensures SumFrom(n, i, f) == SumFrom(n, i, g)
    decreases n, |Items(n)| - i
  {
    if i < |Items(n)| {
      forall p | Exists(Items(n)[i].node, p) ensures f([i] + p) == g([i] + p) {
        assert ([i] + p)[1..] == p;
      }
      assert [i][1..] == [];
      assert [i] + [] == [i];
      SumSame(Items(n)[i].node, Under(f, i), Under(g, i));
      SumFromSame(n, i + 1, f, g);
    }
  }

  lemma {:induction false} SumZero(n: Node, i: nat)
    requires i <= |Items(n)|
    ensures SumFrom(n, i, Zero()) == 0
    decreases n, |Items(n)| - i
  {
    if i < |Items(n)| {
      var zero := Zero();
      SumZero(Items(n)[i].node, 0);
      SumSame(Items(n)[i].node, Under(zero, i), zero);
      SumZero(n, i + 1);
    }
  }

  /** A sum is positive exactly if some path contributes. */
  lemma SumPositive(n: Node, f: Path -> nat)
    ensures SumPaths(n, f) > 0 <==> exists p :: p != [] && Exists(n, p) && f(p) > 0
  {
    if SumPaths(n, f) > 0 {
      var p := Contributor(n, 0, f);
    }
    if p :| p != [] && Exists(n, p) && f(p) > 0 { Contributes(n, 0, f, p); }
  }

  lemma {:induction false} Contributor(n: Node, i: nat, f: Path -> nat) returns (p: Path)
    requires i <= |Items(n)| && SumFrom(n, i, f) > 0
    ensures p != [] && Exists(n, p) && f(p) > 0
    decreases n, |Items(n)| - i
  {
    var child, g := Items(n)[i].node, Under(f, i);
    assert [i][1..] == [];
    if f([i]) > 0 {
      p := [i];
    } else if SumPaths(child, g) > 0 {
      var q := Contributor(child, 0, g);
      p := [i] + q;
      assert p[1..] == q && g(q) == f(p);
    } else {
      p := Contributor(n, i + 1, f);
    }
  }

  lemma {:induction false} Contributes(n: Node, i: nat, f: Path -> nat, p: Path)
    requires p != [] && Exists(n, p) && i <= p[0] && f(p) > 0
    ensures SumFrom(n, i, f) > 0
    decreases n, |Items(n)| - i
  {
    if p[0] == i {
      var q, g := p[1..], Under(f, i);
      assert p == [i] + q;
      if q == [] { assert p == [i]; } else {
        assert g(q) == f(p);
        Contributes(Items(n)[i].node, 0, g, q);
      }
    } else {
      Contributes(n, i + 1, f, p);
    }
  }

  // ---------- sums in the order of the descent ----------

  /** A weight for looking at one entry of one directory. */
  type Weight = (Dir, Item) -> nat

  function WeightBelow(spec: Spec, d: Dir, w: Weight): nat
    decreases d.node, |Items(d.node)| + 1
  {
    WeightFrom(spec, d, 0, w)
  }

  function WeightFrom(spec: Spec, d: Dir, i: nat, w: Weight): nat
    requires i <= |Items(d.node)|
    decreases d.node, |Items(d.node)| - i
  {
    if i == |Items(d.node)| then 0
    else
      var item := Items(d.node)[i];
      w(d, item)
      + (if ItemDirs(spec, d, item) == [] then 0
        else WeightBelow(spec, Dir(Join(d.path, item.name), d.depth + 1, item.node), w))
      + WeightFrom(spec, d, i + 1, w)
  }

  /** The path gets as far as being looked at. */
  predicate LookedAt(spec: Spec, root: Dir, p: Path) {
    LeadsOn(spec, root, p) && (spec.search || |p| == 1 || root.depth + |p| <= spec.maxDepth)
  }

  /** The directory the last item of the path is listed in, and that item. */
  function EntryAt(root: Dir, p: Path): (Dir, Item)
    requires p != [] && Exists(root.node, p)
    decreases |p|
  {
    var item := Items(root.node)[p[0]];
    if |p| == 1 then (root, item) else EntryAt(Dir(Join(root.path, item.name), root.depth + 1, item.node), p[1..])
  }

  function WeightOfPath(spec: Spec, root: Dir, w: Weight, p: Path): nat {
    if LookedAt(spec, root, p) then w(EntryAt(root, p).0, EntryAt(root, p).1) else 0
  }

  function WeightAt(spec: Spec, root: Dir, w: Weight): Path -> nat {
    (p: Path) => WeightOfPath(spec, root, w, p)
  }

  function Zero(): Path -> nat {
    (p: Path) => 0
  }

  /** One step down: the rest of the path is looked at from an admitted subdirectory. */
  lemma StepDown(spec: Spec, root: Dir, i: nat, p: Path)
    requires i < |Items(root.node)| && p != [] && Exists(Items(root.node)[i].node, p)
    ensures var item := Items(root.node)[i]; var sub := Dir(Join(root.path, item.name), root.depth + 1, item.node);
      && Exists(root.node, [i] + p) && EntryAt(root, [i] + p) == EntryAt(sub, p)
      && (LookedAt(spec, root, [i] + p) <==> ItemDirs(spec, root, item) != [] && LookedAt(spec, sub, p))
  {
    var item := Items(root.node)[i];
    var sub := Dir(Join(root.path, item.name), root.depth + 1, item.node);
    assert ([i] + p)[1..] == p;
    LeadsOnStep(spec, root, i, p, sub);
    hide LeadsOn, Join;
  }

  /** The path leads on exactly if its first item is an allowed directory and the rest leads on from there. */
  lemma LeadsOnStep(spec: Spec, root: Dir, i: nat, p: Path, sub: Dir)
    requires i < |Items(root.node)| && p != [] && Exists(Items(root.node)[i].node, p)
    requires sub.path == Join(root.path, Items(root.node)[i].name) && sub.node == Items(root.node)[i].node
    ensures Exists(root.node, [i] + p)
    ensures LeadsOn(spec, root, [i] + p) <==> sub.node.Directory? && spec.allowed(sub.path) && LeadsOn(spec, sub, p)
  {
    hide NodeAt, TextOf, Exists;
    var q := [i] + p;
    OneDown(root, i, p, sub);
    forall j | 0 < j <= |p|
      ensures Exists(root.node, q[..j]) && Exists(sub.node, p[..j - 1])
      ensures NodeAt(root.node, q[..j]) == NodeAt(sub.node, p[..j - 1])
      ensures TextOf(root.path, root.node, q[..j]) == TextOf(sub.path, sub.node, p[..j - 1])
    {
      assert q[..j] == [i] + p[..j - 1];
      PrefixExists(sub.node, p, j - 1);
      OneDown(root, i, p[..j - 1], sub);
    }
    AtTheTop(sub);
    assert p[..0] == [];
    if LeadsOn(spec, root, q) {
      assert NodeAt(root.node, q[..1]).Directory?;
      forall j | 0 < j < |p|
        ensures Exists(sub.node, p[..j]) && NodeAt(sub.node, p[..j]).Directory?
        ensures spec.allowed(TextOf(sub.path, sub.node, p[..j]))
      {
        assert NodeAt(root.node, q[..j + 1]).Directory?;
      }
    }
  }

  lemma OneDown(root: Dir, i: nat, p: Path, sub: Dir)
    requires i < |Items(root.node)| && Exists(Items(root.node)[i].node, p)
    requires sub.path == Join(root.path, Items(root.node)[i].name) && sub.node == Items(root.node)[i].node
    ensures Exists(root.node, [i] + p) && NodeAt(root.node, [i] + p) == NodeAt(sub.node, p)
    ensures TextOf(root.path, root.node, [i] + p) == TextOf(sub.path, sub.node, p)
  {
    assert ([i] + p)[1..] == p;
  }

  lemma AtTheTop(d: Dir)
    ensures Exists(d.node, []) && NodeAt(d.node, []) == d.node && TextOf(d.path, d.node, []) == d.path
  {
  }

  lemma FirstStep(spec: Spec, root: Dir, i: nat)
    requires i < |Items(root.node)|
    ensures Exists(root.node, [i]) && LookedAt(spec, root, [i]) && EntryAt(root, [i]) == (root, Items(root.node)[i])
  {
    assert [i][1..] == [];
  }

  /** The paths below an item weigh what the descent into it weighs. */
  lemma SumBelowItem(spec: Spec, root: Dir, i: nat, w: Weight)
    requires i < |Items(root.node)|
    ensures var item := Items(root.node)[i]; var sub := Dir(Join(root.path, item.name), root.depth + 1, item.node);
      SumPaths(item.node, Under(WeightAt(spec, root, w), i))
      == if ItemDirs(spec, root, item) == [] then 0 else SumPaths(item.node, WeightAt(spec, sub, w))
  {
    var item := Items(root.node)[i];
    var sub := Dir(Join(root.path, item.name), root.depth + 1, item.node);
    var f, zero := Under(WeightAt(spec, root, w), i), Zero();
    forall p | p != [] && Exists(item.node, p)
      ensures f(p) == if ItemDirs(spec, root, item) == [] then zero(p) else WeightAt(spec, sub, w)(p)
    {
      StepDown(spec, root, i, p);
    }
    hide LookedAt, EntryAt, Join;
    if ItemDirs(spec, root, item) == [] {
      SumSame(item.node, f, zero);
      SumZero(item.node, 0);
    } else {
      SumSame(item.node, f, WeightAt(spec, sub, w));
    }
  }

  /** The descent looks at exactly the paths that lead on within the depth, each once. */
  lemma {:induction false} DescentIsPaths(spec: Spec, root: Dir, i: nat, w: Weight)
    requires i <= |Items(root.node)|
    ensures WeightFrom(spec, root, i, w) == SumFrom(root.node, i, WeightAt(spec, root, w))
    decreases root.node, |Items(root.node)| - i
  {
    if i < |Items(root.node)| {
      var item := Items(root.node)[i];
      DescentIsPaths(spec, root, i + 1, w);
      DescentIsPaths(spec, Dir(Join(root.path, item.name), root.depth + 1, item.node), 0, w);
      FirstStep(spec, root, i);
      SumBelowItem(spec, root, i, w);
      hide LookedAt, EntryAt, Under, Exists, ItemDirs;
    }
  }

  // ---------- matches ----------

  function HitWeight(spec: Spec, lim: Limits, m: Match): Weight {
    (d: Dir, item: Item) => multiset(ItemHits(spec, lim, d, item))[m]
  }

  lemma ItemsAreSmaller(n: Node, i: nat)
    requires i <= |Items(n)|
    ensures forall k :: 0 <= k < |Items(n)[i..]| ==> Items(n)[i..][k].node < n
  {
    forall k | 0 <= k < |Items(n)[i..]| ensures Items(n)[i..][k].node < n {
      assert Items(n)[i..][k] == Items(n)[i + k];
    }
  }

  /** How often a match is reported by the items of a directory from one on, and by all below them. */
  function BelowFrom(spec: Spec, lim: Limits, d: Dir, i: nat, m: Match): nat
    requires i <= |Items(d.node)|
  {
    var items := Items(d.node)[i..];
    ItemsAreSmaller(d.node, i);
    multiset(Hits(spec, lim, d, items))[m] + BelowItems(spec, lim, d, items)[m]
  }

  lemma BelowFromStep(spec: Spec, lim: Limits, d: Dir, i: nat, m: Match)
    requires i < |Items(d.node)|
    ensures var item := Items(d.node)[i]; var sub := Dir(Join(d.path, item.name), d.depth + 1, item.node);
      BelowFrom(spec, lim, d, i, m)
      == multiset(ItemHits(spec, lim, d, item))[m]
         + (if ItemDirs(spec, d, item) == [] then 0 else BelowFrom(spec, lim, sub, 0, m))
         + BelowFrom(spec, lim, d, i + 1, m)
  {
    var items := Items(d.node)[i..];
    var sub := Dir(Join(d.path, items[0].name), d.depth + 1, items[0].node);
    ItemsAreSmaller(d.node, i);
    assert items[1..] == Items(d.node)[i + 1..] && items[0] == Items(d.node)[i];
    assert Items(sub.node)[0..] == Items(sub.node);
    OneBelow(spec, lim, d, items, m);
    hide ItemHits, Hits, BelowItems, ItemDirs;
  }

  lemma BelowFromEnd(spec: Spec, lim: Limits, d: Dir, m: Match)
    ensures BelowFrom(spec, lim, d, |Items(d.node)|, m) == 0
  {
  }

  lemma {:induction false} BelowIsDescent(spec: Spec, lim: Limits, d: Dir, i: nat, m: Match)
    requires i <= |Items(d.node)|
    ensures BelowFrom(spec, lim, d, i, m) == WeightFrom(spec, d, i, HitWeight(spec, lim, m))
    decreases d.node, |Items(d.node)| - i
  {
    hide BelowFrom, ItemHits, ItemDirs;
    if i == |Items(d.node)| {
      BelowFromEnd(spec, lim, d, m);
    } else {
      var item := Items(d.node)[i];
      BelowFromStep(spec, lim, d, i, m);
      BelowIsDescent(spec, lim, d, i + 1, m);
      BelowIsDescent(spec, lim, Dir(Join(d.path, item.name), d.depth + 1, item.node), 0, m);
    }
  }

  lemma OneBelow(spec: Spec, lim: Limits, d: Dir, items: seq<Item>, m: Match)
    requires items != [] && forall k :: 0 <= k < |items| ==> items[k].node < d.node
    ensures forall k :: 0 <= k < |items[1..]| ==> items[1..][k].node < d.node
    ensures var sub := Dir(Join(d.path, items[0].name), d.depth + 1, items[0].node);
      && multiset(Hits(spec, lim, d, items))[m]
         == multiset(ItemHits(spec, lim, d, items[0]))[m] + multiset(Hits(spec, lim, d, items[1..]))[m]
      && BelowItems(spec, lim, d, items)[m]
         == (if ItemDirs(spec, d, items[0]) == [] then 0
             else multiset(Hits(spec, lim, sub, Items(sub.node)))[m] + BelowItems(spec, lim, sub, Items(sub.node))[m])
            + BelowItems(spec, lim, d, items[1..])[m]
  {
    HitsOfFirst(spec, lim, d, items, m);
    hide ItemHits, Hits;
    forall k | 0 <= k < |items[1..]| ensures items[1..][k].node < d.node { assert items[1..][k] == items[k + 1]; }
    var sub := Dir(Join(d.path, items[0].name), d.depth + 1, items[0].node);
    assert ItemDirs(spec, d, items[0]) != [] ==> ItemDirs(spec, d, items[0])[0] == sub;
    BelowIs(spec, lim, sub);
    hide ItemDirs, Below, Items;
  }

  lemma BelowIs(spec: Spec, lim: Limits, d: Dir)
    ensures Below(spec, lim, d) == multiset(Hits(spec, lim, d, Items(d.node))) + BelowItems(spec, lim, d, Items(d.node))
  {
  }

  lemma HitsOfFirst(spec: Spec, lim: Limits, d: Dir, items: seq<Item>, m: Match)
    requires items != []
    ensures multiset(Hits(spec, lim, d, items))[m]
         == multiset(ItemHits(spec, lim, d, items[0]))[m] + multiset(Hits(spec, lim, d, items[1..]))[m]
  {
    var first, rest := ItemHits(spec, lim, d, items[0]), Hits(spec, lim, d, items[1..]);
    assert Hits(spec, lim, d, items) == first + rest;
    hide ItemHits, Hits;
    assert multiset(first + rest) == multiset(first) + multiset(rest);
  }

  /** The entry of a path is its last item, under its full text and at its depth. */
  lemma {:induction false} EntryFacts(root: Dir, p: Path)
    requires p != [] && Exists(root.node, p)
    ensures var (d, item) := EntryAt(root, p);
      && item.node == NodeAt(root.node, p) && item.name == NameOf(root.node, p)
      && Join(d.path, item.name) == TextOf(root.path, root.node, p) && d.depth + 1 == root.depth + |p|
    decreases |p|
  {
    var item := Items(root.node)[p[0]];
    if |p| > 1 { EntryFacts(Dir(Join(root.path, item.name), root.depth + 1, item.node), p[1..]); }
    else { assert p[1..] == []; }
  }

  lemma {:induction false} LineOnce(spec: Spec, path: string, lines: seq<string>, number: nat, m: Match)
    ensures multiset(LineHits(spec, path, lines, number))[m]
         == if m.LineMatch? && m.path == path && number <= m.number < number + |lines|
               && lines[m.number - number] == m.line && spec.lineHit(m.line) then 1 else 0
  {
    if lines != [] {
      LineOnce(spec, path, lines[1..], number + 1, m);
    }
  }

  lemma ReportedOnce(spec: Spec, lim: Limits, root: Dir, p: Path, m: Match)
    requires p != [] && Exists(root.node, p)
    ensures WeightOfPath(spec, root, HitWeight(spec, lim, m), p) == if ReportsAt(spec, lim, root, p, m) then 1 else 0
  {
    EntryFacts(root, p);
    var (d, item) := EntryAt(root, p);
    if spec.search { SearchedOnce(spec, lim, d, item, m); } else { NamedOnce(spec, lim, d, item, m); }
    hide LeadsOn, TextOf, NodeAt, NameOf, EntryAt, Exists, ItemHits, Join;
  }

  lemma SearchedOnce(spec: Spec, lim: Limits, d: Dir, item: Item, m: Match)
    requires spec.search
    ensures multiset(ItemHits(spec, lim, d, item))[m]
         == if Eligible(spec, lim, item) && spec.allowed(Join(d.path, item.name)) && m.LineMatch?
               && m.path == Join(d.path, item.name) && 1 <= m.number <= |item.node.content.lines|
               && item.node.content.lines[m.number - 1] == m.line && spec.lineHit(m.line) then 1 else 0
  {
    if Eligible(spec, lim, item) { LineOnce(spec, Join(d.path, item.name), item.node.content.lines, 1, m); }
    hide LineHits, Join;
  }

  lemma NamedOnce(spec: Spec, lim: Limits, d: Dir, item: Item, m: Match)
    requires !spec.search
    ensures multiset(ItemHits(spec, lim, d, item))[m]
         == if spec.allowed(Join(d.path, item.name)) && (item.node.Directory? || item.node.File?)
               && d.depth + 1 <= spec.maxDepth && spec.nameHit(item.name)
               && m == PathMatch(Join(d.path, item.name), item.node.Directory?, d.depth + 1) then 1 else 0
  {
    hide Join;
  }

  function Reports(spec: Spec, lim: Limits, root: Dir, m: Match): Path -> nat {
    (p: Path) => if ReportsAt(spec, lim, root, p, m) then 1 else 0
  }

  /** Each match is there once for every path that reports it. */
  lemma MatchesArePaths(spec: Spec, lim: Limits, root: Dir, m: Match)
    ensures Below(spec, lim, root)[m] == SumPaths(root.node, Reports(spec, lim, root, m))
  {
    var w := HitWeight(spec, lim, m);
    assert Items(root.node)[0..] == Items(root.node);
    BelowIsDescent(spec, lim, root, 0, m);
    DescentIsPaths(spec, root, 0, w);
    forall p | p != [] && Exists(root.node, p) ensures WeightAt(spec, root, w)(p) == Reports(spec, lim, root, m)(p) {
      ReportedOnce(spec, lim, root, p, m);
    }
    SumSame(root.node, WeightAt(spec, root, w), Reports(spec, lim, root, m));
  }

  /** An untruncated find holds a path exactly if it is within the depth, leads through allowed directories to an
      allowed file or directory, and its name hits; an untruncated search holds a line exactly if it hits and stands
      in a decodable file of allowed size and name at the end of such a path, at any depth. Each is there as often as
      there are paths. */
  lemma FoundIff(spec: Spec, lim: Limits, root: Dir, matches: seq<Match>, m: Match)
    requires multiset(matches) == Below(spec, lim, root)
    ensures m in matches <==> exists p :: p != [] && Exists(root.node, p) && ReportsAt(spec, lim, root, p, m)
    ensures multiset(matches)[m] == SumPaths(root.node, Reports(spec, lim, root, m))
  {
    MatchesArePaths(spec, lim, root, m);
    SumPositive(root.node, Reports(spec, lim, root, m));
    assert m in matches <==> multiset(matches)[m] > 0;
    hide ReportsAt, Exists, Below;
  }

  /** The search a caller gets, in terms of paths. */
  method SearchTree(spec: Spec, lim: Limits, root: Dir) returns (r: Outcome)
    requires spec.cap >= 1 && root.node.Directory?
    ensures Clean(root.node) ==> r.Scanned?
    ensures r.Scanned? ==> forall m :: m in r.matches ==>
              exists p :: p != [] && Exists(root.node, p) && ReportsAt(spec, lim, root, p, m)
    ensures r.Scanned? && !r.truncated ==> forall m ::
              m in r.matches <==> exists p :: p != [] && Exists(root.node, p) && ReportsAt(spec, lim, root, p, m)
    ensures r.Scanned? && !r.truncated ==>
              forall m :: multiset(r.matches)[m] == SumPaths(root.node, Reports(spec, lim, root, m))
    ensures r.Scanned? && !r.truncated ==>
              && r.directories == 1 + SumPaths(root.node, Lists(spec, root))
              && (!spec.search ==> r.filesSeen == r.filesScanned == r.bytes == 0)
              && (spec.search ==> && r.filesSeen == SumPaths(root.node, Opens(spec, lim, root))
                                  && r.filesScanned == SumPaths(root.node, Decodes(spec, lim, root))
                                  && r.bytes == SumPaths(root.node, Reads(spec, lim, root)))
  {
    hide ReportsAt, Exists, Below, SumPaths, Spent, Everything, Steps, Truncates, Loses;
    r := Scan(spec, lim, root);
    if r.Scanned? {
      var all := Everything(spec, lim, root);
      EverythingIsBelow(spec, lim, root);
      forall m | m in r.matches
        ensures exists p :: p != [] && Exists(root.node, p) && ReportsAt(spec, lim, root, p, m)
      {
        assert m in all;
        FoundIff(spec, lim, root, all, m);
      }
      if !r.truncated {
        forall m
          ensures m in r.matches <==> exists p :: p != [] && Exists(root.node, p) && ReportsAt(spec, lim, root, p, m)
          ensures multiset(r.matches)[m] == SumPaths(root.node, Reports(spec, lim, root, m))
        {
          FoundIff(spec, lim, root, r.matches, m);
        }
        CostsArePaths(spec, lim, root);
      }
    }
  }

  lemma EverythingIsBelow(spec: Spec, lim: Limits, root: Dir)
    ensures multiset(Everything(spec, lim, root)) == Below(spec, lim, root)
  {
    BfsIsEverythingBelow(spec, lim, [root]);
    assert BelowAll(spec, lim, [root]) == Below(spec, lim, root);
  }

  // ---------- costs ----------

  function Lists(spec: Spec, root: Dir): Path -> nat {
    (p: Path) => if ListsAt(spec, root, p) then 1 else 0
  }

  function Opens(spec: Spec, lim: Limits, root: Dir): Path -> nat {
    (p: Path) => if OpensAt(spec, lim, root, p) then 1 else 0
  }

  function Decodes(spec: Spec, lim: Limits, root: Dir): Path -> nat {
    (p: Path) => if OpensAt(spec, lim, root, p) && NodeAt(root.node, p).content.Text? then 1 else 0
  }

  /** The bytes charged: the listed sizes of the files that decode. */
  function Reads(spec: Spec, lim: Limits, root: Dir): Path -> nat {
    (p: Path) =>
      if OpensAt(spec, lim, root, p) && NodeAt(root.node, p).content.Text? then NodeAt(root.node, p).size else 0
  }

  type Cost = Visit -> nat

  function SumVisits(t: seq<Visit>, c: Cost): nat {
    if t == [] then 0 else c(t[0]) + SumVisits(t[1..], c)
  }

  lemma {:induction false} SumVisitsConcat(a: seq<Visit>, b: seq<Visit>, c: Cost)
    ensures SumVisits(a + b, c) == SumVisits(a, c) + SumVisits(b, c)
  {
    if a == [] {
      assert a + b == b;
    } else {
      assert (a + b)[1..] == a[1..] + b;
      SumVisitsConcat(a[1..], b, c);
    }
  }

  function Listed(): Cost {
    (v: Visit) => if v.Listing? then 1 else 0
  }

  function Opened(): Cost {
    (v: Visit) => if v.Entry? && v.opens.Some? then 1 else 0
  }

  function Decoded(): Cost {
    (v: Visit) => if v.Entry? && v.opens.Some? && v.decoded then 1 else 0
  }

  function Charged(): Cost {
    (v: Visit) => if v.Entry? && v.opens.Some? && v.decoded then v.opens.value else 0
  }

  lemma {:induction false} SpentIsSums(t: seq<Visit>)
    ensures Spent(t)
         == Meter(SumVisits(t, Listed()), SumVisits(t, Opened()), SumVisits(t, Decoded()), SumVisits(t, Charged()))
  {
    if t != [] {
      var s, v := t[..|t| - 1], t[|t| - 1];
      SpentIsSums(s);
      assert t == s + [v];
      LastVisit(s, v, Listed());
      LastVisit(s, v, Opened());
      LastVisit(s, v, Decoded());
      LastVisit(s, v, Charged());
      hide SumVisits;
    }
  }

  lemma LastVisit(s: seq<Visit>, v: Visit, c: Cost)
    ensures SumVisits(s + [v], c) == SumVisits(s, c) + c(v)
  {
    SumVisitsConcat(s, [v], c);
    assert [v][1..] == [];
  }

  /** What an entry adds: looking at it, and later listing it if it is an admitted directory. */
  function StepCost(spec: Spec, lim: Limits, c: Cost, d: Dir, item: Item): nat {
    c(Look(spec, lim, d, item)) + if ItemDirs(spec, d, item) == [] then 0 else c(Listing)
  }

  function StepWeight(spec: Spec, lim: Limits, c: Cost): Weight {
    (d: Dir, item: Item) => StepCost(spec, lim, c, d, item)
  }

  function CostAll(spec: Spec, lim: Limits, q: seq<Dir>, c: Cost): nat {
    if q == [] then 0
    else c(Listing) + WeightFrom(spec, q[0], 0, StepWeight(spec, lim, c)) + CostAll(spec, lim, q[1..], c)
  }

  lemma {:induction false} CostAllConcat(spec: Spec, lim: Limits, a: seq<Dir>, b: seq<Dir>, c: Cost)
    ensures CostAll(spec, lim, a + b, c) == CostAll(spec, lim, a, c) + CostAll(spec, lim, b, c)
  {
    hide WeightFrom, StepWeight;
    if a == [] {
      assert a + b == b;
    } else {
      assert (a + b)[1..] == a[1..] + b;
      CostAllConcat(spec, lim, a[1..], b, c);
    }
  }

  /** A directory's entries cost the looks at them and all that lies below the admitted ones. */
  lemma {:induction false} CostOfDirectory(spec: Spec, lim: Limits, d: Dir, i: nat, c: Cost)
    requires i <= |Items(d.node)|
    ensures WeightFrom(spec, d, i, StepWeight(spec, lim, c))
         == SumVisits(Looks(spec, lim, d, Items(d.node)[i..]), c)
            + CostAll(spec, lim, Subdirs(spec, d, Items(d.node)[i..]), c)
    decreases |Items(d.node)| - i
  {
    var items := Items(d.node)[i..];
    if items != [] {
      assert items[1..] == Items(d.node)[i + 1..] && items[0] == Items(d.node)[i];
      CostOfDirectory(spec, lim, d, i + 1, c);
      var v, dirs := Look(spec, lim, d, items[0]), ItemDirs(spec, d, items[0]);
      SumVisitsConcat([v], Looks(spec, lim, d, items[1..]), c);
      assert [v][1..] == [];
      CostAllConcat(spec, lim, dirs, Subdirs(spec, d, items[1..]), c);
      OneCost(spec, lim, d, i, c);
      hide WeightFrom, Look, ItemDirs, CostAll;
    }
  }

  lemma OneCost(spec: Spec, lim: Limits, d: Dir, i: nat, c: Cost)
    requires i < |Items(d.node)|
    ensures var item := Items(d.node)[i];
      WeightFrom(spec, d, i, StepWeight(spec, lim, c))
      == c(Look(spec, lim, d, item)) + CostAll(spec, lim, ItemDirs(spec, d, item), c)
         + WeightFrom(spec, d, i + 1, StepWeight(spec, lim, c))
  {
    var item := Items(d.node)[i];
    var sub := Dir(Join(d.path, item.name), d.depth + 1, item.node);
    assert ItemDirs(spec, d, item) != [] ==> ItemDirs(spec, d, item) == [sub];
    assert [sub][1..] == [];
    hide Look, ItemDirs;
  }

  lemma {:induction false} TraceCosts(spec: Spec, lim: Limits, q: seq<Dir>, c: Cost)
    ensures SumVisits(Trace(spec, lim, q), c) == CostAll(spec, lim, q, c)
    decreases QueueSize(q)
  {
    if q != [] {
      NextIsSmaller(spec, q);
      var items := Items(q[0].node);
      var looks, rest := Looks(spec, lim, q[0], items), Trace(spec, lim, Next(spec, q));
      TraceCosts(spec, lim, Next(spec, q), c);
      assert items[0..] == items;
      CostOfDirectory(spec, lim, q[0], 0, c);
      CostAllConcat(spec, lim, q[1..], Subdirs(spec, q[0], items), c);
      assert Trace(spec, lim, q) == [Listing] + looks + rest;
      SumOfThree(looks, rest, c);
      hide WeightFrom, Looks, Subdirs, SumVisits, Trace;
    }
  }

  lemma SumOfThree(looks: seq<Visit>, rest: seq<Visit>, c: Cost)
    ensures SumVisits([Listing] + looks + rest, c) == c(Listing) + SumVisits(looks, c) + SumVisits(rest, c)
  {
    SumVisitsConcat([Listing] + looks, rest, c);
    SumVisitsConcat([Listing], looks, c);
    assert [Listing][1..] == [];
  }

  lemma PathCost(spec: Spec, lim: Limits, root: Dir, p: Path)
    requires p != [] && Exists(root.node, p)
    ensures WeightOfPath(spec, root, StepWeight(spec, lim, Listed()), p) == Lists(spec, root)(p)
    ensures WeightOfPath(spec, root, StepWeight(spec, lim, Opened()), p) ==
      (if spec.search then Opens(spec, lim, root) else Zero())(p)
    ensures WeightOfPath(spec, root, StepWeight(spec, lim, Decoded()), p) ==
      (if spec.search then Decodes(spec, lim, root) else Zero())(p)
    ensures WeightOfPath(spec, root, StepWeight(spec, lim, Charged()), p) ==
      (if spec.search then Reads(spec, lim, root) else Zero())(p)
  {
    EntryFacts(root, p);
    hide LeadsOn, TextOf, NodeAt, NameOf, EntryAt, Exists, ItemHits, Join;
  }

  /** What an untruncated scan has spent: each allowed directory within the depth once, each file it looks into once,
      and the sizes of those that decode. */
  lemma CostsArePaths(spec: Spec, lim: Limits, root: Dir)
    ensures var m := Spent(Steps(spec, lim, root));
      && m.directories == 1 + SumPaths(root.node, Lists(spec, root))
      && (spec.search ==> && m.filesSeen == SumPaths(root.node, Opens(spec, lim, root))
                          && m.filesScanned == SumPaths(root.node, Decodes(spec, lim, root))
                          && m.bytes == SumPaths(root.node, Reads(spec, lim, root)))
      && (!spec.search ==> m.filesSeen == m.filesScanned == m.bytes == 0)
  {
    SpentIsSums(Steps(spec, lim, root));
    PathSum(spec, lim, root, Listed(), Lists(spec, root));
    PathSum(spec, lim, root, Opened(), if spec.search then Opens(spec, lim, root) else Zero());
    PathSum(spec, lim, root, Decoded(), if spec.search then Decodes(spec, lim, root) else Zero());
    PathSum(spec, lim, root, Charged(), if spec.search then Reads(spec, lim, root) else Zero());
    if !spec.search { SumZero(root.node, 0); }
  }

  lemma PathSum(spec: Spec, lim: Limits, root: Dir, c: Cost, f: Path -> nat)
    requires || (c == Listed() && f == Lists(spec, root))
             || (c == Opened() && f == if spec.search then Opens(spec, lim, root) else Zero())
             || (c == Decoded() && f == if spec.search then Decodes(spec, lim, root) else Zero())
             || (c == Charged() && f == if spec.search then Reads(spec, lim, root) else Zero())
    ensures SumVisits(Steps(spec, lim, root), c) == c(Listing) + SumPaths(root.node, f)
  {
    var w := StepWeight(spec, lim, c);
    TraceCosts(spec, lim, [root], c);
    assert [root][1..] == [] && CostAll(spec, lim, [], c) == 0;
    DescentIsPaths(spec, root, 0, w);
    forall p | p != [] && Exists(root.node, p)
      ensures WeightAt(spec, root, w)(p) == f(p) { PathCost(spec, lim, root, p); }
    SumSame(root.node, WeightAt(spec, root, w), f);
  }

  /** When a search must report truncation: the cap is reached, there are too many directories or files, or a file does
      not fit into the bytes left. If all files it opens decode, that is when they do not fit together. */
  lemma TruncatedIff(spec: Spec, lim: Limits, root: Dir)
    ensures Truncates(spec, lim, root) <==>
      || |Everything(spec, lim, root)| >= spec.cap
      || 1 + SumPaths(root.node, Lists(spec, root)) > lim.directories
      || (spec.search && (SumPaths(root.node, Opens(spec, lim, root)) > lim.files
                          || !BytesFit(Steps(spec, lim, root), lim)))
    ensures spec.search
            && SumPaths(root.node, Opens(spec, lim, root)) == SumPaths(root.node, Decodes(spec, lim, root)) ==>
      (BytesFit(Steps(spec, lim, root), lim) <==> SumPaths(root.node, Reads(spec, lim, root)) <= lim.totalBytes)
  {
    var t := Steps(spec, lim, root);
    CostsArePaths(spec, lim, root);
    AffordedIff(t, lim);
    BytesFitIff(t, lim);
    if !spec.search { FindOpensNothing(spec, lim, [root]); }
    hide Spent, Everything, SumPaths;
  }
}
