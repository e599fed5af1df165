/** Which community image versions are shown: one per family before a second of any. */
module ImageBreadth {

  /** One version of a family; key is its lower-cased id, "" for a version without an id. */
  datatype Version = Version(key: string, title: string)

  // ---------- grouping ----------

  datatype Kept = Kept(rows: seq<Version>, seen: set<string>)

  /** The usable versions of one group: with an id, in the typed catalog, and not seen before. */
  function KeepRows(data: seq<Version>, catalog: set<string>, seen: set<string>): Kept {
    if data == [] then Kept([], seen)
    else
      var v := data[0];
      if v.key == "" || v.key in seen || v.key !in catalog then KeepRows(data[1..], catalog, seen)
      else
        var rest := KeepRows(data[1..], catalog, seen + {v.key});
        Kept([v] + rest.rows, rest.seen)
  }

  function Grouped(groups: seq<seq<Version>>, catalog: set<string>, seen: set<string>): seq<seq<Version>> {
    if groups == [] then []
    else
      var kept := KeepRows(groups[0], catalog, seen);
      (if kept.rows == [] then [] else [kept.rows]) + Grouped(groups[1..], catalog, kept.seen)
  }

  /** The rows of one group, with the keys seen so far carried along. */
  method CollectRows(data: seq<Version>, catalog: set<string>, before: set<string>)
    returns (rows: seq<Version>, seen: set<string>)
    ensures Kept(rows, seen) == KeepRows(data, catalog, before)
  {
    rows, seen := [], before;
    var i := 0;
    while i < |data|
      invariant 0 <= i <= |data|
      invariant rows + KeepRows(data[i..], catalog, seen).rows == KeepRows(data, catalog, before).rows
      invariant KeepRows(data[i..], catalog, seen).seen == KeepRows(data, catalog, before).seen
    {
      assert data[i..][1..] == data[i + 1..];
      var v := data[i];
      i := i + 1;
      if v.key == "" || v.key in seen || v.key !in catalog {
        continue;
      }
      seen := seen + {v.key};
      rows := rows + [v];
    }
  }

  method GroupVersionRows(groups: seq<seq<Version>>, catalog: set<string>) returns (families: seq<seq<Version>>)
    ensures families == Grouped(groups, catalog, {})
  {
    hide KeepRows;
    families := [];
    var seen: set<string> := {};
    var g := 0;
    while g < |groups|
      invariant 0 <= g <= |groups|
      invariant families + Grouped(groups[g..], catalog, seen) == Grouped(groups, catalog, {})
    {
      assert groups[g..][1..] == groups[g + 1..];
      ghost var rest := Grouped(groups[g + 1..], catalog, KeepRows(groups[g], catalog, seen).seen);
      var rows: seq<Version>;
      rows, seen := CollectRows(groups[g], catalog, seen);
      assert families + ([rows] + rest) == families + [rows] + rest && [] + rest == rest;
      if |rows| > 0 {
        families := families + [rows];
      }
      g := g + 1;
    }
  }

  function Keys(rows: seq<Version>): seq<string> {
    if rows == [] then [] else [rows[0].key] + Keys(rows[1..])
  }

  function AllKeys(families: seq<seq<Version>>): seq<string> {
    if families == [] then [] else Keys(families[0]) + AllKeys(families[1..])
  }

  ghost predicate Distinct<T>(s: seq<T>) {
    forall i, j :: 0 <= i < j < |s| ==> s[i] != s[j]
  }

  lemma {:induction false} KeepRowsFacts(data: seq<Version>, catalog: set<string>, seen: set<string>)
    ensures var k := KeepRows(data, catalog, seen);
      && Distinct(Keys(k.rows)) && (forall x :: x in Keys(k.rows) <==> x in k.seen && x !in seen) && seen <= k.seen
      && (forall x :: x in k.seen && x !in seen ==> x in catalog && x != "" && x in Keys(data))
      && (forall x :: x in Keys(data) && x in catalog && x != "" ==> x in k.seen)
  {
    if data != [] {
      var v := data[0];
      if v.key == "" || v.key in seen || v.key !in catalog {
        KeepRowsFacts(data[1..], catalog, seen);
      } else {
        KeepRowsFacts(data[1..], catalog, seen + {v.key});
        var rest := KeepRows(data[1..], catalog, seen + {v.key});
        assert ([v] + rest.rows)[1..] == rest.rows;
      }
    }
  }

  lemma DistinctConcat<T>(a: seq<T>, b: seq<T>)
    requires Distinct(a) && Distinct(b) && forall x :: x in a ==> x !in b
    ensures Distinct(a + b)
  {
    var s := a + b;
    forall i, j | 0 <= i < j < |s| ensures s[i] != s[j] {
      if i < |a| <= j { assert a[i] in a && b[j - |a|] in b; }
    }
  }

  /** No version is listed twice in the whole answer, no family is empty, and every catalogued id is listed. */
  lemma {:induction false} GroupedFacts(groups: seq<seq<Version>>, catalog: set<string>, seen: set<string>)
    ensures var f := Grouped(groups, catalog, seen);
      && Distinct(AllKeys(f)) && (forall rows :: rows in f ==> rows != [])
      && (forall x :: x in AllKeys(f) <==> x in AllKeys(groups) && x in catalog && x != "" && x !in seen)
  {
    if groups != [] {
      var kept := KeepRows(groups[0], catalog, seen);
      var rest := Grouped(groups[1..], catalog, kept.seen);
      KeepRowsFacts(groups[0], catalog, seen);
      GroupedFacts(groups[1..], catalog, kept.seen);
      DistinctConcat(Keys(kept.rows), AllKeys(rest));
      if kept.rows != [] {
        assert ([kept.rows] + rest)[1..] == rest;
      } else {
        assert [] + rest == rest;
      }
    }
  }

  /** Row by row: a version is kept exactly if it has an id, the catalog knows that id, and neither an earlier group nor
      an earlier row of its own showed it; the kept ones stay in their order. */
  lemma {:induction false} KeptRowsAreExact(data: seq<Version>, v: Version, catalog: set<string>, seen: set<string>)
    ensures KeepRows(data + [v], catalog, seen).rows
         == KeepRows(data, catalog, seen).rows
            + (if v.key != "" && v.key in catalog && v.key !in seen && v.key !in Keys(data) then [v] else [])
  {
    if data == [] {
      assert [] + [v] == [v] && [v][1..] == [];
    } else {
      var d := data[0];
      assert (data + [v])[1..] == data[1..] + [v] && (data + [v])[0] == d;
      KeptRowsAreExact(data[1..], v, catalog,
                       if d.key == "" || d.key in seen || d.key !in catalog then seen else seen + {d.key});
    }
  }

  /** Only the seen ids of the catalog make a difference. */
  lemma {:induction false} SameRows(data: seq<Version>, catalog: set<string>, a: set<string>, b: set<string>)
    requires forall x :: x in catalog && x != "" ==> (x in a <==> x in b)
    ensures KeepRows(data, catalog, a).rows == KeepRows(data, catalog, b).rows
    ensures forall x :: x in catalog && x != "" ==>
      (x in KeepRows(data, catalog, a).seen <==> x in KeepRows(data, catalog, b).seen)
  {
    if data != [] {
      var v := data[0];
      if v.key == "" || v.key in a || v.key !in catalog {
        SameRows(data[1..], catalog, a, b);
      } else {
        SameRows(data[1..], catalog, a + {v.key}, b + {v.key});
      }
    }
  }

  function IdsOf(groups: seq<seq<Version>>): set<string> {
    set k | k in AllKeys(groups)
  }

  /** Group by group: the versions of a group that no earlier group showed are the next family, unless there
      are none. */
  lemma {:induction false} FamiliesAreExact(groups: seq<seq<Version>>, g: seq<Version>, catalog: set<string>,
                                            seen: set<string>)
    ensures var rows := KeepRows(g, catalog, seen + IdsOf(groups)).rows;
      Grouped(groups + [g], catalog, seen) == Grouped(groups, catalog, seen) + if rows == [] then [] else [rows]
  {
    if groups == [] {
      assert [] + [g] == [g] && [g][1..] == [] && seen + IdsOf([]) == seen;
    } else {
      var kept, rest := KeepRows(groups[0], catalog, seen), groups[1..];
      assert (groups + [g])[1..] == rest + [g] && (groups + [g])[0] == groups[0];
      KeepRowsFacts(groups[0], catalog, seen);
      FamiliesAreExact(rest, g, catalog, kept.seen);
      assert forall k :: k in IdsOf(groups) <==> k in Keys(groups[0]) || k in IdsOf(rest);
      hide KeepRows, IdsOf, Keys;
      SameRows(g, catalog, kept.seen + IdsOf(rest), seen + IdsOf(groups));
    }
  }

  // ---------- the round robin ----------

  /** A version by its family's index and its position in the family. */
  datatype Pos = Pos(family: nat, depth: nat)

  /** The positions at one depth from family f on. */
  function Layer(families: seq<seq<Version>>, depth: nat, f: nat): seq<Pos>
    requires f <= |families|
    decreases |families| - f
  {
    if f == |families| then []
    else (if depth < |families[f]| then [Pos(f, depth)] else []) + Layer(families, depth, f + 1)
  }

  /** All positions shallower than depth, layer by layer. */
  function Layers(families: seq<seq<Version>>, depth: nat): seq<Pos> {
    if depth == 0 then [] else Layers(families, depth - 1) + Layer(families, depth - 1, 0)
  }

  function Total(families: seq<seq<Version>>): nat {
    if families == [] then 0 else |families[0]| + Total(families[1..])
  }

  function Min(a: nat, b: nat): nat {
    if a < b then a else b
  }

  method Select(families: seq<seq<Version>>, cap: nat) returns (shown: seq<Pos>)
    ensures |shown| == Min(cap, Total(families))
    ensures exists depth :: shown <= Layers(families, depth)
  {
    shown := [];
    var depth := 0;
    while |shown| < cap
      invariant shown == Layers(families, depth) && |shown| <= cap
      decreases cap - |shown|
    {
      var advanced := false;
      var f := 0;
      ghost var before := shown;
      while f < |families| && |shown| < cap
        invariant 0 <= f <= |families| && |shown| <= cap && |before| <= |shown|
        invariant shown + Layer(families, depth, f) == Layers(families, depth + 1)
        invariant advanced <==> |shown| > |before|
      {
        if depth < |families[f]| {
          advanced := true;
          assert shown + Layer(families, depth, f) == shown + [Pos(f, depth)] + Layer(families, depth, f + 1);
          shown := shown + [Pos(f, depth)];
        }
        f := f + 1;
      }
      if |shown| >= cap {
        assert shown <= Layers(families, depth + 1);
        LayersWithinTotal(families, depth + 1);
        return;
      }
      depth := depth + 1;
      if !advanced {
        assert Layer(families, depth - 1, 0) == [];
        LayersExhausted(families, depth - 1);
        return;
      }
    }
    LayersWithinTotal(families, depth);
  }

  function TotalWithin(families: seq<seq<Version>>, depth: nat): nat {
    if families == [] then 0 else Min(|families[0]|, depth) + TotalWithin(families[1..], depth)
  }

  lemma {:induction false} LayerSize(families: seq<seq<Version>>, depth: nat, f: nat)
    requires f <= |families|
    ensures TotalWithin(families[f..], depth) + |Layer(families, depth, f)| == TotalWithin(families[f..], depth + 1)
    decreases |families| - f
  {
    if f < |families| {
      LayerSize(families, depth, f + 1);
      assert families[f..][1..] == families[f + 1..];
    }
  }

  lemma {:induction false} LayersSize(families: seq<seq<Version>>, depth: nat)
    ensures |Layers(families, depth)| == TotalWithin(families, depth)
  {
    if depth == 0 {
      WithinZero(families);
    } else {
      LayersSize(families, depth - 1);
      assert families[0..] == families;
      hide TotalWithin, Layer;
      LayerSize(families, depth - 1, 0);
    }
  }

  lemma {:induction false} WithinZero(families: seq<seq<Version>>)
    ensures TotalWithin(families, 0) == 0
  {
    if families != [] { WithinZero(families[1..]); }
  }

  lemma {:induction false} WithinTotal(families: seq<seq<Version>>, depth: nat)
    ensures TotalWithin(families, depth) <= Total(families)
    ensures (forall f :: 0 <= f < |families| ==> |families[f]| <= depth) ==>
      TotalWithin(families, depth) == Total(families)
  {
    if families != [] {
      WithinTotal(families[1..], depth);
      if forall f :: 0 <= f < |families| ==> |families[f]| <= depth {
        assert forall f :: 0 <= f < |families[1..]| ==> families[1..][f] == families[f + 1];
      }
    }
  }

  lemma LayersWithinTotal(families: seq<seq<Version>>, depth: nat)
    ensures |Layers(families, depth)| <= Total(families)
  {
    LayersSize(families, depth);
    WithinTotal(families, depth);
  }

  lemma {:induction false} EmptyLayer(families: seq<seq<Version>>, depth: nat, f: nat)
    requires f <= |families| && Layer(families, depth, f) == []
    ensures forall g :: f <= g < |families| ==> |families[g]| <= depth
    decreases |families| - f
  {
    if f < |families| { EmptyLayer(families, depth, f + 1); }
  }

  lemma LayersExhausted(families: seq<seq<Version>>, depth: nat)
    requires Layer(families, depth, 0) == []
    ensures |Layers(families, depth)| == Total(families)
  {
    EmptyLayer(families, depth, 0);
    LayersSize(families, depth);
    WithinTotal(families, depth);
  }

  // ---------- what the order means ----------

  lemma {:induction false} LayerFacts(families: seq<seq<Version>>, depth: nat, f: nat)
    requires f <= |families|
    ensures forall p :: p in Layer(families, depth, f) <==>
              f <= p.family < |families| && p.depth == depth && depth < |families[p.family]|
    ensures Distinct(Layer(families, depth, f))
    decreases |families| - f
  {
    if f < |families| { LayerFacts(families, depth, f + 1); }
  }

  lemma {:induction false} LayersFacts(families: seq<seq<Version>>, depth: nat)
    ensures forall p :: p in Layers(families, depth) <==>
              p.family < |families| && p.depth < depth && p.depth < |families[p.family]|
    ensures Distinct(Layers(families, depth))
  {
    if depth > 0 {
      LayersFacts(families, depth - 1);
      LayerFacts(families, depth - 1, 0);
      DistinctConcat(Layers(families, depth - 1), Layer(families, depth - 1, 0));
    }
  }

  lemma {:induction false} ShallowLayersFirst(families: seq<seq<Version>>, depth: nat, i: nat)
    requires i < |Layers(families, depth)|
    ensures var d := Layers(families, depth)[i].depth;
      |Layers(families, d)| <= i && Layers(families, d + 1) <= Layers(families, depth) && i < |Layers(families, d + 1)|
  {
    LayerFacts(families, depth - 1, 0);
    var all, a, b := Layers(families, depth), Layers(families, depth - 1), Layer(families, depth - 1, 0);
    hide Layer;
    assert all == a + b;
    hide Layers;
    if i < |a| {
      assert all[i] == a[i];
      ShallowLayersFirst(families, depth - 1, i);
    } else {
      assert all[i] == b[i - |a|] && b[i - |a|] in b;
    }
  }

  /** In one layer the families ascend. */
  lemma {:induction false} LayerAscends(families: seq<seq<Version>>, depth: nat, f: nat, k: nat, g: nat)
    requires f <= |families| && k < |Layer(families, depth, f)|
    requires f <= g < |families| && depth < |families[g]| && g < Layer(families, depth, f)[k].family
    ensures Pos(g, depth) in Layer(families, depth, f)[..k]
    decreases |families| - f
  {
    var layer, rest := Layer(families, depth, f), Layer(families, depth, f + 1);
    if depth >= |families[f]| {
      assert layer == rest;
      LayerAscends(families, depth, f + 1, k, g);
    } else {
      assert layer == [Pos(f, depth)] + rest;
      assert k > 0 && layer[k] == rest[k - 1];
      if g > f { LayerAscends(families, depth, f + 1, k - 1, g); }
      hide Layer;
      FirstInFront(Pos(f, depth), rest, k);
    }
  }

  lemma FirstInFront(x: Pos, rest: seq<Pos>, k: nat)
    requires 0 < k <= |rest| + 1
    ensures ([x] + rest)[..k] == [x] + rest[..k - 1]
  {
  }

  /** One version comes before another: it is shallower, or as deep and of an earlier family. */
  predicate Sooner(a: Pos, b: Pos) {
    a.depth < b.depth || (a.depth == b.depth && a.family < b.family)
  }

  /** Any selection in this order shows distinct existing versions, and none before every one that comes sooner. */
  lemma BreadthBeforeDepth(families: seq<seq<Version>>, shown: seq<Pos>, depth: nat)
    requires shown <= Layers(families, depth)
    ensures Distinct(shown)
    ensures forall p :: p in shown ==> p.family < |families| && p.depth < |families[p.family]|
    ensures forall i, f, d | 0 <= i < |shown| && 0 <= f < |families| && 0 <= d < |families[f]|
              && Sooner(Pos(f, d), shown[i]) :: Pos(f, d) in shown[..i]
  {
    LayersFacts(families, depth);
    var all := Layers(families, depth);
    forall i | 0 <= i < |shown| ensures shown[i] == all[i] && shown[i] in all {}
    hide Layers, Layer;
    forall i, f, d | 0 <= i < |shown| && 0 <= f < |families| && 0 <= d < |families[f]|
                     && Sooner(Pos(f, d), shown[i])
      ensures Pos(f, d) in shown[..i]
    {
      SoonerIsShown(families, depth, i, Pos(f, d));
      assert all[..i] == shown[..i];
    }
  }

  lemma SoonerIsShown(families: seq<seq<Version>>, depth: nat, i: nat, p: Pos)
    requires i < |Layers(families, depth)| && Sooner(p, Layers(families, depth)[i])
    requires p.family < |families| && p.depth < |families[p.family]|
    ensures p in Layers(families, depth)[..i]
  {
    var all := Layers(families, depth);
    var d := all[i].depth;
    var before, layer := Layers(families, d), Layer(families, d, 0);
    ShallowLayersFirst(families, depth, i);
    NextLayer(families, d);
    LayersFacts(families, d);
    hide Layers, Layer;
    Inside(all, before, layer, i);
    if p.depth == d { LayerAscends(families, d, 0, i - |before|, p.family); }
  }

  lemma NextLayer(families: seq<seq<Version>>, depth: nat)
    ensures Layers(families, depth + 1) == Layers(families, depth) + Layer(families, depth, 0)
  {
  }

  lemma Inside(all: seq<Pos>, before: seq<Pos>, layer: seq<Pos>, i: nat)
    requires before + layer <= all && |before| <= i < |before + layer|
    ensures all[i] == layer[i - |before|] && all[..i] == before + layer[..i - |before|]
  {
    assert all[..|before + layer|] == before + layer;
  }

  function KeyAt(families: seq<seq<Version>>, p: Pos): string
    requires p.family < |families| && p.depth < |families[p.family]|
  {
    families[p.family][p.depth].key
  }

  lemma {:induction false} KeysAt(rows: seq<Version>, d: nat)
    requires d < |rows|
    ensures |Keys(rows)| == |rows| && Keys(rows)[d] == rows[d].key
  {
    if d > 0 { KeysAt(rows[1..], d - 1); }
    else if |rows| > 1 { KeysAt(rows[1..], 0); }
  }

  lemma {:induction false} KeyIsListed(families: seq<seq<Version>>, p: Pos)
    requires p.family < |families| && p.depth < |families[p.family]|
    ensures KeyAt(families, p) in AllKeys(families)
  {
    if p.family == 0 {
      KeysAt(families[0], p.depth);
      assert Keys(families[0])[p.depth] in Keys(families[0]);
    } else {
      KeyIsListed(families[1..], Pos(p.family - 1, p.depth));
    }
  }

  /** Where no id is listed twice, different positions hold different ids. */
  lemma {:induction false} PositionsHoldDistinctKeys(families: seq<seq<Version>>, p: Pos, q: Pos)
    requires Distinct(AllKeys(families)) && p != q
    requires p.family < |families| && p.depth < |families[p.family]| && q.family < |families|
      && q.depth < |families[q.family]|
    ensures KeyAt(families, p) != KeyAt(families, q)
    decreases |families|, if p.family == 0 then 0 else 1
  {
    var first, rest := Keys(families[0]), AllKeys(families[1..]);
    assert AllKeys(families) == first + rest;
    if p.family != 0 && q.family == 0 {
      PositionsHoldDistinctKeys(families, q, p);
    } else if p.family == 0 {
      KeysAt(families[0], p.depth);
      if q.family == 0 {
        KeysAt(families[0], q.depth);
      } else {
        KeyIsListed(families[1..], Pos(q.family - 1, q.depth));
      }
      hide Keys, AllKeys;
      DistinctParts(first, rest);
    } else {
      hide Keys, AllKeys;
      DistinctParts(first, rest);
      PositionsHoldDistinctKeys(families[1..], Pos(p.family - 1, p.depth), Pos(q.family - 1, q.depth));
    }
  }

  lemma DistinctParts<T>(a: seq<T>, b: seq<T>)
    requires Distinct(a + b)
    ensures Distinct(a) && Distinct(b) && forall x :: x in a ==> x !in b
  {
    var s := a + b;
    assert forall i :: 0 <= i < |a| ==> s[i] == a[i];
    assert forall i :: 0 <= i < |b| ==> s[|a| + i] == b[i];
    forall i, j | 0 <= i < |a| && 0 <= j < |b| ensures a[i] != b[j] {
      assert s[i] != s[|a| + j];
    }
  }

  /** From the catalog's groups to what is shown: as many versions as the cap and the catalog allow, no id twice, all
      of them catalogued, and one of every family before a second of any. */
  method ShowImages(groups: seq<seq<Version>>, catalog: set<string>, cap: nat)
    returns (families: seq<seq<Version>>, shown: seq<Pos>)
    ensures families == Grouped(groups, catalog, {}) && |shown| == Min(cap, Total(families))
    ensures forall p :: p in shown ==> p.family < |families| && p.depth < |families[p.family]|
    ensures forall p :: p in shown ==> KeyAt(families, p) in catalog && KeyAt(families, p) in AllKeys(groups)
    ensures forall i, j :: 0 <= i < j < |shown| ==> KeyAt(families, shown[i]) != KeyAt(families, shown[j])
    ensures forall i, f, d | 0 <= i < |shown| && 0 <= f < |families| && 0 <= d < |families[f]|
              && Sooner(Pos(f, d), shown[i]) :: Pos(f, d) in shown[..i]
    ensures |Covered(shown)| == CountFamiliesShown(families, |shown|)
  {
    families := GroupVersionRows(groups, catalog);
    shown := Select(families, cap);
    ghost var depth :| shown <= Layers(families, depth);
    GroupedFacts(groups, catalog, {});
    BreadthBeforeDepth(families, shown, depth);
    assert forall g :: 0 <= g < |families| ==> families[g] in families;
    CoverageIsExact(families, shown, depth);
    hide Layers, Grouped, Covered, CountFamiliesShown, KeyAt;
    forall i | 0 <= i < |shown| ensures KeyAt(families, shown[i]) in AllKeys(families) {
      KeyIsListed(families, shown[i]);
    }
    forall i, j | 0 <= i < j < |shown| ensures KeyAt(families, shown[i]) != KeyAt(families, shown[j]) {
      PositionsHoldDistinctKeys(families, shown[i], shown[j]);
    }
  }

  /** The families that contribute to a selection. */
  ghost function Covered(shown: seq<Pos>): set<nat> {
    set p | p in shown :: p.family
  }

  /** countCommunityFamiliesShown. */
  function CountFamiliesShown(families: seq<seq<Version>>, shown: nat): nat {
    if shown < |families| then shown else |families|
  }

  lemma {:induction false} FirstLayerIsEveryFamily(families: seq<seq<Version>>, f: nat)
    requires f <= |families| && forall g :: 0 <= g < |families| ==> families[g] != []
    ensures |Layer(families, 0, f)| == |families| - f
    ensures forall i :: 0 <= i < |families| - f ==> Layer(families, 0, f)[i] == Pos(f + i, 0)
    decreases |families| - f
  {
    if f < |families| { FirstLayerIsEveryFamily(families, f + 1); }
  }

  lemma {:induction false} LayersStartWithFirst(families: seq<seq<Version>>, depth: nat)
    requires depth >= 1
    ensures Layer(families, 0, 0) <= Layers(families, depth)
  {
    if depth > 1 { LayersStartWithFirst(families, depth - 1); }
  }

  function UpTo(n: nat): set<nat> {
    if n == 0 then {} else UpTo(n - 1) + {n - 1}
  }

  lemma {:induction false} UpToFacts(n: nat)
    ensures |UpTo(n)| == n && forall i: nat :: i in UpTo(n) <==> i < n
  {
    if n > 0 { UpToFacts(n - 1); }
  }

  /** The coverage figure of the truncation note is exact. */
  lemma CoverageIsExact(families: seq<seq<Version>>, shown: seq<Pos>, depth: nat)
    requires shown <= Layers(families, depth) && forall g :: 0 <= g < |families| ==> families[g] != []
    ensures |Covered(shown)| == CountFamiliesShown(families, |shown|)
  {
    var n := CountFamiliesShown(families, |shown|);
    if shown == [] {
      assert Covered(shown) == {};
    } else {
      var first := Layer(families, 0, 0);
      FirstLayerIsEveryFamily(families, 0);
      LayersStartWithFirst(families, depth);
      BreadthBeforeDepth(families, shown, depth);
      UpToFacts(n);
      forall i | 0 <= i < n ensures i in Covered(shown) {
        assert shown[i] == first[i] == Pos(i, 0);
        assert shown[i] in shown;
      }
      forall x | x in Covered(shown) ensures x < n {
        var p :| p in shown && p.family == x;
        if |shown| < |families| {
          var i :| 0 <= i < |shown| && shown[i] == p;
          assert shown[i] == first[i] == Pos(i, 0);
        }
      }
      assert Covered(shown) == UpTo(n);
    }
  }
}
