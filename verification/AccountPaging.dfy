/** Paging one account's instances out of an upstream that applies each page to two stores. */
module AccountPaging {
  import opened Options

  const PAGE_LIMIT := 100
  const MAX_PAGES := 100

  /** id is "" when the row carries none. */
  datatype Row = Row(id: string, created: real, payload: string)

  datatype Reply = Failed | Page(total: Option<int>, rows: seq<Row>)

  datatype Result = Err | Ok(rows: seq<Row>, total: int)

  // ---------- the stable sort, newest first ----------

  function Place(x: Row, s: seq<Row>): seq<Row> {
    if s == [] || x.created >= s[0].created then [x] + s else [s[0]] + Place(x, s[1..])
  }

  /** sort.SliceStable by CreateTime descending. */
  function NewestFirst(s: seq<Row>): seq<Row> {
    if s == [] then [] else Place(s[0], NewestFirst(s[1..]))
  }

  ghost predicate Descending(s: seq<Row>) {
    forall i, j :: 0 <= i < j < |s| ==> s[i].created >= s[j].created
  }

  function CreatedAt(s: seq<Row>, t: real): seq<Row> {
    if s == [] then [] else (if s[0].created == t then [s[0]] else []) + CreatedAt(s[1..], t)
  }

  lemma {:induction false} PlaceIsPermutation(x: Row, s: seq<Row>)
    ensures multiset(Place(x, s)) == multiset{x} + multiset(s)
  {
    if s != [] && x.created < s[0].created {
      PlaceIsPermutation(x, s[1..]);
      assert s == [s[0]] + s[1..];
    }
  }

  lemma {:induction false} PlaceIsSorted(x: Row, s: seq<Row>)
    requires Descending(s)
    ensures Descending(Place(x, s))
    ensures forall j :: 0 <= j < |Place(x, s)| ==> Place(x, s)[j] == x || Place(x, s)[j] in s
  {
    if s != [] && x.created < s[0].created {
      var p := Place(x, s[1..]);
      PlaceIsSorted(x, s[1..]);
      forall j | 0 <= j < |p| ensures p[j] == x || p[j] in s[1..] {}
      forall j | 0 <= j < |p| ensures s[0].created >= p[j].created {}
    }
  }

  lemma {:induction false} PlaceIsStable(x: Row, s: seq<Row>, t: real)
    ensures CreatedAt(Place(x, s), t) == (if x.created == t then [x] else []) + CreatedAt(s, t)
  {
    if s == [] || x.created >= s[0].created {
      assert ([x] + s)[1..] == s;
    } else {
      var p, c := Place(x, s[1..]), CreatedAt(s[1..], t);
      PlaceIsStable(x, s[1..], t);
      assert Place(x, s) == [s[0]] + p && ([s[0]] + p)[1..] == p;
      hide Place;
      if s[0].created == t {
        assert CreatedAt(Place(x, s), t) == [s[0]] + c;
      } else {
        assert CreatedAt(s, t) == c;
      }
    }
  }

  /** Sorted, nothing lost or added, and rows of one time stay in their order. */
  lemma {:induction false} NewestFirstFacts(s: seq<Row>)
    ensures Descending(NewestFirst(s)) && multiset(NewestFirst(s)) == multiset(s)
    ensures forall t :: CreatedAt(NewestFirst(s), t) == CreatedAt(s, t)
  {
    if s != [] {
      NewestFirstFacts(s[1..]);
      PlaceIsPermutation(s[0], NewestFirst(s[1..]));
      PlaceIsSorted(s[0], NewestFirst(s[1..]));
      forall t ensures CreatedAt(NewestFirst(s), t) == CreatedAt(s, t) { PlaceIsStable(s[0], NewestFirst(s[1..]), t); }
      assert s == [s[0]] + s[1..];
    }
  }

  // ---------- merging pages ----------

  predicate HasId(rows: seq<Row>, id: string) {
    exists i :: 0 <= i < |rows| && rows[i].id == id
  }

  /** The rows of a page that carry an id not seen before, behind the rows so far. */
  function AddRows(rows: seq<Row>, page: seq<Row>): seq<Row>
    decreases |page|
  {
    if page == [] then rows
    else if page[0].id == "" || HasId(rows, page[0].id) then AddRows(rows, page[1..])
    else AddRows(rows + [page[0]], page[1..])
  }

  datatype State = State(rows: seq<Row>, total: int, totalKnown: bool)

  function AfterPage(st: State, total: Option<int>, page: seq<Row>): State {
    State(AddRows(st.rows, page),
          if total.Some? && total.value > st.total then total.value else st.total,
          st.totalKnown || total.Some?)
  }

  predicate Complete(before: State, st: State, page: seq<Row>) {
    || (st.totalKnown && |st.rows| >= st.total)
    || (!st.totalKnown && |page| < PAGE_LIMIT)
    || page == [] || |st.rows| == |before.rows|
  }

  /** The rest of the walk from a page on; None is a failed call. */
  function Collect(upstream: nat -> Reply, page: nat, st: State): Option<State>
    decreases MAX_PAGES - page
  {
    if page >= MAX_PAGES then Some(st)
    else match upstream(page)
      case Failed => None
      case Page(total, rows) =>
        var next := AfterPage(st, total, rows);
        if Complete(st, next, rows) then Some(next) else Collect(upstream, page + 1, next)
  }

  function Finish(st: Option<State>): Result {
    match st
    case None => Err
    case Some(s) => Ok(NewestFirst(s.rows), if |s.rows| > s.total then |s.rows| else s.total)
  }

  ghost predicate DistinctIds(rows: seq<Row>) {
    && (forall i :: 0 <= i < |rows| ==> rows[i].id != "")
    && (forall i, j :: 0 <= i < j < |rows| ==> rows[i].id != rows[j].id)
  }

  method MergePage(rows: seq<Row>, page: seq<Row>, seenBefore: set<string>)
    returns (merged: seq<Row>, seen: set<string>, added: nat)
    requires DistinctIds(rows) && forall id :: id in seenBefore <==> HasId(rows, id)
    ensures merged == AddRows(rows, page) && DistinctIds(merged) && added == |merged| - |rows|
    ensures forall id :: id in seen <==> HasId(merged, id)
  {
    merged, seen, added := rows, seenBefore, 0;
    var i := 0;
    while i < |page|
      invariant 0 <= i <= |page| && DistinctIds(merged) && added == |merged| - |rows|
      invariant forall id :: id in seen <==> HasId(merged, id)
      invariant AddRows(merged, page[i..]) == AddRows(rows, page)
    {
      var item := page[i];
      assert page[i..][1..] == page[i + 1..];
      i := i + 1;
      if item.id == "" || item.id in seen {
        continue;
      }
      AppendedIds(merged, item);
      seen := seen + {item.id};
      merged := merged + [item];
      added := added + 1;
    }
  }

  lemma AppendedIds(rows: seq<Row>, x: Row)
    ensures forall id :: HasId(rows + [x], id) <==> HasId(rows, id) || id == x.id
    ensures DistinctIds(rows) && x.id != "" && !HasId(rows, x.id) ==> DistinctIds(rows + [x])
  {
    var s := rows + [x];
    forall id | HasId(rows, id) || id == x.id ensures HasId(s, id) {
      if id == x.id {
        assert s[|rows|].id == id;
      } else {
        var i :| 0 <= i < |rows| && rows[i].id == id;
        assert s[i].id == id;
      }
    }
  }

  /** Every row of the first pages, in the order it arrived. */
  function Arrived(upstream: nat -> Reply, pages: nat): seq<Row> {
    if pages == 0 then []
    else Arrived(upstream, pages - 1) + match upstream(pages - 1) case Failed => [] case Page(_, rows) => rows
  }

  /** Some page among the first ones reported this total. */
  ghost predicate Reported(upstream: nat -> Reply, pages: nat, total: int) {
    exists i :: 0 <= i < pages && upstream(i).Page? && upstream(i).total == Some(total)
  }

  /** total is the greatest of the totals the first pages reported and a least number. */
  ghost predicate IsGreatest(upstream: nat -> Reply, pages: nat, least: nat, total: int) {
    && total >= least && (total == least || Reported(upstream, pages, total))
    && forall other :: Reported(upstream, pages, other) ==> total >= other
  }

  /** Nothing more is asked for after these pages: every total reported so far is reached; none was reported and the
      last page was short; or the last page brought no new row. */
  ghost predicate StopsAfter(upstream: nat -> Reply, pages: nat) {
    && pages > 0 && upstream(pages - 1).Page?
    && var kept := |AddRows([], Arrived(upstream, pages))|;
      || kept == |AddRows([], Arrived(upstream, pages - 1))|
      || if exists total :: Reported(upstream, pages, total)
         then forall total :: Reported(upstream, pages, total) ==> kept >= total
         else |upstream(pages - 1).rows| < PAGE_LIMIT
  }

  /** What the merging keeps of the rows that arrived: each id's first row, in the order of arrival. */
  lemma {:induction false} KeptIsExact(arrived: seq<Row>, x: Row)
    ensures AddRows([], arrived + [x])
         == AddRows([], arrived) + (if x.id != "" && !HasId(arrived, x.id) then [x] else [])
    ensures forall id :: HasId(AddRows([], arrived), id) <==> id != "" && HasId(arrived, id)
  {
    KeptIds(arrived);
    hide HasId;
    AddRowsConcat([], arrived, [x]);
  }

  lemma {:induction false} KeptIds(arrived: seq<Row>)
    ensures forall id :: HasId(AddRows([], arrived), id) <==> id != "" && HasId(arrived, id)
  {
    if arrived == [] {
      NothingYet();
    } else {
      var n := |arrived| - 1;
      var before, x := arrived[..n], arrived[n];
      assert arrived == before + [x];
      KeptIds(before);
      hide HasId;
      AddRowsConcat([], before, [x]);
      AppendedIds(before, x);
      AppendedIds(AddRows([], before), x);
    }
  }

  lemma {:induction false} AddRowsConcat(rows: seq<Row>, a: seq<Row>, b: seq<Row>)
    ensures AddRows(rows, a + b) == AddRows(AddRows(rows, a), b)
    decreases |a|
  {
    if a == [] {
      assert a + b == b;
    } else {
      assert (a + b)[1..] == a[1..] + b;
      AddRowsConcat(if a[0].id == "" || HasId(rows, a[0].id) then rows else rows + [a[0]], a[1..], b);
    }
  }

  /** calls counts the upstream calls: up to the first page nothing more is asked for after, at most MAX_PAGES. The
      answer is an error exactly if the last call failed; no earlier one did. Otherwise it is the first row of every
      id that arrived, stably sorted, and its total is the greatest of the reported ones and the number of rows. */
  method DescribeAll(upstream: nat -> Reply) returns (r: Result, calls: nat)
    ensures r == Finish(Collect(upstream, 0, State([], 0, false)))
    ensures 1 <= calls <= MAX_PAGES && forall i :: 0 <= i < calls - 1 ==> upstream(i).Page?
    ensures r.Err? <==> upstream(calls - 1).Failed?
    ensures forall i :: 0 <= i < calls ==> !StopsAfter(upstream, i)
    ensures r.Ok? ==> calls == MAX_PAGES || StopsAfter(upstream, calls)
    ensures r.Ok? ==> r.rows == NewestFirst(AddRows([], Arrived(upstream, calls)))
    ensures r.Ok? ==> IsGreatest(upstream, calls, |r.rows|, r.total)
    ensures r.Ok? ==> DistinctIds(r.rows) && Descending(r.rows)
  {
    hide AddRows, DistinctIds, NewestFirst, Descending, HasId, Collect, Arrived, IsGreatest, StopsAfter, KnownAs;
    var rows: seq<Row> := [];
    var seen: set<string> := {};
    var totalCount, totalKnown := 0, false;
    NothingYet();
    NoneArrived(upstream);
    calls := 0;
    ghost var all := Collect(upstream, 0, State([], 0, false));
    while calls < MAX_PAGES
      invariant 0 <= calls <= MAX_PAGES && DistinctIds(rows)
      invariant forall i :: 0 <= i < calls ==> upstream(i).Page?
      invariant KnownAs(upstream, calls, State(rows, totalCount, totalKnown))
      invariant forall i :: 0 <= i <= calls ==> !StopsAfter(upstream, i)
      invariant forall id :: id in seen <==> HasId(rows, id)
      invariant Collect(upstream, calls, State(rows, totalCount, totalKnown)) == all
    {
      var reply := upstream(calls);
      ghost var before := State(rows, totalCount, totalKnown);
      OnePage(upstream, calls, before);
      calls := calls + 1;
      if reply.Failed? {
        return Err, calls;
      }
      if reply.total.Some? {
        totalKnown := true;
        if reply.total.value > totalCount {
          totalCount := reply.total.value;
        }
      }
      var added;
      rows, seen, added := MergePage(rows, reply.rows, seen);
      ghost var next := State(rows, totalCount, totalKnown);
      assert next == AfterPage(before, reply.total, reply.rows);
      if totalKnown && |rows| >= totalCount {
        break;
      }
      if !totalKnown && |reply.rows| < PAGE_LIMIT {
        break;
      }
      if |reply.rows| == 0 || added == 0 {
        break;
      }
    }
    CollectDone(upstream, State(rows, totalCount, totalKnown));
    GreatestWithRows(upstream, calls, State(rows, totalCount, totalKnown));
    if |rows| > totalCount {
      totalCount := |rows|;
    }
    NewestFirstFacts(rows);
    SameSize(rows, NewestFirst(rows));
    SelectionIsDistinct(NewestFirst(rows), rows);
    r := Ok(NewestFirst(rows), totalCount);
  }

  /** The state of the walk says what the first pages held. */
  ghost predicate KnownAs(upstream: nat -> Reply, pages: nat, st: State) {
    && st.rows == AddRows([], Arrived(upstream, pages)) && IsGreatest(upstream, pages, 0, st.total)
    && (st.totalKnown <==> exists total :: Reported(upstream, pages, total))
  }

  lemma NoneArrived(upstream: nat -> Reply)
    ensures KnownAs(upstream, 0, State([], 0, false)) && !StopsAfter(upstream, 0)
  {
  }

  lemma OneMorePage(upstream: nat -> Reply, page: nat, st: State)
    requires upstream(page).Page? && KnownAs(upstream, page, st)
    ensures var next := AfterPage(st, upstream(page).total, upstream(page).rows);
      && KnownAs(upstream, page + 1, next)
      && (Complete(st, next, upstream(page).rows) <==> StopsAfter(upstream, page + 1))
  {
    var reported, read := upstream(page).total, page + 1;
    AddRowsConcat([], Arrived(upstream, page), upstream(page).rows);
    NothingAdded(st.rows);
    var next := AfterPage(st, reported, upstream(page).rows);
    hide AddRows;
    forall other | Reported(upstream, page, other) ensures Reported(upstream, read, other) {
      var i :| 0 <= i < page && upstream(i).Page? && upstream(i).total == Some(other);
      assert upstream(i).Page?;
    }
    assert upstream(page).Page? && (reported.Some? ==> Reported(upstream, read, reported.value));
    forall other | Reported(upstream, read, other)
      ensures next.total >= other && (Reported(upstream, page, other) || reported == Some(other))
    {
      var i :| 0 <= i < page + 1 && upstream(i).Page? && upstream(i).total == Some(other);
      if i < page { assert Reported(upstream, page, other); }
    }
  }

  lemma NothingAdded(rows: seq<Row>)
    ensures AddRows(rows, []) == rows
  {
  }

  /** One page of the walk, with the tests in the order the loop makes them. */
  lemma OnePage(upstream: nat -> Reply, page: nat, st: State)
    requires page < MAX_PAGES && KnownAs(upstream, page, st)
    ensures upstream(page).Failed? ==> Collect(upstream, page, st) == None
    ensures upstream(page).Page? ==>
      var rows, next := upstream(page).rows, AfterPage(st, upstream(page).total, upstream(page).rows);
      var complete := (next.totalKnown && |next.rows| >= next.total) || (!next.totalKnown && |rows| < PAGE_LIMIT)
        || |rows| == 0 || |next.rows| == |st.rows|;
      && KnownAs(upstream, page + 1, next) && (complete <==> StopsAfter(upstream, page + 1))
      && Collect(upstream, page, st) == if complete then Some(next) else Collect(upstream, page + 1, next)
  {
    hide KnownAs, StopsAfter, Collect;
    CollectOne(upstream, page, st);
    if upstream(page).Page? { OneMorePage(upstream, page, st); }
  }

  lemma GreatestWithRows(upstream: nat -> Reply, pages: nat, st: State)
    requires KnownAs(upstream, pages, st)
    ensures IsGreatest(upstream, pages, |st.rows|, if |st.rows| > st.total then |st.rows| else st.total)
    ensures st.rows == AddRows([], Arrived(upstream, pages))
  {
  }

  lemma CollectOne(upstream: nat -> Reply, page: nat, st: State)
    requires page < MAX_PAGES
    ensures upstream(page).Failed? ==> Collect(upstream, page, st) == None
    ensures upstream(page).Page? ==>
      var next := AfterPage(st, upstream(page).total, upstream(page).rows);
      Collect(upstream, page, st)
        == if Complete(st, next, upstream(page).rows) then Some(next) else Collect(upstream, page + 1, next)
  {
  }

  lemma CollectDone(upstream: nat -> Reply, st: State)
    ensures Collect(upstream, MAX_PAGES, st) == Some(st)
  {
  }

  lemma NothingYet()
    ensures DistinctIds([]) && forall id :: !HasId([], id)
  {
  }

  lemma SameSize(a: seq<Row>, b: seq<Row>)
    requires multiset(a) == multiset(b)
    ensures |a| == |b|
  {
    assert |multiset(a)| == |a| && |multiset(b)| == |b|;
  }

  // ---------- two stores ----------

  function Upto(s: seq<Row>, page: nat): nat {
    if PAGE_LIMIT * page < |s| then PAGE_LIMIT * page else |s|
  }

  function PageOf(s: seq<Row>, page: nat): seq<Row> {
    s[Upto(s, page)..Upto(s, page + 1)]
  }

  /** One Offset/Limit applied to both stores, with the exact combined total. */
  function TwoStores(a: seq<Row>, b: seq<Row>): nat -> Reply {
    (page: nat) => Page(Some(|a| + |b|), PageOf(a, page) + PageOf(b, page))
  }

  /** The rows of the first pages, in the order they arrive. */
  function FirstPages(a: seq<Row>, b: seq<Row>, pages: nat): seq<Row> {
    if pages == 0 then [] else FirstPages(a, b, pages - 1) + (PageOf(a, pages - 1) + PageOf(b, pages - 1))
  }

  /** How many pages hold every row. */
  function PagesNeeded(a: seq<Row>, b: seq<Row>): nat {
    var longer := if |a| > |b| then |a| else |b|;
    if longer == 0 then 1 else (longer + PAGE_LIMIT - 1) / PAGE_LIMIT
  }

  lemma {:induction false} AddFreshRows(rows: seq<Row>, page: seq<Row>)
    requires DistinctIds(rows + page)
    ensures AddRows(rows, page) == rows + page
    decreases |page|
  {
    if page == [] {
      assert rows + page == rows;
    } else {
      assert (rows + page)[|rows|] == page[0];
      assert forall i :: 0 <= i < |rows| ==> (rows + page)[i] == rows[i];
      assert rows + [page[0]] + page[1..] == rows + page;
      AddFreshRows(rows + [page[0]], page[1..]);
    }
  }

  lemma {:induction false} FirstPagesFacts(a: seq<Row>, b: seq<Row>, pages: nat)
    ensures |FirstPages(a, b, pages)| == Upto(a, pages) + Upto(b, pages)
    ensures multiset(FirstPages(a, b, pages)) == multiset(a[..Upto(a, pages)] + b[..Upto(b, pages)])
  {
    hide Upto, PageOf, FirstPages;
    if pages == 0 {
      NoPages(a, b);
    } else {
      var before, x, y := FirstPages(a, b, pages - 1), PageOf(a, pages - 1), PageOf(b, pages - 1);
      FirstPagesFacts(a, b, pages - 1);
      NextPage(a, b, pages - 1);
      PageExtends(a, pages);
      PageExtends(b, pages);
      Interleaved(before, a[..Upto(a, pages - 1)], b[..Upto(b, pages - 1)], x, y);
    }
  }

  lemma NoPages(a: seq<Row>, b: seq<Row>)
    ensures FirstPages(a, b, 0) == [] && Upto(a, 0) == Upto(b, 0) == 0
    ensures a[..Upto(a, 0)] + b[..Upto(b, 0)] == []
  {
  }

  lemma Interleaved(before: seq<Row>, a: seq<Row>, b: seq<Row>, x: seq<Row>, y: seq<Row>)
    requires multiset(before) == multiset(a + b)
    ensures multiset(before + (x + y)) == multiset((a + x) + (b + y))
  {
  }

  lemma PageExtends(s: seq<Row>, pages: nat)
    requires pages > 0
    ensures Upto(s, pages - 1) <= |s|
    ensures s[..Upto(s, pages)] == s[..Upto(s, pages - 1)] + PageOf(s, pages - 1)
    ensures Upto(s, pages) == Upto(s, pages - 1) + |PageOf(s, pages - 1)|
  {
  }

  lemma TwiceInside(s: seq<Row>, i: nat, j: nat)
    requires i < j < |s| && s[i] == s[j]
    ensures multiset(s)[s[i]] >= 2
  {
    assert s == s[..i] + [s[i]] + s[i + 1..j] + [s[j]] + s[j + 1..];
  }

  lemma OnceInside(s: seq<Row>, i: nat)
    requires DistinctIds(s) && i < |s|
    ensures multiset(s)[s[i]] == 1
  {
    assert s == s[..i] + [s[i]] + s[i + 1..];
    assert s[i] !in s[..i] && s[i] !in s[i + 1..];
  }

  /** A selection from rows with distinct ids has distinct ids. */
  lemma SelectionIsDistinct(part: seq<Row>, all: seq<Row>)
    requires DistinctIds(all) && multiset(part) <= multiset(all)
    ensures DistinctIds(part)
  {
    forall i | 0 <= i < |part| ensures part[i] in all { assert part[i] in multiset(part); }
    forall i, j | 0 <= i < j < |part| ensures part[i].id != part[j].id {
      var x: nat :| x < |all| && all[x] == part[i];
      var y: nat :| y < |all| && all[y] == part[j];
      OnceInside(all, x);
      if part[i] == part[j] { TwiceInside(part, i, j); }
    }
  }

  lemma PrefixesAreInside(a: seq<Row>, b: seq<Row>, x: nat, y: nat)
    requires x <= |a| && y <= |b|
    ensures multiset(a[..x] + b[..y]) <= multiset(a + b)
  {
    assert a == a[..x] + a[x..] && b == b[..y] + b[y..];
    assert multiset(a + b) == multiset(a[..x] + b[..y]) + multiset(a[x..] + b[y..]);
  }

  lemma FirstPagesAreDistinct(a: seq<Row>, b: seq<Row>, pages: nat)
    requires DistinctIds(a + b)
    ensures DistinctIds(FirstPages(a, b, pages))
  {
    hide FirstPages, DistinctIds;
    FirstPagesFacts(a, b, pages);
    PrefixesAreInside(a, b, Upto(a, pages), Upto(b, pages));
    SelectionIsDistinct(FirstPages(a, b, pages), a + b);
  }

  /** The pages the walk reads of two stores. */
  function PagesRead(a: seq<Row>, b: seq<Row>): nat {
    if PagesNeeded(a, b) < MAX_PAGES then PagesNeeded(a, b) else MAX_PAGES
  }

  /** From any page that is still needed, the walk ends with every row it may read, in arrival order. */
  lemma {:induction false} CollectsTheRest(a: seq<Row>, b: seq<Row>, page: nat, st: State)
    requires DistinctIds(a + b) && page < PagesRead(a, b)
    requires st.rows == FirstPages(a, b, page)
    requires if page == 0 then st == State([], 0, false) else st.total == |a| + |b| && st.totalKnown
    ensures Collect(TwoStores(a, b), page, st) == Some(State(FirstPages(a, b, PagesRead(a, b)), |a| + |b|, true))
    decreases MAX_PAGES - page
  {
    hide FirstPages, AddRows, DistinctIds;
    var rows := PageOf(a, page) + PageOf(b, page);
    var next := AfterPage(st, Some(|a| + |b|), rows);
    assert TwoStores(a, b)(page) == Page(Some(|a| + |b|), rows);
    NextPage(a, b, page);
    FirstPagesAreDistinct(a, b, page + 1);
    AddFreshRows(st.rows, rows);
    assert next == State(FirstPages(a, b, page + 1), |a| + |b|, true);
    FirstPagesFacts(a, b, page);
    FirstPagesFacts(a, b, page + 1);
    if page + 1 < PagesNeeded(a, b) {
      MoreToRead(a, b, page);
      assert !Complete(st, next, rows);
      if page + 1 < MAX_PAGES { CollectsTheRest(a, b, page + 1, next); }
    } else {
      AllRead(a, b);
      assert Complete(st, next, rows);
    }
  }

  lemma NextPage(a: seq<Row>, b: seq<Row>, page: nat)
    ensures FirstPages(a, b, page + 1) == FirstPages(a, b, page) + (PageOf(a, page) + PageOf(b, page))
  {
  }

  lemma MoreToRead(a: seq<Row>, b: seq<Row>, page: nat)
    requires page + 1 < PagesNeeded(a, b)
    ensures Upto(a, page) + Upto(b, page) < Upto(a, page + 1) + Upto(b, page + 1) < |a| + |b|
  {
  }

  lemma AllRead(a: seq<Row>, b: seq<Row>)
    ensures Upto(a, PagesNeeded(a, b)) == |a| && Upto(b, PagesNeeded(a, b)) == |b|
  {
  }

  /** Two stores with distinct ids and an exact total: the rows read come back once each, stably sorted,
      newest first. */
  lemma TwoStoresAreListed(a: seq<Row>, b: seq<Row>)
    requires DistinctIds(a + b)
    ensures var r, read := Finish(Collect(TwoStores(a, b), 0, State([], 0, false))), FirstPages(a, b, PagesRead(a, b));
      && r.Ok? && r.total == |a| + |b| && Descending(r.rows) && multiset(r.rows) == multiset(read)
      && forall t :: CreatedAt(r.rows, t) == CreatedAt(read, t)
  {
    CollectsTheRest(a, b, 0, State([], 0, false));
    FirstPagesFacts(a, b, PagesRead(a, b));
    NewestFirstFacts(FirstPages(a, b, PagesRead(a, b)));
  }

  /** Within 100 pages every instance comes back once; beyond, the kept total shows that some are missing. */
  lemma CompleteExactlyWithinTheBound(a: seq<Row>, b: seq<Row>)
    requires DistinctIds(a + b)
    ensures var r := Finish(Collect(TwoStores(a, b), 0, State([], 0, false)));
      && r.Ok?
      && (PagesNeeded(a, b) <= MAX_PAGES ==> multiset(r.rows) == multiset(a) + multiset(b) && r.total == |r.rows|)
      && (PagesNeeded(a, b) > MAX_PAGES ==> r.total > |r.rows|)
  {
    var n := PagesRead(a, b);
    var r := Finish(Collect(TwoStores(a, b), 0, State([], 0, false)));
    TwoStoresAreListed(a, b);
    FirstPagesFacts(a, b, n);
    SameSize(r.rows, FirstPages(a, b, n));
    if PagesNeeded(a, b) <= MAX_PAGES {
      AllRead(a, b);
      assert a[..|a|] == a && b[..|b|] == b;
    } else {
      MoreToRead(a, b, n - 1);
    }
  }

  // ---------- stores that report no total ----------

  /** The same two stores when no page names a total. */
  function Uncounted(a: seq<Row>, b: seq<Row>): nat -> Reply {
    (page: nat) => Page(None, PageOf(a, page) + PageOf(b, page))
  }

  lemma {:induction false} CollectsUncounted(a: seq<Row>, b: seq<Row>, page: nat, st: State)
    requires DistinctIds(a + b) && page <= PagesNeeded(a, b) && page <= MAX_PAGES
    requires st == State(FirstPages(a, b, page), 0, false)
    ensures Collect(Uncounted(a, b), page, st) == Some(State(FirstPages(a, b, PagesRead(a, b)), 0, false))
    decreases MAX_PAGES - page
  {
    hide FirstPages, AddRows, DistinctIds;
    if page < MAX_PAGES {
      var rows := PageOf(a, page) + PageOf(b, page);
      var next := AfterPage(st, None, rows);
      assert Uncounted(a, b)(page) == Page(None, rows);
      NextPage(a, b, page);
      FirstPagesAreDistinct(a, b, page + 1);
      AddFreshRows(st.rows, rows);
      assert next == State(FirstPages(a, b, page + 1), 0, false);
      ShortPage(a, b, page);
      if page == PagesNeeded(a, b) {
        assert FirstPages(a, b, page + 1) == FirstPages(a, b, page);
        assert Complete(st, next, rows);
      } else if |rows| < PAGE_LIMIT {
        assert Complete(st, next, rows);
      } else {
        assert !Complete(st, next, rows);
        CollectsUncounted(a, b, page + 1, next);
      }
    }
  }

  /** A page with fewer rows than the limit is the last one that has any. */
  lemma ShortPage(a: seq<Row>, b: seq<Row>, page: nat)
    requires page <= PagesNeeded(a, b)
    ensures page == PagesNeeded(a, b) ==> PageOf(a, page) + PageOf(b, page) == []
    ensures page < PagesNeeded(a, b) && |PageOf(a, page) + PageOf(b, page)| < PAGE_LIMIT ==>
      page + 1 == PagesNeeded(a, b)
  {
    AllRead(a, b);
  }

  /** Without a total the walk still goes on to the first short page. It never fails and returns every instance exactly
      if 100 pages hold them; beyond, nothing in the answer shows that some are missing. */
  lemma UncountedIsCompleteIff(a: seq<Row>, b: seq<Row>)
    requires DistinctIds(a + b)
    ensures var r := Finish(Collect(Uncounted(a, b), 0, State([], 0, false)));
      && r.Ok? && r.total == |r.rows| && Descending(r.rows)
      && (multiset(r.rows) == multiset(a) + multiset(b) <==> PagesNeeded(a, b) <= MAX_PAGES)
  {
    var n := PagesRead(a, b);
    var read := FirstPages(a, b, n);
    var r := Finish(Collect(Uncounted(a, b), 0, State([], 0, false)));
    CollectsUncounted(a, b, 0, State([], 0, false));
    FirstPagesFacts(a, b, n);
    NewestFirstFacts(read);
    SameSize(r.rows, read);
    if PagesNeeded(a, b) <= MAX_PAGES {
      AllRead(a, b);
      assert a[..|a|] == a && b[..|b|] == b;
    } else {
      MoreToRead(a, b, n - 1);
      assert |multiset(r.rows)| < |multiset(a + b)|;
    }
  }
}
