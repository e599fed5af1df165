/** Cold-history recovery: a backward paged walk that equals a forward grouping and a budgeted suffix. */
module Rehydrate {
  import opened Options

  datatype Row = Row(role: string, status: string, content: string, metadata: string)

  datatype HistoryMessage = HistoryMessage(role: string, content: string, transcript: string)

  /** One reply of ListRecentBySessionPage, rows newest first. */
  datatype Reply = Page(rows: seq<Row>) | Failed

  datatype Result = Ok(history: seq<HistoryMessage>) | Err

  /** A user message and its first following assistant message before the next user message. */
  datatype Turn = Turn(user: HistoryMessage, answer: Option<HistoryMessage>)

  function ToHistoryMessage(row: Row): Option<HistoryMessage> {
    var interrupted := row.role == "assistant" && (row.status == "aborted" || row.status == "error");
    if row.status != "ok" && !interrupted then None
    else if row.role != "user" && row.role != "assistant" then None
    else Some(HistoryMessage(row.role, if interrupted then "" else row.content, row.metadata))
  }

  // ---------- the specification: forward, in chronological order ----------

  function Reverse<T>(s: seq<T>): seq<T> {
    if s == [] then [] else Reverse(s[1..]) + [s[0]]
  }

  function Visible(rows: seq<Row>): seq<HistoryMessage> {
    if rows == [] then []
    else match ToHistoryMessage(rows[0])
      case None => Visible(rows[1..])
      case Some(m) => [m] + Visible(rows[1..])
  }

  predicate StartsWith(ms: seq<HistoryMessage>, role: string) {
    ms != [] && ms[0].role == role
  }

  function LeadingAnswer(ms: seq<HistoryMessage>): Option<HistoryMessage> {
    if StartsWith(ms, "assistant") then Some(ms[0]) else None
  }

  function Turns(ms: seq<HistoryMessage>): seq<Turn> {
    if ms == [] then []
    else if ms[0].role == "user" then [Turn(ms[0], LeadingAnswer(ms[1..]))] + Turns(ms[1..])
    else Turns(ms[1..])
  }

  function Messages(t: Turn): seq<HistoryMessage> {
    [t.user] + if t.answer.Some? then [t.answer.value] else []
  }

  function Flatten(turns: seq<Turn>): seq<HistoryMessage> {
    if turns == [] then [] else Messages(turns[0]) + Flatten(turns[1..])
  }

  function TurnCost(cost: HistoryMessage -> nat, t: Turn): nat {
    cost(t.user) + if t.answer.Some? then cost(t.answer.value) else 0
  }

  function Cost(cost: HistoryMessage -> nat, turns: seq<Turn>): nat {
    if turns == [] then 0 else TurnCost(cost, turns[0]) + Cost(cost, turns[1..])
  }

  /** turns[k..] is the longest suffix that fits the budget: the newest turn is always kept, and everything is kept when
      the budget is not positive. */
  ghost predicate IsCut(cost: HistoryMessage -> nat, turns: seq<Turn>, budget: int, k: nat) {
    && k <= |turns|
    && (k > 0 ==> k < |turns|)
    && (budget <= 0 ==> k == 0)
    && (budget > 0 && k + 1 < |turns| ==> Cost(cost, turns[k..]) <= budget)
    && (forall j :: 0 <= j < k ==> Cost(cost, turns[j..]) > budget)
  }

  function Cut(cost: HistoryMessage -> nat, turns: seq<Turn>, budget: int): nat {
    if |turns| <= 1 || budget <= 0 || Cost(cost, turns) <= budget then 0
    else 1 + Cut(cost, turns[1..], budget)
  }

  function Recent(cost: HistoryMessage -> nat, turns: seq<Turn>, budget: int): seq<HistoryMessage>
  {
    var k := Cut(cost, turns, budget);
    if k <= |turns| then Flatten(turns[k..]) else []
  }

  /** The rows the walk can reach, newest first: an empty page ends it like a missing cursor. */
  function Rows(pages: seq<Reply>): seq<Row> {
    if pages == [] || pages[0].Failed? || pages[0].rows == [] then []
    else pages[0].rows + Rows(pages[1..])
  }

  predicate Fails(pages: seq<Reply>) {
    pages != [] && (pages[0].Failed? || (pages[0].rows != [] && Fails(pages[1..])))
  }

  function AllTurns(rowsNewestFirst: seq<Row>): seq<Turn> {
    Turns(Visible(Reverse(rowsNewestFirst)))
  }

  function Expected(cost: HistoryMessage -> nat, pages: seq<Reply>, budget: int): Result {
    var turns := AllTurns(Rows(pages));
    if Fails(pages) && Cut(cost, turns, budget) == 0 then Err else Ok(Recent(cost, turns, budget))
  }

  // ---------- the walk ----------

  /** What the walk's variables mean after the rows seen, newest first, while the budget still holds. */
  ghost predicate Walked(cost: HistoryMessage -> nat, seen: seq<Row>, budget: int,
                         newestFirst: seq<Turn>, pending: Option<HistoryMessage>, spent: int) {
    var ms := Visible(Reverse(seen));
    && Reverse(newestFirst) == Turns(ms)
    && pending == LeadingAnswer(ms)
    && spent == Cost(cost, Turns(ms))
    && Cut(cost, Turns(ms), budget) == 0
  }

  /** The last row seen opened a turn that no longer fits; the kept turns are all the others. */
  ghost predicate Stopped(cost: HistoryMessage -> nat, seen: seq<Row>, budget: int, newestFirst: seq<Turn>) {
    var ms := Visible(Reverse(seen));
    && StartsWith(ms, "user") && budget > 0
    && |Turns(ms)| > 1 && Cost(cost, Turns(ms)) > budget
    && Cut(cost, Turns(ms)[1..], budget) == 0 && Reverse(newestFirst) == Turns(ms)[1..]
  }

  /** The loop body over one page. */
  method ReadPage(page: seq<Row>, budget: int, cost: HistoryMessage -> nat, ghost seen: seq<Row>,
                  turns: seq<Turn>, answer: Option<HistoryMessage>, cost0: int)
    returns (newestFirst: seq<Turn>, pending: Option<HistoryMessage>, spent: int, budgetReached: bool, read: nat)
    requires Walked(cost, seen, budget, turns, answer, cost0)
    ensures read <= |page|
    ensures !budgetReached ==> read == |page| && Walked(cost, seen + page, budget, newestFirst, pending, spent)
    ensures budgetReached ==> Stopped(cost, seen + page[..read], budget, newestFirst)
  {
    newestFirst, pending, spent, budgetReached, read := turns, answer, cost0, false, 0;
    assert seen + page[..0] == seen;
    while read < |page|
      invariant 0 <= read <= |page| && !budgetReached
      invariant Walked(cost, seen + page[..read], budget, newestFirst, pending, spent)
    {
      ghost var soFar := seen + page[..read];
      assert seen + page[..read + 1] == soFar + [page[read]];
      match ToHistoryMessage(page[read]) {
        case None =>
          OtherRow(cost, soFar, page[read], budget, newestFirst, pending, spent);
        case Some(msg) =>
          if msg.role == "assistant" {
            // An older assistant row replaces the later orphan seen before it.
            OtherRow(cost, soFar, page[read], budget, newestFirst, pending, spent);
            pending := Some(msg);
          } else {
            var turn := Turn(msg, pending);
            var turnCost := cost(msg) + if pending.Some? then cost(pending.value) else 0;
            UserRow(cost, soFar, page[read], budget, newestFirst, pending, spent, turn);
            if budget > 0 && |newestFirst| > 0 && spent + turnCost > budget {
              budgetReached := true;
              read := read + 1;
              break;
            }
            newestFirst := newestFirst + [turn];
            spent := spent + turnCost;
            pending := None;
          }
      }
      read := read + 1;
    }
    assert page[..|page|] == page;
  }

  lemma OtherRow(cost: HistoryMessage -> nat, seen: seq<Row>, row: Row, budget: int,
                 newestFirst: seq<Turn>, pending: Option<HistoryMessage>, spent: int)
    requires Walked(cost, seen, budget, newestFirst, pending, spent)
    ensures ToHistoryMessage(row).None? ==> Walked(cost, seen + [row], budget, newestFirst, pending, spent)
    ensures ToHistoryMessage(row).Some? && ToHistoryMessage(row).value.role == "assistant" ==>
              Walked(cost, seen + [row], budget, newestFirst, ToHistoryMessage(row), spent)
  {
    OneMoreRow(seen, row);
    var ms := Visible(Reverse(seen));
    assert forall m :: ([m] + ms)[1..] == ms;
    assert [] + ms == ms;
  }

  lemma UserRow(cost: HistoryMessage -> nat, seen: seq<Row>, row: Row, budget: int,
                newestFirst: seq<Turn>, pending: Option<HistoryMessage>, spent: int, turn: Turn)
    requires Walked(cost, seen, budget, newestFirst, pending, spent)
    requires ToHistoryMessage(row).Some? && ToHistoryMessage(row).value.role == "user"
    requires turn == Turn(ToHistoryMessage(row).value, pending)
    ensures if budget > 0 && |newestFirst| > 0 && spent + TurnCost(cost, turn) > budget
            then Stopped(cost, seen + [row], budget, newestFirst)
            else Walked(cost, seen + [row], budget, newestFirst + [turn], None, spent + TurnCost(cost, turn))
  {
    OneMoreRow(seen, row);
    ReverseAppend(newestFirst, turn);
    ReverseLength(newestFirst);
    var ms := Visible(Reverse(seen));
    assert ([turn.user] + ms)[1..] == ms && ([turn] + Turns(ms))[1..] == Turns(ms);
  }

  lemma {:induction false} ReverseLength<T>(s: seq<T>)
    ensures |Reverse(s)| == |s|
  {
    if s != [] { ReverseLength(s[1..]); }
  }

  /** A turn stands in the history as its user message with its answer, if any, right behind it. */
  lemma {:induction false} TurnStandsWhole(a: seq<Turn>, t: Turn, b: seq<Turn>)
    ensures Flatten(a + [t] + b)
         == Flatten(a) + ([t.user] + if t.answer.Some? then [t.answer.value] else []) + Flatten(b)
  {
    if a == [] {
      assert [] + [t] + b == [t] + b && ([t] + b)[1..] == b;
    } else {
      assert (a + [t] + b)[1..] == a[1..] + [t] + b && (a + [t] + b)[0] == a[0];
      TurnStandsWhole(a[1..], t, b);
    }
  }

  method OldestFirst(newestFirst: seq<Turn>) returns (history: seq<HistoryMessage>)
    ensures history == Flatten(Reverse(newestFirst))
  {
    history := [];
    var n := |newestFirst|;
    while n > 0
      invariant 0 <= n <= |newestFirst|
      invariant history == Flatten(Reverse(newestFirst[n..]))
    {
      n := n - 1;
      assert newestFirst[n..][1..] == newestFirst[n + 1..];
      FlattenAppend(Reverse(newestFirst[n + 1..]), newestFirst[n]);
      history := history + Messages(newestFirst[n]);
    }
    assert newestFirst[0..] == newestFirst;
  }

  /** pages are the replies in the order of the calls; the last one carries the empty cursor. */
  method LoadRecentHistory(pages: seq<Reply>, budget: int, cost: HistoryMessage -> nat) returns (r: Result)
    requires pages != []
    ensures r == Expected(cost, pages, budget)
  {
    hide Cut, Cost, Visible, Turns, Reverse, Flatten;
    var newestFirst: seq<Turn> := [];
    var pending: Option<HistoryMessage> := None;
    var spent := 0;
    ghost var seen: seq<Row> := [];
    NothingWalked(cost, budget);
    var i := 0;
    while true
      invariant i < |pages|
      invariant Walked(cost, seen, budget, newestFirst, pending, spent)
      invariant Rows(pages) == seen + Rows(pages[i..]) && Fails(pages) == Fails(pages[i..])
      decreases |pages| - i
    {
      if pages[i].Failed? {
        assert seen + [] == seen;
        return Err;
      }
      var page := pages[i].rows;
      ghost var rest := if page == [] then [] else Rows(pages[i + 1..]);
      assert pages[i..][1..] == pages[i + 1..];
      var budgetReached;
      var read;
      newestFirst, pending, spent, budgetReached, read :=
        ReadPage(page, budget, cost, seen, newestFirst, pending, spent);
      if budgetReached {
        StoppedIsFinal(cost, seen + page[..read], page[read..] + rest, budget, newestFirst);
        assert Rows(pages) == (seen + page[..read]) + (page[read..] + rest);
        break;
      }
      assert Rows(pages) == (seen + page) + rest;
      seen := seen + page;
      i := i + 1;
      if i == |pages| || page == [] {
        WalkedIsComplete(cost, seen, budget, newestFirst, pending, spent);
        assert seen + [] == seen;
        break;
      }
    }
    var history := OldestFirst(newestFirst);
    r := Ok(history);
  }

  lemma NothingWalked(cost: HistoryMessage -> nat, budget: int)
    ensures Walked(cost, [], budget, [], None, 0)
  {
  }

  lemma WalkedIsComplete(cost: HistoryMessage -> nat, seen: seq<Row>, budget: int,
                         newestFirst: seq<Turn>, pending: Option<HistoryMessage>, spent: int)
    requires Walked(cost, seen, budget, newestFirst, pending, spent)
    ensures Recent(cost, AllTurns(seen), budget) == Flatten(Reverse(newestFirst))
  {
    assert AllTurns(seen)[0..] == AllTurns(seen);
  }

  lemma StoppedIsFinal(cost: HistoryMessage -> nat, seen: seq<Row>, older: seq<Row>, budget: int,
                       newestFirst: seq<Turn>)
    requires Stopped(cost, seen, budget, newestFirst)
    ensures Recent(cost, AllTurns(seen + older), budget) == Flatten(Reverse(newestFirst))
    ensures Cut(cost, AllTurns(seen + older), budget) > 0
  {
    OlderRowsDoNotMatter(cost, seen, older, budget);
    OneTurnTooMany(cost, AllTurns(seen), budget);
  }

  lemma OneTurnTooMany(cost: HistoryMessage -> nat, turns: seq<Turn>, budget: int)
    requires budget > 0 && |turns| > 1 && Cost(cost, turns) > budget && Cut(cost, turns[1..], budget) == 0
    ensures Recent(cost, turns, budget) == Flatten(turns[1..])
  {
  }

  lemma {:induction false} FlattenAppend(turns: seq<Turn>, t: Turn)
    ensures Flatten(turns + [t]) == Flatten(turns) + Messages(t)
  {
    if turns == [] {
      assert turns + [t] == [t];
    } else {
      assert (turns + [t])[1..] == turns[1..] + [t];
      FlattenAppend(turns[1..], t);
    }
  }

  lemma ReverseAppend<T>(s: seq<T>, x: T)
    ensures Reverse(s + [x]) == [x] + Reverse(s)
  {
    if s == [] {
      assert s + [x] == [x];
    } else {
      assert (s + [x])[1..] == s[1..] + [x];
      ReverseAppend(s[1..], x);
    }
  }

  lemma OneMoreRow(seen: seq<Row>, row: Row)
    ensures Visible(Reverse(seen + [row]))
              == (match ToHistoryMessage(row) case None => [] case Some(m) => [m]) + Visible(Reverse(seen))
  {
    ReverseAppend(seen, row);
    assert ([row] + Reverse(seen))[1..] == Reverse(seen);
  }

  lemma {:induction false} VisibleConcat(a: seq<Row>, b: seq<Row>)
    ensures Visible(a + b) == Visible(a) + Visible(b)
  {
    if a == [] {
      assert a + b == b;
    } else {
      assert (a + b)[1..] == a[1..] + b;
      VisibleConcat(a[1..], b);
    }
  }

  lemma {:induction false} ReverseConcat<T>(a: seq<T>, b: seq<T>)
    ensures Reverse(a + b) == Reverse(b) + Reverse(a)
  {
    if a == [] {
      assert a + b == b;
    } else {
      assert (a + b)[1..] == a[1..] + b;
      ReverseConcat(a[1..], b);
    }
  }

  /** A user message starts a turn whatever precedes it. */
  lemma {:induction false} TurnsConcat(a: seq<HistoryMessage>, b: seq<HistoryMessage>)
    requires StartsWith(b, "user")
    ensures Turns(a + b) == Turns(a) + Turns(b)
  {
    if a == [] {
      assert a + b == b;
    } else {
      assert (a + b)[1..] == a[1..] + b;
      assert |a| == 1 ==> a[1..] + b == b;
      TurnsConcat(a[1..], b);
    }
  }

  lemma {:induction false} CutBehindOlder(cost: HistoryMessage -> nat, x: seq<Turn>, t: seq<Turn>, budget: int)
    requires budget > 0 && |t| > 1 && Cost(cost, t) > budget
    ensures Cost(cost, x + t) > budget
    ensures Cut(cost, x + t, budget) == |x| + Cut(cost, t, budget)
  {
    if x == [] {
      assert x + t == t;
    } else {
      assert (x + t)[1..] == x[1..] + t;
      CutBehindOlder(cost, x[1..], t, budget);
    }
  }

  lemma {:induction false} CutIsInside(cost: HistoryMessage -> nat, turns: seq<Turn>, budget: int)
    ensures Cut(cost, turns, budget) == 0 || Cut(cost, turns, budget) < |turns|
  {
    if Cut(cost, turns, budget) > 0 { CutIsInside(cost, turns[1..], budget); }
  }

  /** Once the newest rows start with a turn that no longer fits, older rows cannot change the answer. */
  lemma OlderRowsDoNotMatter(cost: HistoryMessage -> nat, newer: seq<Row>, older: seq<Row>, budget: int)
    requires var ms := Visible(Reverse(newer));
             StartsWith(ms, "user") && budget > 0 && |Turns(ms)| > 1 && Cost(cost, Turns(ms)) > budget
    ensures Recent(cost, AllTurns(newer + older), budget) == Recent(cost, AllTurns(newer), budget)
    ensures Cut(cost, AllTurns(newer + older), budget) > 0
  {
    var ms, x := Visible(Reverse(newer)), Visible(Reverse(older));
    ReverseConcat(newer, older);
    VisibleConcat(Reverse(older), Reverse(newer));
    TurnsConcat(x, ms);
    CutBehindOlder(cost, Turns(x), Turns(ms), budget);
    CutIsInside(cost, Turns(ms), budget);
    var k := Cut(cost, Turns(ms), budget);
    assert (Turns(x) + Turns(ms))[|Turns(x)| + k..] == Turns(ms)[k..];
  }

  // ---------- what the specification promises ----------

  /** The kept suffix is the longest one within the budget, never without the newest turn. */
  lemma {:induction false} CutIsLongest(cost: HistoryMessage -> nat, turns: seq<Turn>, budget: int)
    ensures IsCut(cost, turns, budget, Cut(cost, turns, budget))
  {
    if Cut(cost, turns, budget) == 0 {
      assert turns[0..] == turns;
    } else {
      CutIsLongest(cost, turns[1..], budget);
      hide Cost;
      LongerCut(cost, turns, budget, Cut(cost, turns[1..], budget));
    }
  }

  lemma LongerCut(cost: HistoryMessage -> nat, turns: seq<Turn>, budget: int, k: nat)
    requires |turns| > 1 && budget > 0 && Cost(cost, turns) > budget && IsCut(cost, turns[1..], budget, k)
    ensures IsCut(cost, turns, budget, k + 1)
  {
    hide Cost;
    assert turns[k + 1..] == turns[1..][k..];
    forall j | 0 <= j < k + 1 ensures Cost(cost, turns[j..]) > budget {
      if j == 0 { assert turns[0..] == turns; } else { assert turns[j..] == turns[1..][j - 1..]; }
    }
  }

  lemma CutIsUnique(cost: HistoryMessage -> nat, turns: seq<Turn>, budget: int, k: nat)
    requires IsCut(cost, turns, budget, k)
    ensures k == Cut(cost, turns, budget)
  {
    CutIsLongest(cost, turns, budget);
    var c := Cut(cost, turns, budget);
    var a, b := Cost(cost, turns[c..]), Cost(cost, turns[k..]);
  }

  function Concat(pages: seq<seq<Row>>): seq<Row> {
    if pages == [] then [] else pages[0] + Concat(pages[1..])
  }

  function AsReplies(pages: seq<seq<Row>>): seq<Reply> {
    if pages == [] then [] else [Page(pages[0])] + AsReplies(pages[1..])
  }

  lemma {:induction false} NonEmptyPagesAreAllRead(pages: seq<seq<Row>>)
    requires forall i :: 0 <= i < |pages| ==> pages[i] != []
    ensures Rows(AsReplies(pages)) == Concat(pages) && !Fails(AsReplies(pages))
  {
    if pages != [] {
      NonEmptyPagesAreAllRead(pages[1..]);
      assert AsReplies(pages)[1..] == AsReplies(pages[1..]);
    }
  }

  /** The page size is an I/O detail: any division into non-empty pages recovers the same suffix of the forward
      grouping. */
  lemma PageSizeDoesNotMatter(cost: HistoryMessage -> nat, pages: seq<seq<Row>>, chronological: seq<Row>, budget: int)
    requires forall i :: 0 <= i < |pages| ==> pages[i] != []
    requires Concat(pages) == Reverse(chronological)
    ensures Expected(cost, AsReplies(pages), budget) == Ok(Recent(cost, Turns(Visible(chronological)), budget))
    ensures IsHistory(cost, Visible(chronological), budget, Recent(cost, Turns(Visible(chronological)), budget))
  {
    NonEmptyPagesAreAllRead(pages);
    ReverseTwice(chronological);
    HistoryIsExact(cost, AsReplies(pages), budget);
  }

  lemma {:induction false} ReverseTwice<T>(s: seq<T>)
    ensures Reverse(Reverse(s)) == s
  {
    if s != [] {
      ReverseTwice(s[1..]);
      ReverseAppend(Reverse(s[1..]), s[0]);
    }
  }

  // ---------- which messages, and where ----------

  /** A message that belongs to a turn: a user's, or an assistant's directly behind a user's. */
  predicate InTurn(ms: seq<HistoryMessage>, i: nat)
    requires i < |ms|
  {
    ms[i].role == "user" || (ms[i].role == "assistant" && i > 0 && ms[i - 1].role == "user")
  }

  /** The messages of turns from position i on, in their order. */
  function Picked(ms: seq<HistoryMessage>, i: nat): seq<HistoryMessage>
    decreases |ms| - i
  {
    if i >= |ms| then [] else (if InTurn(ms, i) then [ms[i]] else []) + Picked(ms, i + 1)
  }

  predicate OpensTurn(ms: seq<HistoryMessage>, p: nat) {
    p < |ms| && ms[p].role == "user"
  }

  function MessageCost(cost: HistoryMessage -> nat, h: seq<HistoryMessage>): nat {
    if h == [] then 0 else cost(h[0]) + MessageCost(cost, h[1..])
  }

  /** The history starts at p: from that user message on, every user message and every answer directly behind one, in
      chronological order. It is the longest such within the budget, always with the newest turn, and everything
      without a budget. */
  ghost predicate StartsAt(cost: HistoryMessage -> nat, ms: seq<HistoryMessage>, budget: int, p: nat,
                           history: seq<HistoryMessage>) {
    && history == Picked(ms, p)
    && (OpensTurn(ms, p) || (history == [] && forall q: nat :: !OpensTurn(ms, q)))
    && (budget > 0 ==> MessageCost(cost, history) <= budget || forall q: nat :: q > p ==> !OpensTurn(ms, q))
    && (forall q: nat :: q < p && OpensTurn(ms, q) ==> budget > 0 && MessageCost(cost, Picked(ms, q)) > budget)
  }

  ghost predicate OnlyTwoRoles(ms: seq<HistoryMessage>) {
    forall i :: 0 <= i < |ms| ==> ms[i].role == "user" || ms[i].role == "assistant"
  }

  lemma {:induction false} VisibleRoles(rows: seq<Row>)
    ensures OnlyTwoRoles(Visible(rows))
  {
    if rows != [] { VisibleRoles(rows[1..]); }
  }

  lemma {:induction false} FlattenIsPicked(ms: seq<HistoryMessage>, i: nat)
    requires OnlyTwoRoles(ms) && i <= |ms|
    ensures Picked(ms, i)
         == (if i > 0 && ms[i - 1].role == "user" then Leading(ms[i..]) else []) + Flatten(Turns(ms[i..]))
    decreases |ms| - i
  {
    if i < |ms| {
      FlattenIsPicked(ms, i + 1);
      assert ms[i..][0] == ms[i] && ms[i..][1..] == ms[i + 1..];
      assert Picked(ms, i) == (if InTurn(ms, i) then [ms[i]] else []) + Picked(ms, i + 1);
      FirstOfTurns(ms[i..]);
      hide Turns, Flatten, Picked;
    }
  }

  lemma FirstOfTurns(ms: seq<HistoryMessage>)
    requires ms != []
    ensures Flatten(Turns(ms))
      == (if ms[0].role == "user" then [ms[0]] + Leading(ms[1..]) else []) + Flatten(Turns(ms[1..]))
  {
    if ms[0].role == "user" {
      var t, rest := Turn(ms[0], LeadingAnswer(ms[1..])), Turns(ms[1..]);
      assert Turns(ms) == [t] + rest && ([t] + rest)[1..] == rest;
      hide Turns;
      assert Messages(t) == [ms[0]] + Leading(ms[1..]);
    }
  }

  function Leading(ms: seq<HistoryMessage>): seq<HistoryMessage> {
    if StartsWith(ms, "assistant") then [ms[0]] else []
  }

  lemma {:induction false} CostIsOfMessages(cost: HistoryMessage -> nat, turns: seq<Turn>)
    ensures Cost(cost, turns) == MessageCost(cost, Flatten(turns))
  {
    if turns != [] {
      CostIsOfMessages(cost, turns[1..]);
      var t, rest := turns[0], Flatten(turns[1..]);
      if t.answer.Some? {
        assert (Messages(t) + rest)[1..] == [t.answer.value] + rest && ([t.answer.value] + rest)[1..] == rest;
      } else {
        assert (Messages(t) + rest)[1..] == rest;
      }
    }
  }

  /** The position at which turn k opens; the end for k past the last turn. */
  function OpeningOf(ms: seq<HistoryMessage>, k: nat): nat {
    if ms == [] then 0
    else if ms[0].role != "user" then 1 + OpeningOf(ms[1..], k)
    else if k == 0 then 0 else 1 + OpeningOf(ms[1..], k - 1)
  }

  lemma {:induction false} OpeningFacts(ms: seq<HistoryMessage>, k: nat)
    requires k <= |Turns(ms)|
    ensures var p := OpeningOf(ms, k);
      p <= |ms| && Turns(ms)[k..] == Turns(ms[p..]) && (if k < |Turns(ms)| then OpensTurn(ms, p) else p == |ms|)
  {
    if ms != [] {
      var p, rest := OpeningOf(ms, k), ms[1..];
      if ms[0].role != "user" {
        OpeningFacts(rest, k);
        assert ms[p..] == rest[p - 1..];
      } else if k > 0 {
        OpeningFacts(rest, k - 1);
        assert ms[p..] == rest[p - 1..];
        assert Turns(ms)[k..] == Turns(rest)[k - 1..];
      } else {
        assert ms[0..] == ms && Turns(ms)[0..] == Turns(ms);
      }
    }
  }

  /** Every user message opens some turn, in order. */
  lemma {:induction false} TurnOpenedAt(ms: seq<HistoryMessage>, p: nat) returns (k: nat)
    requires OpensTurn(ms, p)
    ensures k < |Turns(ms)| && OpeningOf(ms, k) == p
  {
    if p == 0 {
      k := 0;
    } else {
      k := TurnOpenedAt(ms[1..], p - 1);
      if ms[0].role == "user" { k := k + 1; }
    }
  }

  lemma {:induction false} OpeningsAscend(ms: seq<HistoryMessage>, j: nat, k: nat)
    requires j < k <= |Turns(ms)|
    ensures OpeningOf(ms, j) < OpeningOf(ms, k)
  {
    if ms[0].role != "user" { OpeningsAscend(ms[1..], j, k); }
    else if j > 0 { OpeningsAscend(ms[1..], j - 1, k - 1); }
  }

  lemma SuffixIsPicked(cost: HistoryMessage -> nat, ms: seq<HistoryMessage>, k: nat)
    requires OnlyTwoRoles(ms) && k <= |Turns(ms)|
    ensures OpeningOf(ms, k) <= |ms| && Flatten(Turns(ms)[k..]) == Picked(ms, OpeningOf(ms, k))
    ensures Cost(cost, Turns(ms)[k..]) == MessageCost(cost, Picked(ms, OpeningOf(ms, k)))
  {
    var p := OpeningOf(ms, k);
    OpeningFacts(ms, k);
    FlattenIsPicked(ms, p);
    CostIsOfMessages(cost, Turns(ms)[k..]);
    if p < |ms| { assert !StartsWith(ms[p..], "assistant"); }
  }

  ghost predicate IsHistory(cost: HistoryMessage -> nat, ms: seq<HistoryMessage>, budget: int,
                            history: seq<HistoryMessage>) {
    exists p :: StartsAt(cost, ms, budget, p, history)
  }

  /** What is returned, said over the visible messages in chronological order. */
  lemma HistoryIsExact(cost: HistoryMessage -> nat, pages: seq<Reply>, budget: int)
    requires Expected(cost, pages, budget).Ok?
    ensures IsHistory(cost, Visible(Reverse(Rows(pages))), budget, Expected(cost, pages, budget).history)
  {
    var ms := Visible(Reverse(Rows(pages)));
    var turns := Turns(ms);
    VisibleRoles(Reverse(Rows(pages)));
    var k := Cut(cost, turns, budget);
    CutIsLongest(cost, turns, budget);
    SuffixIsPicked(cost, ms, k);
    OpeningFacts(ms, k);
    var p, h := OpeningOf(ms, k), Expected(cost, pages, budget).history;
    assert h == Picked(ms, p) && (p == |ms| ==> h == []);
    hide Turns, Cut, Flatten, Picked, OpeningOf, Visible, Cost, MessageCost;
    forall q: nat | OpensTurn(ms, q)
      ensures q < p ==> budget > 0 && MessageCost(cost, Picked(ms, q)) > budget
      ensures q > p ==> k + 1 < |turns|
      ensures k < |turns|
    {
      var j := TurnOpenedAt(ms, q);
      if j < k { OpeningsAscend(ms, j, k); SuffixIsPicked(cost, ms, j); }
      if j > k { OpeningsAscend(ms, k, j); }
    }
    assert StartsAt(cost, ms, budget, p, h);
  }

  /** Which rows are visible, and as what: users only when their row is ok, assistants also when interrupted, and then
      with their content blanked; the metadata is always carried over. */
  lemma VisibleRowIsExact(row: Row)
    ensures ToHistoryMessage(row).Some? <==>
      ((row.role == "user" && row.status == "ok")
       || (row.role == "assistant" && row.status in {"ok", "aborted", "error"}))
    ensures ToHistoryMessage(row).Some? ==>
      var m := ToHistoryMessage(row).value;
      m.role == row.role && m.transcript == row.metadata && m.content == if row.status == "ok" then row.content else ""
  {
  }

  /** The visible messages are those of the visible rows, in their order. */
  lemma {:induction false} VisibleIsInOrder(rows: seq<Row>, row: Row, more: seq<Row>)
    ensures Visible(rows + [row] + more)
      == Visible(rows) + (if ToHistoryMessage(row).Some? then [ToHistoryMessage(row).value] else []) + Visible(more)
  {
    VisibleConcat(rows + [row], more);
    VisibleConcat(rows, [row]);
    assert [row][1..] == [];
    assert Visible([]) == [];
  }

  /** An error is returned exactly if the walk meets a failing page while all turns before it fit. */
  lemma ErrorIff(cost: HistoryMessage -> nat, pages: seq<Reply>, budget: int)
    ensures Expected(cost, pages, budget).Err? <==>
      Fails(pages) && (budget <= 0 || |AllTurns(Rows(pages))| <= 1 || Cost(cost, AllTurns(Rows(pages))) <= budget)
  {
  }
}
