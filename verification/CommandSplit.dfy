/** The quote-aware splitting of shell commands into separately classified pieces. */
module CommandSplit {
  import opened Trimming
  import opened Options

  /** A separator found at an index, with its width. */
  datatype Cut = Cut(at: nat, width: nat)

  const CHAIN_SINGLES: set<char> := {';', '|', '\n'}
  const CONDITIONAL_SINGLES: set<char> := {';', '\n'}

  // ---------- masking ----------

  predicate IsQuote(c: char) {
    c == '\'' || c == '\"'
  }

  /** The open quote after c, when q was open before it. */
  function NextQuote(c: char, q: Option<char>): Option<char> {
    if q.Some? then if c == q.value then None else q
    else if IsQuote(c) then Some(c) else None
  }

  function MaskChar(c: char, q: Option<char>): char {
    if q.Some? && c != q.value then 'x' else c
  }

  function QuoteAfter(s: string, q: Option<char>): Option<char> {
    if s == [] then q else QuoteAfter(s[1..], NextQuote(s[0], q))
  }

  /** s with the content of quoted spans blanked out, offsets preserved. */
  function Masked(s: string, q: Option<char>): (m: string)
    ensures |m| == |s|
  {
    if s == [] then [] else [MaskChar(s[0], q)] + Masked(s[1..], NextQuote(s[0], q))
  }

  lemma {:induction false} MaskedConcat(a: string, b: string, q: Option<char>)
    ensures Masked(a + b, q) == Masked(a, q) + Masked(b, QuoteAfter(a, q))
    ensures QuoteAfter(a + b, q) == QuoteAfter(b, QuoteAfter(a, q))
  {
    if a == [] {
      assert a + b == b;
    } else {
      assert (a + b)[1..] == a[1..] + b;
      MaskedConcat(a[1..], b, NextQuote(a[0], q));
    }
  }

  method MaskQuoted(s: string) returns (m: string)
    ensures m == Masked(s, None)
  {
    m := [];
    var quote: Option<char> := None;
    var i := 0;
    while i < |s|
      invariant 0 <= i <= |s|
      invariant m + Masked(s[i..], quote) == Masked(s, None)
    {
      assert s[i..][1..] == s[i + 1..];
      assert m + Masked(s[i..], quote) == m + [MaskChar(s[i], quote)] + Masked(s[i + 1..], NextQuote(s[i], quote));
      if quote.Some? {
        m := m + [if s[i] == quote.value then s[i] else 'x'];
        if s[i] == quote.value {
          quote := None;
        }
      } else {
        m := m + [s[i]];
        if IsQuote(s[i]) {
          quote := Some(s[i]);
        }
      }
      i := i + 1;
    }
  }

  // ---------- separators ----------

  /** The width of the separator that starts at i, 0 if none does; a doubled | or & comes before a single character. */
  function Width(m: string, singles: set<char>, i: nat): (w: nat)
    requires i < |m|
    ensures i + w <= |m| && w <= 2
  {
    if i + 1 < |m| && m[i] == m[i + 1] && (m[i] == '|' || m[i] == '&') then 2
    else if m[i] in singles then 1
    else 0
  }

  /** The number of backslashes immediately before i. */
  function Backslashes(m: string, i: nat): (n: nat)
    requires i <= |m|
    ensures n <= i
  {
    if i > 0 && m[i - 1] == '\\' then 1 + Backslashes(m, i - 1) else 0
  }

  predicate Escaped(m: string, i: nat)
    requires i <= |m|
  {
    Backslashes(m, i) % 2 == 1
  }

  method CountBackslashes(m: string, i: nat) returns (n: nat)
    requires i <= |m|
    ensures n == Backslashes(m, i)
  {
    n := 0;
    var j := i;
    while j > 0 && m[j - 1] == '\\'
      invariant 0 <= j <= i && n + Backslashes(m, j) == Backslashes(m, i)
    {
      n := n + 1;
      j := j - 1;
    }
  }

  /** Left-to-right scan: an escaped separator is passed over whole, any other is a cut. */
  function Cuts(m: string, singles: set<char>, i: nat): seq<Cut>
    requires i <= |m|
    decreases |m| - i
  {
    if i == |m| then []
    else
      var w := Width(m, singles, i);
      if w == 0 then Cuts(m, singles, i + 1)
      else if Escaped(m, i) then Cuts(m, singles, i + w)
      else [Cut(i, w)] + Cuts(m, singles, i + w)
  }

  /** The cuts lie in order within the text from last on. */
  ghost predicate Ordered(cuts: seq<Cut>, last: nat, length: nat) {
    if cuts == [] then last <= length
    else last <= cuts[0].at && Ordered(cuts[1..], cuts[0].at + cuts[0].width, length)
  }

  lemma {:induction false} OrderedFits(cuts: seq<Cut>, last: nat, length: nat)
    requires Ordered(cuts, last, length)
    ensures last <= length
  {
    if cuts != [] { OrderedFits(cuts[1..], cuts[0].at + cuts[0].width, length); }
  }

  /** The unstripped pieces between the cuts. */
  function Pieces(cmd: string, cuts: seq<Cut>, last: nat): seq<string>
    requires Ordered(cuts, last, |cmd|)
  {
    OrderedFits(cuts, last, |cmd|);
    if cuts == [] then [cmd[last..]]
    else
      OrderedFits(cuts[1..], cuts[0].at + cuts[0].width, |cmd|);
      [cmd[last..cuts[0].at]] + Pieces(cmd, cuts[1..], cuts[0].at + cuts[0].width)
  }

  /** The pieces with their separators put back. */
  function Rebuilt(cmd: string, cuts: seq<Cut>, pieces: seq<string>): string
    requires |pieces| == |cuts| + 1
    requires forall c :: c in cuts ==> c.at + c.width <= |cmd|
  {
    if cuts == [] then pieces[0]
    else pieces[0] + cmd[cuts[0].at..cuts[0].at + cuts[0].width] + Rebuilt(cmd, cuts[1..], pieces[1..])
  }

  // ---------- stripping ----------

  /** The characters str.strip removes. */
  predicate IsSpace(c: char) {
    var n := c as int;
    || 9 <= n <= 13 || 28 <= n <= 32 || n == 0x85 || n == 0xa0 || n == 0x1680
    || 0x2000 <= n <= 0x200a || n == 0x2028 || n == 0x2029 || n == 0x202f || n == 0x205f || n == 0x3000
  }

  function Strip(s: string): string {
    Trim(s, IsSpace)
  }

  /** The stripped pieces that are not empty. */
  function NonBlank(pieces: seq<string>): seq<string> {
    if pieces == [] then []
    else (if Strip(pieces[0]) == [] then [] else [Strip(pieces[0])]) + NonBlank(pieces[1..])
  }

  lemma StripFacts(s: string) returns (a: nat, b: nat)
    ensures a <= b <= |s| && Strip(s) == s[a..b] && forall i :: 0 <= i < a ==> IsSpace(s[i])
    ensures Strip(Strip(s)) == Strip(s)
  {
    a, b := TrimFacts(s, IsSpace);
  }

  // ---------- the splitters ----------

  lemma NonBlankStep(parts: seq<string>, i: nat)
    requires i < |parts|
    ensures NonBlank(parts[i..])
         == (if Strip(parts[i]) == [] then [] else [Strip(parts[i])]) + NonBlank(parts[i + 1..])
  {
    hide Strip;
    assert parts[i..][1..] == parts[i + 1..];
  }

  method StripAll(parts: seq<string>) returns (out: seq<string>)
    ensures out == NonBlank(parts)
  {
    assert NonBlank([]) == [];
    hide Strip, NonBlank;
    out := [];
    var i := 0;
    assert parts[0..] == parts && parts[|parts|..] == [];
    while i < |parts|
      invariant 0 <= i <= |parts| && out + NonBlank(parts[i..]) == NonBlank(parts)
    {
      NonBlankStep(parts, i);
      var s := Strip(parts[i]);
      ghost var rest := NonBlank(parts[i + 1..]);
      assert out + ([s] + rest) == out + [s] + rest && out + ([] + rest) == out + rest;
      if s != [] {
        out := out + [s];
      }
      i := i + 1;
    }
  }

  function SplitAtSpec(cmd: string, singles: set<char>): seq<string> {
    var m := Masked(cmd, None);
    CutsOrdered(m, singles, 0);
    NonBlank(Pieces(cmd, Cuts(m, singles, 0), 0))
  }

  lemma {:induction false} CutsOrdered(m: string, singles: set<char>, i: nat)
    requires i <= |m|
    ensures Ordered(Cuts(m, singles, i), i, |m|)
    decreases |m| - i
  {
    if i < |m| {
      var w := Width(m, singles, i);
      CutsOrdered(m, singles, if w == 0 then i + 1 else i + w);
    }
  }

  lemma LastPiece(cmd: string, last: nat)
    requires last <= |cmd|
    ensures Pieces(cmd, [], last) == [cmd[last..]]
  {
  }

  lemma TakePiece(cmd: string, cuts: seq<Cut>, last: nat, parts: seq<string>)
    requires cuts != [] && Ordered(cuts, last, |cmd|)
    ensures last <= cuts[0].at <= |cmd| && cuts[0].at + cuts[0].width <= |cmd|
    ensures parts + Pieces(cmd, cuts, last)
              == parts + [cmd[last..cuts[0].at]] + Pieces(cmd, cuts[1..], cuts[0].at + cuts[0].width)
  {
    OrderedFits(cuts[1..], cuts[0].at + cuts[0].width, |cmd|);
  }

  /** singles is ;|newline for chains and ;newline for conditionals. */
  method SplitAt(cmd: string, singles: set<char>) returns (out: seq<string>)
    ensures out == SplitAtSpec(cmd, singles)
  {
    hide Masked, NonBlank, Pieces;
    var masked := MaskQuoted(cmd);
    var parts: seq<string> := [];
    var last: nat, i: nat := 0, 0;
    CutsOrdered(masked, singles, 0);
    while i < |masked|
      invariant last <= i <= |masked|
      invariant Ordered(Cuts(masked, singles, i), last, |cmd|)
      invariant parts + Pieces(cmd, Cuts(masked, singles, i), last) == Pieces(cmd, Cuts(masked, singles, 0), 0)
    {
      var width := Width(masked, singles, i);
      if width == 0 {
        i := i + 1;
        continue;
      }
      var bs := CountBackslashes(masked, i);
      if bs % 2 == 1 {
        i := i + width;
        continue;
      }
      TakePiece(cmd, Cuts(masked, singles, i), last, parts);
      assert Cuts(masked, singles, i)[1..] == Cuts(masked, singles, i + width);
      parts := parts + [cmd[last..i]];
      last := i + width;
      i := i + width;
    }
    LastPiece(cmd, last);
    parts := parts + [cmd[last..]];
    out := StripAll(parts);
  }

  // ---------- control flow at parenthesis depth 0 ----------

  function DepthAfter(c: char, escaped: bool, depth: nat): nat {
    if c == '(' && !escaped then depth + 1
    else if c == ')' && !escaped then if depth > 0 then depth - 1 else 0
    else depth
  }

  function ConditionalCuts(m: string, i: nat, depth: nat): seq<Cut>
    requires i <= |m|
    decreases |m| - i
  {
    if i == |m| then []
    else
      var d, w := DepthAfter(m[i], Escaped(m, i), depth), Width(m, CONDITIONAL_SINGLES, i);
      if d == 0 && !Escaped(m, i) && w > 0 then [Cut(i, w)] + ConditionalCuts(m, i + w, 0)
      else ConditionalCuts(m, i + 1, d)
  }

  lemma {:induction false} ConditionalCutsOrdered(m: string, i: nat, depth: nat)
    requires i <= |m|
    ensures Ordered(ConditionalCuts(m, i, depth), i, |m|)
    decreases |m| - i
  {
    if i < |m| {
      var d, w := DepthAfter(m[i], Escaped(m, i), depth), Width(m, CONDITIONAL_SINGLES, i);
      var isCut := d == 0 && !Escaped(m, i) && w > 0;
      ConditionalCutsOrdered(m, if isCut then i + w else i + 1, if isCut then 0 else d);
    }
  }

  function SplitConditionalsSpec(cmd: string): seq<string> {
    var m := Masked(cmd, None);
    ConditionalCutsOrdered(m, 0, 0);
    NonBlank(Pieces(cmd, ConditionalCuts(m, 0, 0), 0))
  }

  method SplitConditionals(cmd: string) returns (out: seq<string>)
    ensures out == SplitConditionalsSpec(cmd)
  {
    hide Masked, NonBlank, Pieces, Backslashes, Width;
    var masked := MaskQuoted(cmd);
    var parts: seq<string> := [];
    var last: nat, depth: nat, i: nat := 0, 0, 0;
    ConditionalCutsOrdered(masked, 0, 0);
    while i < |masked|
      invariant last <= i <= |masked|
      invariant Ordered(ConditionalCuts(masked, i, depth), last, |cmd|)
      invariant parts + Pieces(cmd, ConditionalCuts(masked, i, depth), last)
                  == Pieces(cmd, ConditionalCuts(masked, 0, 0), 0)
    {
      ghost var cuts := ConditionalCuts(masked, i, depth);
      var ch := masked[i];
      var bs := CountBackslashes(masked, i);
      var escaped := bs % 2 == 1;
      if ch == '(' && !escaped {
        depth := depth + 1;
      } else if ch == ')' && !escaped {
        depth := if depth > 0 then depth - 1 else 0;
      }
      if depth == 0 && !escaped {
        var width := Width(masked, CONDITIONAL_SINGLES, i);
        if width > 0 {
          TakePiece(cmd, cuts, last, parts);
          assert cuts[1..] == ConditionalCuts(masked, i + width, 0);
          parts := parts + [cmd[last..i]];
          last, i := i + width, i + width;
          continue;
        }
      }
      i := i + 1;
    }
    LastPiece(cmd, last);
    parts := parts + [cmd[last..]];
    out := StripAll(parts);
  }

  // ---------- the laws ----------

  lemma {:induction false} PiecesFit(cmd: string, cuts: seq<Cut>, last: nat)
    requires Ordered(cuts, last, |cmd|)
    ensures |Pieces(cmd, cuts, last)| == |cuts| + 1
    ensures last <= |cmd| && forall c :: c in cuts ==> c.at + c.width <= |cmd|
  {
    OrderedFits(cuts, last, |cmd|);
    if cuts != [] {
      var next := cuts[0].at + cuts[0].width;
      OrderedFits(cuts[1..], next, |cmd|);
      PiecesFit(cmd, cuts[1..], next);
    }
  }

  /** Nothing is lost: the unstripped pieces with their separators are the command. */
  lemma {:induction false} PiecesRebuild(cmd: string, cuts: seq<Cut>, last: nat)
    requires Ordered(cuts, last, |cmd|)
    ensures |Pieces(cmd, cuts, last)| == |cuts| + 1
    ensures last <= |cmd| && forall c :: c in cuts ==> c.at + c.width <= |cmd|
    ensures Rebuilt(cmd, cuts, Pieces(cmd, cuts, last)) == cmd[last..]
  {
    PiecesFit(cmd, cuts, last);
    if cuts == [] {
      assert Pieces(cmd, cuts, last) == [cmd[last..]];
    } else {
      var next := cuts[0].at + cuts[0].width;
      PiecesFit(cmd, cuts[1..], next);
      PiecesRebuild(cmd, cuts[1..], next);
      var tail := Pieces(cmd, cuts[1..], next);
      assert Pieces(cmd, cuts, last) == [cmd[last..cuts[0].at]] + tail;
      hide Rebuilt, Pieces, Ordered;
      RebuiltStep(cmd, cuts, last, tail);
    }
  }

  lemma RebuiltStep(cmd: string, cuts: seq<Cut>, last: nat, tail: seq<string>)
    requires cuts != [] && |tail| == |cuts| && last <= cuts[0].at && forall c :: c in cuts ==> c.at + c.width <= |cmd|
    requires Rebuilt(cmd, cuts[1..], tail) == cmd[cuts[0].at + cuts[0].width..]
    ensures Rebuilt(cmd, cuts, [cmd[last..cuts[0].at]] + tail) == cmd[last..]
  {
    var c, next := cuts[0], cuts[0].at + cuts[0].width;
    assert ([cmd[last..c.at]] + tail)[1..] == tail;
    ThreeParts(cmd, last, c.at, next);
  }

  lemma ThreeParts(s: string, a: nat, b: nat, c: nat)
    requires a <= b <= c <= |s|
    ensures s[a..b] + s[b..c] + s[c..] == s[a..]
  {
  }

  lemma {:induction false} MaskedAt(s: string, q: Option<char>, i: nat)
    requires i < |s|
    ensures Masked(s, q)[i] == MaskChar(s[i], QuoteAfter(s[..i], q))
    ensures QuoteAfter(s[..i + 1], q) == NextQuote(s[i], QuoteAfter(s[..i], q))
  {
    if i == 0 {
      assert s[..1][1..] == [];
    } else {
      MaskedAt(s[1..], NextQuote(s[0], q), i - 1);
      assert s[..i][1..] == s[1..][..i - 1] && s[..i + 1][1..] == s[1..][..i];
    }
  }

  /** A character that is neither a quote nor the mask stands outside quotes in the command itself. */
  lemma UnmaskedIsUnquoted(cmd: string, i: nat)
    requires i < |cmd| && Masked(cmd, None)[i] != 'x' && !IsQuote(Masked(cmd, None)[i])
    ensures QuoteAfter(cmd[..i], None) == None && cmd[i] == Masked(cmd, None)[i]
    ensures QuoteAfter(cmd[..i + 1], None) == None
  {
    hide Masked, QuoteAfter;
    MaskedAt(cmd, None, i);
    OpenQuoteIsQuote(cmd[..i], None);
  }

  lemma {:induction false} OpenQuoteIsQuote(s: string, q: Option<char>)
    requires q.Some? ==> IsQuote(q.value)
    ensures QuoteAfter(s, q).Some? ==> IsQuote(QuoteAfter(s, q).value)
  {
    if s != [] { OpenQuoteIsQuote(s[1..], NextQuote(s[0], q)); }
  }

  /** Every cut is a separator of the command itself that starts outside quotes. */
  lemma CutIsSeparator(cmd: string, m: string, singles: set<char>, i: nat, w: nat)
    requires m == Masked(cmd, None) && i < |cmd| && singles <= CHAIN_SINGLES && w == Width(m, singles, i) && w > 0
    ensures QuoteAfter(cmd[..i], None) == None && QuoteAfter(cmd[..i + w], None) == None
    ensures cmd[i] == m[i] && cmd[i + w - 1] == m[i + w - 1] && Width(cmd, singles, i) == w
  {
    hide Masked, QuoteAfter;
    assert m[i] in {';', '|', '&', '\n'};
    UnmaskedIsUnquoted(cmd, i);
    if i + 1 < |cmd| { MaskedAt(cmd, None, i + 1); }
    if w == 2 { UnmaskedIsUnquoted(cmd, i + 1); }
  }

  // ---------- where exactly the cuts are ----------

  /** A separator starts at p and p is not the second half of a doubled one, counting doubled ones from i on. */
  predicate StartsMatch(m: string, singles: set<char>, i: nat, p: nat)
    requires i <= p < |m|
    decreases p
  {
    Width(m, singles, p) > 0 && !(p > i && StartsMatch(m, singles, i, p - 1) && Width(m, singles, p - 1) == 2)
  }

  /** Starting later at a position no match reaches into makes no difference. */
  lemma {:induction false} StartsMatchShift(m: string, singles: set<char>, i: nat, j: nat, p: nat)
    requires i <= j <= p < |m|
    requires j > i ==> !(StartsMatch(m, singles, i, j - 1) && Width(m, singles, j - 1) == 2)
    ensures StartsMatch(m, singles, i, p) == StartsMatch(m, singles, j, p)
    decreases p
  {
    if p > j { StartsMatchShift(m, singles, i, j, p - 1); }
  }

  predicate CutAt(cuts: seq<Cut>, p: nat) {
    exists k :: 0 <= k < |cuts| && cuts[k].at == p
  }

  lemma {:induction false} ScanCutsExactly(m: string, singles: set<char>, i: nat, p: nat)
    requires i <= p < |m|
    ensures CutAt(Cuts(m, singles, i), p) <==> StartsMatch(m, singles, i, p) && !Escaped(m, p)
    decreases |m| - i
  {
    hide Escaped, Width;
    var w := Width(m, singles, i);
    var next := if w == 0 then i + 1 else i + w;
    CutsOrdered(m, singles, next);
    var rest, cuts := Cuts(m, singles, next), Cuts(m, singles, i);
    if p < next { OrderedFrom(rest, next, |m|, p); }
    assert cuts == rest || (cuts == [Cut(i, w)] + rest && cuts[0].at == i && cuts[1..] == rest);
    ConsCutAt(Cut(i, w), rest, p);
    if p < next {
      assert p == i || (w == 2 && p == i + 1 && StartsMatch(m, singles, i, i));
    } else {
      assert w == 2 ==> !StartsMatch(m, singles, i, i + 1);
      StartsMatchShift(m, singles, i, next, p);
      ScanCutsExactly(m, singles, next, p);
    }
  }

  lemma ConsCutAt(c: Cut, rest: seq<Cut>, p: nat)
    ensures CutAt([c] + rest, p) <==> c.at == p || CutAt(rest, p)
  {
    var cuts := [c] + rest;
    if CutAt(rest, p) {
      var k :| 0 <= k < |rest| && rest[k].at == p;
      assert cuts[k + 1].at == p;
    }
    if c.at == p { assert cuts[0].at == p; }
  }

  lemma {:induction false} OrderedFrom(cuts: seq<Cut>, last: nat, length: nat, p: nat)
    requires Ordered(cuts, last, length) && p < last
    ensures !CutAt(cuts, p)
  {
    if cuts != [] {
      OrderedFrom(cuts[1..], cuts[0].at + cuts[0].width, length, p);
      ConsCutAt(cuts[0], cuts[1..], p);
      assert cuts == [cuts[0]] + cuts[1..];
    }
  }

  /** Masking does not hide the backslashes in front of a character outside quotes. */
  lemma {:induction false} SameBackslashes(cmd: string, m: string, p: nat)
    requires m == Masked(cmd, None) && p <= |cmd| && QuoteAfter(cmd[..p], None) == None
    ensures Backslashes(m, p) == Backslashes(cmd, p)
  {
    if p > 0 {
      hide Masked, QuoteAfter;
      MaskedAt(cmd, None, p - 1);
      OpenQuoteIsQuote(cmd[..p - 1], None);
      if cmd[p - 1] == '\\' { SameBackslashes(cmd, m, p - 1); }
    }
  }

  /** At a position outside quotes the mask and the command show the same separators. */
  lemma SameWidth(cmd: string, m: string, singles: set<char>, p: nat)
    requires m == Masked(cmd, None) && p < |cmd| && singles <= CHAIN_SINGLES && QuoteAfter(cmd[..p], None) == None
    ensures Width(m, singles, p) == Width(cmd, singles, p)
  {
    hide Masked, QuoteAfter;
    MaskedAt(cmd, None, p);
    if p + 1 < |cmd| { MaskedAt(cmd, None, p + 1); }
  }

  lemma {:induction false} SameStarts(cmd: string, m: string, singles: set<char>, p: nat)
    requires m == Masked(cmd, None) && p < |cmd| && singles <= CHAIN_SINGLES && QuoteAfter(cmd[..p], None) == None
    ensures StartsMatch(m, singles, 0, p) == StartsMatch(cmd, singles, 0, p)
    decreases p
  {
    hide Masked, QuoteAfter;
    SameWidth(cmd, m, singles, p);
    if p > 0 {
      MaskedAt(cmd, None, p - 1);
      OpenQuoteIsQuote(cmd[..p - 1], None);
      if Width(m, singles, p - 1) == 2 { UnmaskedIsUnquoted(cmd, p - 1); }
      if QuoteAfter(cmd[..p - 1], None) == None {
        SameWidth(cmd, m, singles, p - 1);
        SameStarts(cmd, m, singles, p - 1);
      }
    }
  }

  /** In terms of the command alone: a cut is at p exactly when p stands outside quotes after an even number of
      backslashes and a separator starts there, p not being the second half of a doubled one. */
  lemma SplitCutsExactly(cmd: string, singles: set<char>, p: nat)
    requires p < |cmd| && singles <= CHAIN_SINGLES
    ensures CutAt(Cuts(Masked(cmd, None), singles, 0), p) <==>
      QuoteAfter(cmd[..p], None) == None && StartsMatch(cmd, singles, 0, p) && Backslashes(cmd, p) % 2 == 0
  {
    var m := Masked(cmd, None);
    ScanCutsExactly(m, singles, 0, p);
    hide Masked, QuoteAfter;
    if Width(m, singles, p) > 0 { CutIsSeparator(cmd, m, singles, p, Width(m, singles, p)); }
    if QuoteAfter(cmd[..p], None) == None {
      SameStarts(cmd, m, singles, p);
      SameBackslashes(cmd, m, p);
    }
  }

  // ---------- splitting a piece again ----------

  ghost predicate NoCutBefore(cuts: seq<Cut>, p: nat) {
    cuts != [] ==> cuts[0].at >= p
  }

  /** A scan position from which the text reads as from the beginning: outside quotes and not behind a backslash. */
  ghost predicate CleanStart(cmd: string, i: nat) {
    i <= |cmd| && QuoteAfter(cmd[..i], None) == None && (i > 0 ==> Masked(cmd, None)[i - 1] != '\\')
  }

  lemma {:induction false} LocalBackslashes(m: string, part: string, off: nat, i: nat)
    requires off + |part| <= |m| && m[off..off + |part|] == part && i <= |part|
    requires off > 0 ==> m[off - 1] != '\\'
    ensures Backslashes(m, off + i) == Backslashes(part, i)
  {
    if i > 0 {
      assert m[off + i - 1] == part[i - 1];
      if part[i - 1] == '\\' { LocalBackslashes(m, part, off, i - 1); }
    }
  }

  /** A part of the text without a cut, scanned alone, still has none. */
  lemma {:induction false} ScanAlone(m: string, part: string, singles: set<char>, off: nat, i: nat)
    requires off + |part| <= |m| && m[off..off + |part|] == part && i <= |part|
    requires off > 0 ==> m[off - 1] != '\\'
    requires NoCutBefore(Cuts(m, singles, off + i), off + |part|)
    ensures Cuts(part, singles, i) == []
    decreases |part| - i
  {
    if i < |part| {
      LocalBackslashes(m, part, off, i);
      assert m[off + i] == part[i];
      if i + 1 < |part| {
        assert m[off + i + 1] == part[i + 1];
        assert Width(part, singles, i) == Width(m, singles, off + i);
        var w := Width(part, singles, i);
        ScanAlone(m, part, singles, off, if w == 0 then i + 1 else i + w);
      }
    }
  }

  /** Leading blanks of a piece hide no separator, so the scan passes through them. */
  lemma {:induction false} ScanPastBlanks(m: string, singles: set<char>, l: nat, off: nat)
    requires l <= off <= |m| && singles <= CHAIN_SINGLES && (l > 0 ==> m[l - 1] != '\\')
    requires forall j :: l <= j < off ==> IsSpace(m[j])
    requires NoCutBefore(Cuts(m, singles, l), off)
    ensures Cuts(m, singles, off) == Cuts(m, singles, l)
    ensures off > 0 ==> m[off - 1] != '\\'
    decreases off - l
  {
    if l < off {
      assert Backslashes(m, l) == 0;
      assert Width(m, singles, l) == 0;
      ScanPastBlanks(m, singles, l + 1, off);
    }
  }

  /** The blanks at the front and the kept part of a piece read the same in the command's mask and alone. */
  lemma PieceMask(cmd: string, l: nat, off: nat, e: nat)
    requires l <= off <= e <= |cmd| && QuoteAfter(cmd[..l], None) == None
    requires forall j :: l <= j < off ==> IsSpace(cmd[j])
    ensures Masked(cmd, None)[off..e] == Masked(cmd[off..e], None)
    ensures forall j :: l <= j < off ==> IsSpace(Masked(cmd, None)[j])
  {
    hide Masked, QuoteAfter;
    BlanksKeepUnquoted(cmd, l, off);
    MaskedSlice(cmd, off, e);
  }

  lemma MaskedSlice(cmd: string, i: nat, j: nat)
    requires i <= j <= |cmd| && QuoteAfter(cmd[..i], None) == None
    ensures Masked(cmd, None)[i..j] == Masked(cmd[i..j], None)
  {
    hide Masked, QuoteAfter;
    var a, b, c := cmd[..i], cmd[i..j], cmd[j..];
    var x, y, z := Masked(a, None), Masked(b, None), Masked(c, QuoteAfter(b, None));
    assert cmd == a + (b + c);
    MaskedConcat(a, b + c, None);
    MaskedConcat(b, c, None);
    assert Masked(cmd, None) == x + (y + z) && |x| == i && |y| == j - i;
  }

  lemma {:induction false} BlanksKeepUnquoted(cmd: string, l: nat, off: nat)
    requires l <= off <= |cmd| && QuoteAfter(cmd[..l], None) == None
    requires forall j :: l <= j < off ==> IsSpace(cmd[j])
    ensures QuoteAfter(cmd[..off], None) == None
    ensures forall j :: l <= j < off ==> Masked(cmd, None)[j] == cmd[j]
  {
    if l < off {
      hide Masked, QuoteAfter;
      BlanksKeepUnquoted(cmd, l, off - 1);
      MaskedAt(cmd, None, off - 1);
    }
  }

  /** The first piece from a clean start, split again, is alone. */
  lemma FirstPieceIsAlone(cmd: string, singles: set<char>, l: nat, e: nat)
    requires CleanStart(cmd, l) && l <= e <= |cmd| && singles <= CHAIN_SINGLES
    requires NoCutBefore(Cuts(Masked(cmd, None), singles, l), e)
    ensures var s := Strip(cmd[l..e]); s != [] ==> SplitAtSpec(s, singles) == [s]
  {
    hide Masked, QuoteAfter, Strip, SplitAtSpec;
    var m, piece := Masked(cmd, None), cmd[l..e];
    var a, b := StripFacts(piece);
    var s := Strip(piece);
    if s != [] {
      var off := l + a;
      forall j | l <= j < off ensures IsSpace(cmd[j]) { assert cmd[j] == piece[j - l]; }
      SliceOfSlice(cmd, l, e, a, b);
      PieceMask(cmd, l, off, l + b);
      ScanPastBlanks(m, singles, l, off);
      ScanAlone(m, Masked(s, None), singles, off, 0);
      AloneIsItself(s, singles);
    }
  }

  lemma SliceOfSlice(s: string, l: nat, e: nat, a: nat, b: nat)
    requires l <= e <= |s| && a <= b <= e - l
    ensures s[l..e][a..b] == s[l + a..l + b]
  {
    var t, x, y := s[l..e], s[l..e][a..b], s[l + a..l + b];
    assert |x| == |y|;
    forall i | 0 <= i < |x| ensures x[i] == y[i] { assert x[i] == t[a + i]; }
  }

  lemma AloneIsItself(s: string, singles: set<char>)
    requires Cuts(Masked(s, None), singles, 0) == [] && Strip(s) == s && s != []
    ensures SplitAtSpec(s, singles) == [s]
  {
    LastPiece(s, 0);
    assert s[0..] == s;
    assert NonBlank([s]) == [s] + NonBlank([]);
    assert Pieces(s, Cuts(Masked(s, None), singles, 0), 0) == [s];
  }

  /** After a cut the scan starts clean again. */
  lemma {:induction false} AfterFirstCut(cmd: string, singles: set<char>, i: nat)
    requires i <= |cmd| && singles <= CHAIN_SINGLES && Cuts(Masked(cmd, None), singles, i) != []
    ensures var cuts := Cuts(Masked(cmd, None), singles, i);
      && i <= cuts[0].at && cuts[0].at + cuts[0].width <= |cmd|
      && CleanStart(cmd, cuts[0].at + cuts[0].width)
      && cuts[1..] == Cuts(Masked(cmd, None), singles, cuts[0].at + cuts[0].width)
    decreases |cmd| - i
  {
    var m := Masked(cmd, None);
    var w := Width(m, singles, i);
    hide Masked, QuoteAfter;
    if w == 0 || Escaped(m, i) {
      AfterFirstCut(cmd, singles, if w == 0 then i + 1 else i + w);
    } else {
      CutIsSeparator(cmd, m, singles, i, w);
    }
  }

  lemma {:induction false} PiecesAreAlone(cmd: string, singles: set<char>, l: nat)
    requires CleanStart(cmd, l) && singles <= CHAIN_SINGLES
    requires Ordered(Cuts(Masked(cmd, None), singles, l), l, |cmd|)
    ensures forall s :: s in NonBlank(Pieces(cmd, Cuts(Masked(cmd, None), singles, l), l)) ==>
      SplitAtSpec(s, singles) == [s]
    decreases |cmd| - l
  {
    hide Masked, Strip, SplitAtSpec, CleanStart;
    var m := Masked(cmd, None);
    var cuts := Cuts(m, singles, l);
    if cuts == [] {
      FirstPieceIsAlone(cmd, singles, l, |cmd|);
      LastPiece(cmd, l);
      assert cmd[l..] == cmd[l..|cmd|];
    } else {
      var next := cuts[0].at + cuts[0].width;
      AfterFirstCut(cmd, singles, l);
      FirstPieceIsAlone(cmd, singles, l, cuts[0].at);
      CutsOrdered(m, singles, next);
      PiecesAreAlone(cmd, singles, next);
      TakePiece(cmd, cuts, l, []);
      assert Pieces(cmd, cuts, l)[1..] == Pieces(cmd, Cuts(m, singles, next), next);
    }
  }

  /** Splitting is stable: any returned piece, split again, comes back as the only piece. */
  lemma SplitAgainIsAlone(cmd: string, singles: set<char>, s: string)
    requires singles <= CHAIN_SINGLES && s in SplitAtSpec(cmd, singles)
    ensures SplitAtSpec(s, singles) == [s]
  {
    CutsOrdered(Masked(cmd, None), singles, 0);
    assert cmd[..0] == [];
    PiecesAreAlone(cmd, singles, 0);
  }

  /** The whole law for _split_at: the pieces rebuild the command, and each returned one is stable. */
  lemma SplitAtRebuilds(cmd: string, singles: set<char>)
    ensures Ordered(Cuts(Masked(cmd, None), singles, 0), 0, |cmd|)
    ensures var cuts := Cuts(Masked(cmd, None), singles, 0); var pieces := Pieces(cmd, cuts, 0);
      |pieces| == |cuts| + 1 && (forall c :: c in cuts ==> c.at + c.width <= |cmd|) && Rebuilt(cmd, cuts, pieces) == cmd
    ensures singles <= CHAIN_SINGLES ==> forall s :: s in SplitAtSpec(cmd, singles) ==> SplitAtSpec(s, singles) == [s]
  {
    forall s | s in SplitAtSpec(cmd, singles) && singles <= CHAIN_SINGLES
      ensures SplitAtSpec(s, singles) == [s]
    {
      SplitAgainIsAlone(cmd, singles, s);
    }
    hide SplitAtSpec;
    CutsOrdered(Masked(cmd, None), singles, 0);
    PiecesRebuild(cmd, Cuts(Masked(cmd, None), singles, 0), 0);
    assert cmd[0..] == cmd;
  }

  // ---------- the same laws for control flow ----------

  /** The parenthesis depth before p, when it was depth before i. */
  function DepthUpTo(m: string, i: nat, depth: nat, p: nat): nat
    requires i <= p <= |m|
  {
    if p == i then depth else DepthAfter(m[p - 1], Escaped(m, p - 1), DepthUpTo(m, i, depth, p - 1))
  }

  predicate StartsTopLevel(m: string, i: nat, depth: nat, p: nat)
    requires i <= p < |m|
    decreases p
  {
    && DepthUpTo(m, i, depth, p) == 0 && m[p] != '(' && !Escaped(m, p) && Width(m, CONDITIONAL_SINGLES, p) > 0
    && !(p > i && StartsTopLevel(m, i, depth, p - 1) && Width(m, CONDITIONAL_SINGLES, p - 1) == 2)
  }

  lemma {:induction false} TopLevelShift(m: string, i: nat, depth: nat, j: nat, p: nat)
    requires i <= j <= p < |m|
    requires j > i ==> !(StartsTopLevel(m, i, depth, j - 1) && Width(m, CONDITIONAL_SINGLES, j - 1) == 2)
    ensures DepthUpTo(m, i, depth, p) == DepthUpTo(m, j, DepthUpTo(m, i, depth, j), p)
    ensures StartsTopLevel(m, i, depth, p) == StartsTopLevel(m, j, DepthUpTo(m, i, depth, j), p)
    decreases p
  {
    if p > j { TopLevelShift(m, i, depth, j, p - 1); }
  }

  /** A control-flow cut is at p exactly when an unescaped separator starts there at depth 0, not as a second half. */
  lemma {:induction false} ConditionalCutsExactly(m: string, i: nat, depth: nat, p: nat)
    requires i <= p < |m|
    ensures CutAt(ConditionalCuts(m, i, depth), p) <==> StartsTopLevel(m, i, depth, p)
    decreases |m| - i
  {
    hide Escaped;
    var d, w := DepthAfter(m[i], Escaped(m, i), depth), Width(m, CONDITIONAL_SINGLES, i);
    var isCut := d == 0 && !Escaped(m, i) && w > 0;
    var next := if isCut then i + w else i + 1;
    ConditionalCutsOrdered(m, next, if isCut then 0 else d);
    var rest := ConditionalCuts(m, next, if isCut then 0 else d);
    if p < next { OrderedFrom(rest, next, |m|, p); }
    ConsCutAt(Cut(i, w), rest, p);
    assert DepthUpTo(m, i, depth, i + 1) == d;
    assert isCut ==> StartsTopLevel(m, i, depth, i) && m[i] != '(' && m[i] != ')';
    if p >= next {
      if isCut && w == 2 {
        assert m[i + 1] == m[i];
        assert DepthUpTo(m, i, depth, i + 2) == 0 && !StartsTopLevel(m, i, depth, i + 1);
      }
      TopLevelShift(m, i, depth, next, p);
      ConditionalCutsExactly(m, next, if isCut then 0 else d, p);
    }
  }

  /** The parenthesis depth of the command before p, not counting what is quoted or escaped. */
  function UnquotedDepth(cmd: string, p: nat): nat
    requires p <= |cmd|
  {
    if p == 0 then 0
    else if QuoteAfter(cmd[..p - 1], None) != None then UnquotedDepth(cmd, p - 1)
    else DepthAfter(cmd[p - 1], Escaped(cmd, p - 1), UnquotedDepth(cmd, p - 1))
  }

  /** A control-flow separator starts at p outside quotes, unescaped, at depth 0, not as the second half of a doubled
      one. */
  predicate SeparatesAt(cmd: string, p: nat)
    requires p < |cmd|
  {
    && QuoteAfter(cmd[..p], None) == None && UnquotedDepth(cmd, p) == 0 && !Escaped(cmd, p)
    && Width(cmd, CONDITIONAL_SINGLES, p) > 0
    && !(p > 0 && SeparatesAt(cmd, p - 1) && Width(cmd, CONDITIONAL_SINGLES, p - 1) == 2)
  }

  lemma {:induction false} SameDepth(cmd: string, m: string, p: nat)
    requires m == Masked(cmd, None) && p <= |cmd|
    ensures DepthUpTo(m, 0, 0, p) == UnquotedDepth(cmd, p)
  {
    hide Masked, QuoteAfter, Backslashes;
    if p > 0 {
      SameDepth(cmd, m, p - 1);
      MaskedAt(cmd, None, p - 1);
      OpenQuoteIsQuote(cmd[..p - 1], None);
      if QuoteAfter(cmd[..p - 1], None) == None { SameBackslashes(cmd, m, p - 1); }
    }
  }

  lemma {:induction false} SameSeparators(cmd: string, m: string, p: nat)
    requires m == Masked(cmd, None) && p < |cmd|
    ensures StartsTopLevel(m, 0, 0, p) <==> SeparatesAt(cmd, p)
    decreases p
  {
    hide Masked, QuoteAfter, Backslashes, DepthUpTo, UnquotedDepth;
    SameDepth(cmd, m, p);
    UnquotedSeparator(cmd, m, p);
    if p > 0 {
      SameSeparators(cmd, m, p - 1);
      UnquotedSeparator(cmd, m, p - 1);
    }
  }

  /** Where the mask shows a separator the command has it, outside quotes; and outside quotes both look the same. */
  lemma UnquotedSeparator(cmd: string, m: string, p: nat)
    requires m == Masked(cmd, None) && p < |cmd|
    ensures Width(m, CONDITIONAL_SINGLES, p) > 0 ==> QuoteAfter(cmd[..p], None) == None
    ensures QuoteAfter(cmd[..p], None) == None ==>
      (Width(m, CONDITIONAL_SINGLES, p) == Width(cmd, CONDITIONAL_SINGLES, p) && Escaped(m, p) == Escaped(cmd, p))
  {
    hide Masked, QuoteAfter, Backslashes;
    var w := Width(m, CONDITIONAL_SINGLES, p);
    if w > 0 { CutIsSeparator(cmd, m, CONDITIONAL_SINGLES, p, w); }
    if QuoteAfter(cmd[..p], None) == None {
      SameWidth(cmd, m, CONDITIONAL_SINGLES, p);
      SameBackslashes(cmd, m, p);
    }
  }

  /** In terms of the command alone: the control-flow cuts are exactly the top-level separators. */
  lemma SplitConditionalsCutsExactly(cmd: string, p: nat)
    requires p < |cmd|
    ensures CutAt(ConditionalCuts(Masked(cmd, None), 0, 0), p) <==> SeparatesAt(cmd, p)
  {
    ConditionalCutsExactly(Masked(cmd, None), 0, 0, p);
    SameSeparators(cmd, Masked(cmd, None), p);
  }

  lemma {:induction false} ConditionalAlone(m: string, part: string, off: nat, i: nat, depth: nat)
    requires off + |part| <= |m| && m[off..off + |part|] == part && i <= |part|
    requires off > 0 ==> m[off - 1] != '\\'
    requires NoCutBefore(ConditionalCuts(m, off + i, depth), off + |part|)
    ensures ConditionalCuts(part, i, depth) == []
    decreases |part| - i
  {
    if i < |part| {
      LocalBackslashes(m, part, off, i);
      assert m[off + i] == part[i];
      if i + 1 < |part| { assert m[off + i + 1] == part[i + 1]; }
      ConditionalAlone(m, part, off, i + 1, DepthAfter(part[i], Escaped(part, i), depth));
    }
  }

  lemma {:induction false} ConditionalPastBlanks(m: string, l: nat, off: nat)
    requires l <= off <= |m| && (l > 0 ==> m[l - 1] != '\\')
    requires forall j :: l <= j < off ==> IsSpace(m[j])
    requires NoCutBefore(ConditionalCuts(m, l, 0), off)
    ensures ConditionalCuts(m, off, 0) == ConditionalCuts(m, l, 0)
    ensures off > 0 ==> m[off - 1] != '\\'
    decreases off - l
  {
    if l < off {
      assert Backslashes(m, l) == 0;
      assert Width(m, CONDITIONAL_SINGLES, l) == 0;
      ConditionalPastBlanks(m, l + 1, off);
    }
  }

  lemma FirstConditionalIsAlone(cmd: string, l: nat, e: nat)
    requires CleanStart(cmd, l) && l <= e <= |cmd|
    requires NoCutBefore(ConditionalCuts(Masked(cmd, None), l, 0), e)
    ensures var s := Strip(cmd[l..e]); s != [] ==> SplitConditionalsSpec(s) == [s]
  {
    hide Masked, QuoteAfter, Strip, SplitConditionalsSpec;
    var m, piece := Masked(cmd, None), cmd[l..e];
    var a, b := StripFacts(piece);
    var s := Strip(piece);
    if s != [] {
      var off := l + a;
      forall j | l <= j < off ensures IsSpace(cmd[j]) { assert cmd[j] == piece[j - l]; }
      SliceOfSlice(cmd, l, e, a, b);
      PieceMask(cmd, l, off, l + b);
      ConditionalPastBlanks(m, l, off);
      ConditionalAlone(m, Masked(s, None), off, 0, 0);
      ConditionalIsItself(s);
    }
  }

  lemma ConditionalIsItself(s: string)
    requires ConditionalCuts(Masked(s, None), 0, 0) == [] && Strip(s) == s && s != []
    ensures SplitConditionalsSpec(s) == [s]
  {
    LastPiece(s, 0);
    assert s[0..] == s;
    assert NonBlank([s]) == [s] + NonBlank([]);
    assert Pieces(s, ConditionalCuts(Masked(s, None), 0, 0), 0) == [s];
  }

  lemma {:induction false} AfterFirstConditional(cmd: string, i: nat, depth: nat)
    requires i <= |cmd| && ConditionalCuts(Masked(cmd, None), i, depth) != []
    ensures var cuts := ConditionalCuts(Masked(cmd, None), i, depth);
      && i <= cuts[0].at && cuts[0].at + cuts[0].width <= |cmd|
      && CleanStart(cmd, cuts[0].at + cuts[0].width)
      && cuts[1..] == ConditionalCuts(Masked(cmd, None), cuts[0].at + cuts[0].width, 0)
    decreases |cmd| - i
  {
    var m := Masked(cmd, None);
    var d, w := DepthAfter(m[i], Escaped(m, i), depth), Width(m, CONDITIONAL_SINGLES, i);
    hide Masked, QuoteAfter;
    if d == 0 && !Escaped(m, i) && w > 0 {
      CutIsSeparator(cmd, m, CONDITIONAL_SINGLES, i, w);
    } else {
      AfterFirstConditional(cmd, i + 1, d);
    }
  }

  lemma {:induction false} ConditionalsAreAlone(cmd: string, l: nat)
    requires CleanStart(cmd, l)
    requires Ordered(ConditionalCuts(Masked(cmd, None), l, 0), l, |cmd|)
    ensures forall s :: s in NonBlank(Pieces(cmd, ConditionalCuts(Masked(cmd, None), l, 0), l)) ==>
      SplitConditionalsSpec(s) == [s]
    decreases |cmd| - l
  {
    hide Masked, Strip, SplitConditionalsSpec, CleanStart;
    var m := Masked(cmd, None);
    var cuts := ConditionalCuts(m, l, 0);
    if cuts == [] {
      FirstConditionalIsAlone(cmd, l, |cmd|);
      LastPiece(cmd, l);
      assert cmd[l..] == cmd[l..|cmd|];
    } else {
      var next := cuts[0].at + cuts[0].width;
      AfterFirstConditional(cmd, l, 0);
      FirstConditionalIsAlone(cmd, l, cuts[0].at);
      ConditionalCutsOrdered(m, next, 0);
      ConditionalsAreAlone(cmd, next);
      TakePiece(cmd, cuts, l, []);
      assert Pieces(cmd, cuts, l)[1..] == Pieces(cmd, ConditionalCuts(m, next, 0), next);
    }
  }

  lemma SplitConditionalAgainIsAlone(cmd: string, s: string)
    requires s in SplitConditionalsSpec(cmd)
    ensures SplitConditionalsSpec(s) == [s]
  {
    ConditionalCutsOrdered(Masked(cmd, None), 0, 0);
    assert cmd[..0] == [];
    ConditionalsAreAlone(cmd, 0);
  }

  lemma SplitConditionalsRebuilds(cmd: string)
    ensures Ordered(ConditionalCuts(Masked(cmd, None), 0, 0), 0, |cmd|)
    ensures var cuts := ConditionalCuts(Masked(cmd, None), 0, 0); var pieces := Pieces(cmd, cuts, 0);
      |pieces| == |cuts| + 1 && (forall c :: c in cuts ==> c.at + c.width <= |cmd|) && Rebuilt(cmd, cuts, pieces) == cmd
    ensures forall s :: s in SplitConditionalsSpec(cmd) ==> SplitConditionalsSpec(s) == [s]
  {
    forall s | s in SplitConditionalsSpec(cmd)
      ensures SplitConditionalsSpec(s) == [s]
    {
      SplitConditionalAgainIsAlone(cmd, s);
    }
    hide SplitConditionalsSpec;
    ConditionalCutsOrdered(Masked(cmd, None), 0, 0);
    PiecesRebuild(cmd, ConditionalCuts(Masked(cmd, None), 0, 0), 0);
    assert cmd[0..] == cmd;
  }

  // ---------- what the words of those laws mean ----------

  /** Where quotes are open: outside quotes they stay closed up to the next quote character, which opens them until the
      same character comes again. */
  lemma QuoteSpans(a: string, c: char, b: string)
    requires QuoteAfter(a, None) == None
    ensures !IsQuote(c) ==> QuoteAfter(a + [c], None) == None
    ensures (c == '\'' || c == '\"') && c !in b ==>
      && QuoteAfter(a + [c] + b, None) == Some(c)
      && QuoteAfter(a + [c] + b + [c], None) == None
  {
    MaskedConcat(a, [c], None);
    if IsQuote(c) && c !in b {
      StaysOpen(b, c);
      MaskedConcat(a + [c], b, None);
      MaskedConcat(a + [c] + b, [c], None);
    }
  }

  lemma {:induction false} StaysOpen(b: string, c: char)
    requires c !in b
    ensures QuoteAfter(b, Some(c)) == Some(c)
  {
    if b != [] { StaysOpen(b[1..], c); }
  }

  /** The count of backslashes before a character is the length of the whole run of them. */
  lemma {:induction false} BackslashesAreTheRun(m: string, i: nat)
    requires i <= |m|
    ensures var n := Backslashes(m, i);
      (n < i ==> m[i - n - 1] != '\\') && forall j :: i - n <= j < i ==> m[j] == '\\'
  {
    if i > 0 && m[i - 1] == '\\' { BackslashesAreTheRun(m, i - 1); }
  }

  predicate DoubledAt(m: string, i: nat) {
    i + 2 <= |m| && (m[i..i + 2] == "||" || m[i..i + 2] == "&&")
  }

  /** The separators of a chain are ||, &&, ;, | and the newline; those of control flow are the same without |. */
  lemma WidthIsExact(m: string, i: nat)
    requires i < |m|
    ensures Width(m, CHAIN_SINGLES, i) == if DoubledAt(m, i) then 2 else if m[i] in ";|\n" then 1 else 0
    ensures Width(m, CONDITIONAL_SINGLES, i) == if DoubledAt(m, i) then 2 else if m[i] in ";\n" then 1 else 0
  {
    if i + 2 <= |m| {
      var two := m[i..i + 2];
      assert two == [m[i], m[i + 1]];
      assert two == "||" <==> two[0] == '|' && two[1] == '|';
      assert two == "&&" <==> two[0] == '&' && two[1] == '&';
    }
    assert ";|\n" == [';', '|', '\n'] && ";\n" == [';', '\n'];
  }

  /** What the open parentheses outside quotes exceed the closing ones by, before p. */
  function Balance(cmd: string, p: nat): int
    requires p <= |cmd|
  {
    if p == 0 then 0
    else
      Balance(cmd, p - 1)
      + if QuoteAfter(cmd[..p - 1], None) != None || Escaped(cmd, p - 1) then 0
        else if cmd[p - 1] == '(' then 1 else if cmd[p - 1] == ')' then -1 else 0
  }

  /** The depth is the greatest balance of any stretch that ends at p: a parenthesis closing nothing does not count. */
  lemma {:induction false} DepthIsGreatestBalance(cmd: string, p: nat) returns (k: nat)
    requires p <= |cmd|
    ensures k <= p && UnquotedDepth(cmd, p) == Balance(cmd, p) - Balance(cmd, k)
    ensures forall j: nat :: j <= p ==> Balance(cmd, p) - Balance(cmd, j) <= UnquotedDepth(cmd, p)
  {
    hide QuoteAfter, Escaped;
    if p == 0 {
      k := 0;
    } else {
      k := DepthIsGreatestBalance(cmd, p - 1);
      if Balance(cmd, p) - Balance(cmd, k) < 0 { k := p; }
    }
  }

  /** A text is stripped of all blanks at its ends and of nothing else; it becomes empty exactly if it is all blank. */
  lemma StripIsExact(s: string) returns (a: nat, b: nat)
    ensures a <= b <= |s| && Strip(s) == s[a..b] && forall i :: 0 <= i < a || b <= i < |s| ==> IsSpace(s[i])
    ensures a < b ==> !IsSpace(s[a]) && !IsSpace(s[b - 1])
    ensures Strip(s) == [] <==> forall i :: 0 <= i < |s| ==> IsSpace(s[i])
  {
    a, b := TrimFacts(s, IsSpace);
  }

  /** No piece but a blank one is dropped, and the order is kept. */
  lemma {:induction false} NonBlankIsExact(a: seq<string>, p: string, b: seq<string>)
    ensures NonBlank(a + [p] + b) == NonBlank(a) + (if Strip(p) == [] then [] else [Strip(p)]) + NonBlank(b)
  {
    hide Strip;
    if a == [] {
      assert [] + [p] + b == [p] + b && ([p] + b)[1..] == b;
    } else {
      assert (a + [p] + b)[1..] == a[1..] + [p] + b && (a + [p] + b)[0] == a[0];
      NonBlankIsExact(a[1..], p, b);
    }
  }

  predicate EndsAt(cuts: seq<Cut>, p: nat) {
    exists k :: 0 <= k < |cuts| && cuts[k].at + cuts[k].width == p
  }

  /** From l to e the text stands between two neighbouring cuts, or one of them and an end of the text. */
  ghost predicate Between(cuts: seq<Cut>, last: nat, length: nat, l: nat, e: nat) {
    && l <= e <= length && (l == last || EndsAt(cuts, l)) && (e == length || CutAt(cuts, e))
    && NoneInside(cuts, l, e)
  }

  ghost predicate NoneInside(cuts: seq<Cut>, l: nat, e: nat) {
    forall k :: 0 <= k < |cuts| ==> !(l <= cuts[k].at < e)
  }

  lemma BetweenStep(c: Cut, rest: seq<Cut>, last: nat, length: nat, l: nat, e: nat)
    requires last <= c.at && c.width > 0 && c.at + c.width <= length
    requires forall k :: 0 <= k < |rest| ==> rest[k].at >= c.at + c.width && rest[k].width > 0
    ensures Between([c] + rest, last, length, l, e)
       <==> (l == last && e == c.at) || Between(rest, c.at + c.width, length, l, e)
  {
    hide CutAt, EndsAt, NoneInside;
    ConsCutAt(c, rest, e);
    ConsEndsAt(c, rest, l);
    ConsNoneInside(c, rest, l, e);
  }

  lemma ConsEndsAt(c: Cut, rest: seq<Cut>, p: nat)
    ensures EndsAt([c] + rest, p) <==> p == c.at + c.width || EndsAt(rest, p)
  {
    var cuts := [c] + rest;
    assert cuts[0] == c;
    if k :| 0 <= k < |rest| && rest[k].at + rest[k].width == p {
      assert cuts[k + 1].at + cuts[k + 1].width == p;
    }
  }

  lemma ConsNoneInside(c: Cut, rest: seq<Cut>, l: nat, e: nat)
    requires forall k :: 0 <= k < |rest| ==> rest[k].at >= c.at + c.width && rest[k].width > 0
    ensures NoneInside([c] + rest, l, e) <==> !(l <= c.at < e) && NoneInside(rest, l, e)
    ensures e <= c.at + c.width ==> NoneInside(rest, l, e)
    ensures EndsAt(rest, l) ==> l > c.at + c.width
    ensures CutAt(rest, e) ==> e >= c.at + c.width
  {
    var cuts := [c] + rest;
    assert cuts[0] == c && forall k :: 0 <= k < |rest| ==> cuts[k + 1] == rest[k];
  }

  lemma {:induction false} CutsComeLater(cuts: seq<Cut>, last: nat, length: nat)
    requires Ordered(cuts, last, length)
    ensures forall k :: 0 <= k < |cuts| ==> cuts[k].at >= last
  {
    if cuts != [] { CutsComeLater(cuts[1..], cuts[0].at + cuts[0].width, length); }
  }

  lemma {:induction false} PiecesAreBetween(cmd: string, cuts: seq<Cut>, last: nat, s: string)
    requires Ordered(cuts, last, |cmd|) && forall k :: 0 <= k < |cuts| ==> cuts[k].width > 0
    ensures s in Pieces(cmd, cuts, last) <==>
      exists l: nat, e: nat :: Between(cuts, last, |cmd|, l, e) && cmd[l..e] == s
  {
    OrderedFits(cuts, last, |cmd|);
    if cuts == [] {
      LastPiece(cmd, last);
      assert Between(cuts, last, |cmd|, last, |cmd|) && cmd[last..|cmd|] == cmd[last..];
    } else {
      var c, rest := cuts[0], cuts[1..];
      var next := c.at + c.width;
      OrderedFits(rest, next, |cmd|);
      CutsComeLater(rest, next, |cmd|);
      PiecesAreBetween(cmd, rest, next, s);
      assert cuts == [c] + rest;
      assert Pieces(cmd, cuts, last) == [cmd[last..c.at]] + Pieces(cmd, rest, next);
      hide Pieces, Between, Ordered;
      forall l: nat, e: nat
        ensures Between(cuts, last, |cmd|, l, e) <==> (l == last && e == c.at) || Between(rest, next, |cmd|, l, e)
      {
        BetweenStep(c, rest, last, |cmd|, l, e);
      }
    }
  }

  /** Where cuts are, a separator of that width stands in the command. */
  lemma {:induction false} CutsHaveWidths(cmd: string, m: string, singles: set<char>, i: nat)
    requires m == Masked(cmd, None) && i <= |cmd| && singles <= CHAIN_SINGLES
    ensures forall c :: c in Cuts(m, singles, i) ==> c.at < |cmd| && c.width == Width(cmd, singles, c.at) > 0
    decreases |cmd| - i
  {
    hide Masked, Escaped;
    if i < |cmd| {
      var w := Width(m, singles, i);
      if w > 0 { CutIsSeparator(cmd, m, singles, i, w); }
      CutsHaveWidths(cmd, m, singles, if w == 0 then i + 1 else i + w);
    }
  }

  lemma {:induction false} ConditionalCutsHaveWidths(cmd: string, m: string, i: nat, depth: nat)
    requires m == Masked(cmd, None) && i <= |cmd|
    ensures forall c :: c in ConditionalCuts(m, i, depth) ==>
      c.at < |cmd| && c.width == Width(cmd, CONDITIONAL_SINGLES, c.at) > 0
    decreases |cmd| - i
  {
    hide Masked, Escaped;
    if i < |cmd| {
      var d, w := DepthAfter(m[i], Escaped(m, i), depth), Width(m, CONDITIONAL_SINGLES, i);
      if w > 0 { CutIsSeparator(cmd, m, CONDITIONAL_SINGLES, i, w); }
      ConditionalCutsHaveWidths(cmd, m, if d == 0 && !Escaped(m, i) && w > 0 then i + w else i + 1,
                                if d == 0 && !Escaped(m, i) && w > 0 then 0 else d);
    }
  }

  lemma {:induction false} NonBlankMember(pieces: seq<string>, s: string)
    ensures s in NonBlank(pieces) <==> s != [] && exists k :: 0 <= k < |pieces| && Strip(pieces[k]) == s
  {
    hide Strip;
    if pieces != [] {
      NonBlankMember(pieces[1..], s);
      if exists k :: 0 <= k < |pieces[1..]| && Strip(pieces[1..][k]) == s {
        var k :| 0 <= k < |pieces[1..]| && Strip(pieces[1..][k]) == s;
        assert Strip(pieces[k + 1]) == s;
      }
    }
  }

  lemma StrippedMember(cmd: string, cuts: seq<Cut>, s: string)
    requires Ordered(cuts, 0, |cmd|) && forall k :: 0 <= k < |cuts| ==> cuts[k].width > 0
    ensures s in NonBlank(Pieces(cmd, cuts, 0))
       <==> s != [] && exists l: nat, e: nat :: Between(cuts, 0, |cmd|, l, e) && Strip(cmd[l..e]) == s
  {
    var pieces := Pieces(cmd, cuts, 0);
    hide Strip, Pieces, Between, Ordered;
    NonBlankMember(pieces, s);
    if k :| 0 <= k < |pieces| && Strip(pieces[k]) == s {
      PiecesAreBetween(cmd, cuts, 0, pieces[k]);
    }
    if l: nat, e: nat :| Between(cuts, 0, |cmd|, l, e) && Strip(cmd[l..e]) == s {
      PiecesAreBetween(cmd, cuts, 0, cmd[l..e]);
    }
  }

  /** What the splitter returns: exactly the texts between neighbouring separators, stripped, unless they are blank.
      Each cut is as wide as the separator that stands there. */
  lemma SplitReturnsExactly(cmd: string, singles: set<char>, s: string)
    requires singles <= CHAIN_SINGLES
    ensures var cuts := Cuts(Masked(cmd, None), singles, 0);
      && (forall c :: c in cuts ==> c.at < |cmd| && c.width == Width(cmd, singles, c.at) > 0)
      && (s in SplitAtSpec(cmd, singles)
          <==> s != [] && exists l: nat, e: nat :: Between(cuts, 0, |cmd|, l, e) && Strip(cmd[l..e]) == s)
  {
    var cuts := Cuts(Masked(cmd, None), singles, 0);
    CutsOrdered(Masked(cmd, None), singles, 0);
    CutsHaveWidths(cmd, Masked(cmd, None), singles, 0);
    forall k | 0 <= k < |cuts| ensures cuts[k].width > 0 { assert cuts[k] in cuts; }
    StrippedMember(cmd, cuts, s);
  }

  /** And the same for control flow. */
  lemma SplitConditionalsReturnsExactly(cmd: string, s: string)
    ensures var cuts := ConditionalCuts(Masked(cmd, None), 0, 0);
      && (forall c :: c in cuts ==> c.at < |cmd| && c.width == Width(cmd, CONDITIONAL_SINGLES, c.at) > 0)
      && (s in SplitConditionalsSpec(cmd)
          <==> s != [] && exists l: nat, e: nat :: Between(cuts, 0, |cmd|, l, e) && Strip(cmd[l..e]) == s)
  {
    var cuts := ConditionalCuts(Masked(cmd, None), 0, 0);
    ConditionalCutsOrdered(Masked(cmd, None), 0, 0);
    ConditionalCutsHaveWidths(cmd, Masked(cmd, None), 0, 0);
    forall k | 0 <= k < |cuts| ensures cuts[k].width > 0 { assert cuts[k] in cuts; }
    StrippedMember(cmd, cuts, s);
  }
}
