/** Bounded line windows of a UTF-8 text, and the walk that follows next_line. */
module LineWindow {
  import opened Options

  type Byte = b: int | 0 <= b < 256
  type Bytes = seq<Byte>

  const MAX_RETURN_BYTES := 32768

  // ---------- UTF-8 (section 4 of RFC 3629) ----------

  predicate Tail(b: Byte) {
    0x80 <= b <= 0xBF
  }

  /** The length of the well-formed character at the front, 0 if there is none. */
  function CharLength(b: Bytes): (n: nat)
    ensures n <= 4 && n <= |b|
  {
    if b == [] then 0
    else if b[0] <= 0x7F then 1
    else if 0xC2 <= b[0] <= 0xDF then if |b| >= 2 && Tail(b[1]) then 2 else 0
    else if 0xE0 <= b[0] <= 0xEF then
      if |b| >= 3 && Tail(b[1]) && Tail(b[2]) && (b[0] == 0xE0 ==> b[1] >= 0xA0) && (b[0] == 0xED ==> b[1] <= 0x9F)
      then 3 else 0
    else if 0xF0 <= b[0] <= 0xF4 then
      if |b| >= 4 && Tail(b[1]) && Tail(b[2]) && Tail(b[3]) && (b[0] == 0xF0 ==> b[1] >= 0x90)
        && (b[0] == 0xF4 ==> b[1] <= 0x8F)
      then 4 else 0
    else 0
  }

  predicate ValidUtf8(b: Bytes)
    decreases |b|
  {
    b == [] || (CharLength(b) > 0 && ValidUtf8(b[CharLength(b)..]))
  }

  /** The longest decodable prefix of at most bound bytes. */
  ghost predicate LongestValidPrefix(line: Bytes, bound: nat, p: Bytes) {
    && |p| <= bound && p <= line && ValidUtf8(p)
    && forall k :: |p| < k <= bound && k <= |line| ==> !ValidUtf8(line[..k])
  }

  /** A cut into valid text is at most three bytes behind a character boundary. */
  lemma {:induction false} BoundaryIsNear(b: Bytes, cut: nat) returns (k: nat)
    requires ValidUtf8(b) && cut <= |b|
    ensures cut - 3 <= k <= cut && ValidUtf8(b[..k])
    decreases |b|
  {
    var n := CharLength(b);
    if b == [] || cut < n {
      k := 0;
    } else {
      var rest := b[n..];
      var j := BoundaryIsNear(rest, cut - n);
      k := n + j;
      assert b[..k][n..] == rest[..j];
      assert CharLength(b[..k]) == n;
    }
  }

  /** The clipping loop: drop trailing bytes until the fragment decodes. */
  method ClipLine(line: Bytes) returns (fragment: Bytes)
    requires |line| > MAX_RETURN_BYTES
    ensures LongestValidPrefix(line, MAX_RETURN_BYTES, fragment)
    ensures ValidUtf8(line) ==> |fragment| >= MAX_RETURN_BYTES - 3
  {
    fragment := line[..MAX_RETURN_BYTES];
    while fragment != [] && !ValidUtf8(fragment)
      invariant |fragment| <= MAX_RETURN_BYTES && fragment == line[..|fragment|]
      invariant forall k :: |fragment| < k <= MAX_RETURN_BYTES ==> !ValidUtf8(line[..k])
      decreases |fragment|
    {
      fragment := fragment[..|fragment| - 1];
    }
    if ValidUtf8(line) {
      ghost var k := BoundaryIsNear(line, MAX_RETURN_BYTES);
    }
  }

  function Clip(line: Bytes, n: nat): Bytes
    requires n <= |line|
  {
    if ValidUtf8(line[..n]) || n == 0 then line[..n] else Clip(line, n - 1)
  }

  lemma {:induction false} ClipIsLongest(line: Bytes, n: nat, p: Bytes)
    requires n <= |line| && LongestValidPrefix(line, n, p)
    ensures p == Clip(line, n)
  {
    assert p == line[..|p|];
    if n == 0 || ValidUtf8(line[..n]) {
      assert |p| == n;
    } else {
      ClipIsLongest(line, n - 1, p);
    }
  }

  // ---------- windows ----------

  function Concat(lines: seq<Bytes>): Bytes {
    if lines == [] then [] else lines[0] + Concat(lines[1..])
  }

  /** How many leading lines fit into room bytes. */
  function Fit(lines: seq<Bytes>, room: nat): (k: nat)
    ensures k <= |lines|
  {
    if lines == [] || |lines[0]| > room then 0 else 1 + Fit(lines[1..], room - |lines[0]|)
  }

  datatype Window = Window(content: Bytes, lineEnd: int, truncated: bool, nextLine: Option<nat>, lineTooLong: bool)

  function Wanted(lines: seq<Bytes>, lineStart: nat, lineCount: nat): seq<Bytes>
    requires 1 <= lineStart <= |lines| + 1
  {
    var rest := lines[lineStart - 1..];
    if lineCount < |rest| then rest[..lineCount] else rest
  }

  /** None is the line_start_out_of_range error. */
  function WindowAt(lines: seq<Bytes>, lineStart: nat, lineCount: nat): Option<Window>
    requires lineStart >= 1
  {
    if lineStart - 1 > |lines| then None
    else
      var wanted := Wanted(lines, lineStart, lineCount);
      var k := Fit(wanted, MAX_RETURN_BYTES);
      if wanted != [] && |wanted[0]| > MAX_RETURN_BYTES then
        Some(Window(Clip(wanted[0], MAX_RETURN_BYTES), lineStart, true, None, true))
      else
        var more := lineStart - 1 + k < |lines|;
        Some(Window(Concat(wanted[..k]), lineStart + k - 1, more, if more then Some(lineStart + k) else None, false))
  }

  lemma {:induction false} FitFacts(lines: seq<Bytes>, room: nat)
    ensures |Concat(lines[..Fit(lines, room)])| <= room
    ensures Fit(lines, room) == |lines| <==> |Concat(lines)| <= room
  {
    var k := Fit(lines, room);
    if lines != [] {
      if |lines[0]| > room {
        assert lines[..0] == [];
      } else {
        FitFacts(lines[1..], room - |lines[0]|);
        assert lines[..k][1..] == lines[1..][..k - 1];
      }
    }
  }

  /** The loop over the wanted lines when they are too long together. */
  method TakeLines(wanted: seq<Bytes>) returns (selected: nat, content: Bytes, clippedLine: bool)
    requires |Concat(wanted)| > MAX_RETURN_BYTES
    ensures selected == Fit(wanted, MAX_RETURN_BYTES) && |content| <= MAX_RETURN_BYTES
    ensures clippedLine <==> wanted != [] && |wanted[0]| > MAX_RETURN_BYTES
    ensures content == if clippedLine then Clip(wanted[0], MAX_RETURN_BYTES) else Concat(wanted[..selected])
  {
    FitFacts(wanted, MAX_RETURN_BYTES);
    var used := 0;
    selected, content, clippedLine := 0, [], false;
    while selected < |wanted|
      invariant 0 <= selected <= |wanted| && used == |content| <= MAX_RETURN_BYTES && !clippedLine
      invariant content == Concat(wanted[..selected])
      invariant selected > 0 ==> |wanted[0]| <= MAX_RETURN_BYTES
      invariant Fit(wanted, MAX_RETURN_BYTES) == selected + Fit(wanted[selected..], MAX_RETURN_BYTES - used)
    {
      var line := wanted[selected];
      assert wanted[selected..][1..] == wanted[selected + 1..];
      if used + |line| > MAX_RETURN_BYTES {
        clippedLine := selected == 0;
        if clippedLine {
          content := ClipLine(line);
          ClipIsLongest(line, MAX_RETURN_BYTES, content);
        }
        break;
      }
      ConcatAppend(wanted, selected);
      content := content + line;
      selected := selected + 1;
      used := used + |line|;
    }
  }

  /** The wanted lines as they are when they fit together, else what the loop takes of them. */
  method JoinWanted(wanted: seq<Bytes>) returns (selected: nat, content: Bytes, clippedLine: bool)
    ensures selected == Fit(wanted, MAX_RETURN_BYTES) && |content| <= MAX_RETURN_BYTES
    ensures clippedLine <==> wanted != [] && |wanted[0]| > MAX_RETURN_BYTES
    ensures content == if clippedLine then Clip(wanted[0], MAX_RETURN_BYTES) else Concat(wanted[..selected])
  {
    hide Fit, Clip;
    selected, content, clippedLine := |wanted|, Concat(wanted), false;
    if |content| > MAX_RETURN_BYTES {
      selected, content, clippedLine := TakeLines(wanted);
    } else {
      FitFacts(wanted, MAX_RETURN_BYTES);
      FirstFits(wanted);
      assert wanted[..|wanted|] == wanted;
    }
  }

  method SelectWindow(lines: seq<Bytes>, lineStart: nat, lineCount: nat) returns (w: Option<Window>)
    requires lineStart >= 1
    ensures w == WindowAt(lines, lineStart, lineCount)
    ensures w.Some? ==> |w.value.content| <= MAX_RETURN_BYTES
  {
    hide Fit, Clip, Concat;
    var totalLines, startIndex := |lines|, lineStart - 1;
    if startIndex > totalLines {
      return None;
    }
    var wanted := lines[startIndex..];
    if lineCount < |wanted| {
      wanted := wanted[..lineCount];
    }
    var completeLines, content, clippedLine := JoinWanted(wanted);
    if clippedLine { completeLines := 0; }
    var lineEnd := if clippedLine then lineStart
                   else if completeLines > 0 then lineStart + completeLines - 1
                   else lineStart - 1;
    var moreLines := startIndex + completeLines < totalLines;
    w := Some(Window(content, lineEnd, clippedLine || moreLines,
                     if clippedLine || !moreLines then None else Some(lineEnd + 1), clippedLine));
  }

  lemma FirstFits(lines: seq<Bytes>)
    ensures lines != [] ==> |lines[0]| <= |Concat(lines)|
  {
  }

  lemma {:induction false} ConcatAppend(lines: seq<Bytes>, k: nat)
    requires k < |lines|
    ensures Concat(lines[..k + 1]) == Concat(lines[..k]) + lines[k]
  {
    if k == 0 {
      assert lines[..1][1..] == [] && lines[..0] == [];
    } else {
      assert lines[..k + 1][1..] == lines[1..][..k] && lines[..k][1..] == lines[1..][..k - 1];
      ConcatAppend(lines[1..], k - 1);
    }
  }

  // ---------- the walk ----------

  lemma NextLineAdvances(lines: seq<Bytes>, lineStart: nat, lineCount: nat)
    requires lineStart >= 1 && lineCount >= 1
    requires WindowAt(lines, lineStart, lineCount).Some? && WindowAt(lines, lineStart, lineCount).value.nextLine.Some?
    ensures lineStart < WindowAt(lines, lineStart, lineCount).value.nextLine.value <= |lines|
  {
  }

  /** How many lines the reader asks for at each call; no two calls start at one line, so any choice is of this form. */
  type Counts = nat -> nat

  ghost predicate Asks(counts: Counts) {
    forall n :: counts(n) >= 1
  }

  /** The windows a reader gets by following next_line, whatever the counts asked for on the way. */
  ghost function Walk(lines: seq<Bytes>, lineStart: nat, counts: Counts): seq<Window>
    requires lineStart >= 1 && Asks(counts)
    decreases |lines| + 1 - lineStart
  {
    match WindowAt(lines, lineStart, counts(lineStart))
    case None => []
    case Some(w) =>
      if w.nextLine.None? then [w]
      else
        NextLineAdvances(lines, lineStart, counts(lineStart));
        [w] + Walk(lines, w.nextLine.value, counts)
  }

  function Contents(ws: seq<Window>): Bytes {
    if ws == [] then [] else ws[0].content + Contents(ws[1..])
  }

  ghost predicate AllFit(lines: seq<Bytes>) {
    forall i :: 0 <= i < |lines| ==> |lines[i]| <= MAX_RETURN_BYTES
  }

  lemma FullWindow(lines: seq<Bytes>, lineStart: nat, lineCount: nat) returns (k: nat)
    requires 1 <= lineStart <= |lines| + 1 && lineCount >= 1
    requires lineStart <= |lines| ==> |lines[lineStart - 1]| <= MAX_RETURN_BYTES
    ensures lineStart - 1 + k <= |lines| && (k == 0 ==> lineStart == |lines| + 1)
    ensures WindowAt(lines, lineStart, lineCount).Some?
    ensures var w := WindowAt(lines, lineStart, lineCount).value;
      && !w.lineTooLong && w.content == Concat(lines[lineStart - 1..lineStart - 1 + k])
        && |w.content| <= MAX_RETURN_BYTES
      && w.nextLine == if lineStart - 1 + k < |lines| then Some(lineStart + k) else None
  {
    var wanted := Wanted(lines, lineStart, lineCount);
    k := Fit(wanted, MAX_RETURN_BYTES);
    FitFacts(wanted, MAX_RETURN_BYTES);
    assert wanted[..k] == lines[lineStart - 1..lineStart - 1 + k];
  }

  lemma {:induction false} ConcatSplit(a: seq<Bytes>, b: seq<Bytes>)
    ensures Concat(a + b) == Concat(a) + Concat(b)
  {
    if a == [] {
      assert a + b == b;
    } else {
      assert (a + b)[1..] == a[1..] + b;
      ConcatSplit(a[1..], b);
    }
  }

  lemma ContentsCons(w: Window, ws: seq<Window>)
    ensures Contents([w] + ws) == w.content + Contents(ws)
    ensures Contents([]) == [] && Concat([]) == []
  {
    assert ([w] + ws)[1..] == ws;
  }

  /** When every line fits: the windows are the rest of the text, at most one per line, each within the bound. */
  lemma {:induction false} WalkReadsEverything(lines: seq<Bytes>, lineStart: nat, counts: Counts)
    requires 1 <= lineStart <= |lines| + 1 && Asks(counts) && AllFit(lines)
    ensures Contents(Walk(lines, lineStart, counts)) == Concat(lines[lineStart - 1..])
    ensures |Walk(lines, lineStart, counts)| <= if lineStart <= |lines| then |lines| + 1 - lineStart else 1
    ensures forall w :: w in Walk(lines, lineStart, counts) ==> |w.content| <= MAX_RETURN_BYTES && !w.lineTooLong
    decreases |lines| + 1 - lineStart
  {
    hide WindowAt, Concat, Contents;
    var k := FullWindow(lines, lineStart, counts(lineStart));
    var s := lineStart - 1;
    var w, ws := WindowAt(lines, lineStart, counts(lineStart)).value, Walk(lines, lineStart, counts);
    assert lines[s..] == lines[s..s + k] + lines[s + k..];
    ConcatSplit(lines[s..s + k], lines[s + k..]);
    if w.nextLine.Some? {
      WalkReadsEverything(lines, lineStart + k, counts);
      assert ws == [w] + Walk(lines, lineStart + k, counts);
      ContentsCons(w, Walk(lines, lineStart + k, counts));
    } else {
      assert lines[s + k..] == [];
      assert ws == [w] + [];
      ContentsCons(w, []);
    }
  }

  /** With a line over the bound ahead the walk stops at it, flags it, and falls short of the text. */
  lemma {:induction false} WalkStopsAtLongLine(lines: seq<Bytes>, lineStart: nat, counts: Counts, j: nat)
    requires 1 <= lineStart <= j + 1 <= |lines| && Asks(counts) && |lines[j]| > MAX_RETURN_BYTES
    requires forall i :: lineStart - 1 <= i < j ==> |lines[i]| <= MAX_RETURN_BYTES
    ensures Contents(Walk(lines, lineStart, counts)) ==
      Concat(lines[lineStart - 1..j]) + Clip(lines[j], MAX_RETURN_BYTES)
    ensures var ws := Walk(lines, lineStart, counts); ws != [] && ws[|ws| - 1].lineTooLong
    decreases |lines| + 1 - lineStart
  {
    hide WindowAt, Concat, Contents, Clip, ValidUtf8;
    var s := lineStart - 1;
    var ws := Walk(lines, lineStart, counts);
    if s == j {
      assert lines[s..j] == [];
      LongWindow(lines, lineStart, counts(lineStart));
      var w := WindowAt(lines, lineStart, counts(lineStart)).value;
      assert ws == [w] + [];
      ContentsCons(w, []);
    } else {
      var k := FullWindow(lines, lineStart, counts(lineStart));
      var w := WindowAt(lines, lineStart, counts(lineStart)).value;
      LongLineEndsWindow(lines, lineStart, k, j);
      WalkStopsAtLongLine(lines, lineStart + k, counts, j);
      assert ws == [w] + Walk(lines, lineStart + k, counts);
      ContentsCons(w, Walk(lines, lineStart + k, counts));
      assert lines[s..j] == lines[s..s + k] + lines[s + k..j];
      ConcatSplit(lines[s..s + k], lines[s + k..j]);
    }
  }

  lemma LongWindow(lines: seq<Bytes>, lineStart: nat, lineCount: nat)
    requires 1 <= lineStart <= |lines| && lineCount >= 1 && |lines[lineStart - 1]| > MAX_RETURN_BYTES
    ensures WindowAt(lines, lineStart, lineCount)
              == Some(Window(Clip(lines[lineStart - 1], MAX_RETURN_BYTES), lineStart, true, None, true))
  {
  }

  lemma LongLineEndsWindow(lines: seq<Bytes>, lineStart: nat, k: nat, j: nat)
    requires 1 <= lineStart <= j + 1 <= |lines| && lineStart - 1 + k <= |lines| && |lines[j]| > MAX_RETURN_BYTES
    requires |Concat(lines[lineStart - 1..lineStart - 1 + k])| <= MAX_RETURN_BYTES
    ensures lineStart - 1 + k <= j
  {
    if lineStart - 1 + k > j {
      ConcatAtLeast(lines[lineStart - 1..lineStart - 1 + k], j - (lineStart - 1));
    }
  }

  lemma {:induction false} ConcatAtLeast(lines: seq<Bytes>, i: nat)
    requires i < |lines|
    ensures |Concat(lines)| >= |lines[i]|
  {
    if i > 0 { ConcatAtLeast(lines[1..], i - 1); }
  }

  lemma {:induction false} ClipIsShorter(line: Bytes, n: nat)
    requires n <= |line|
    ensures |Clip(line, n)| <= n
  {
    if !(ValidUtf8(line[..n]) || n == 0) { ClipIsShorter(line, n - 1); }
  }

  lemma FirstLongLine(lines: seq<Bytes>) returns (j: nat)
    requires !AllFit(lines)
    ensures j < |lines| && |lines[j]| > MAX_RETURN_BYTES && forall i :: 0 <= i < j ==> |lines[i]| <= MAX_RETURN_BYTES
  {
    j := 0;
    while |lines[j]| <= MAX_RETURN_BYTES
      invariant j < |lines| && forall i :: 0 <= i < j ==> |lines[i]| <= MAX_RETURN_BYTES
      decreases |lines| - j
    {
      if j + 1 == |lines| {
        assert false;
      }
      j := j + 1;
    }
  }

  /** Following next_line from line 1 recovers the text exactly when no line is longer than one window. */
  lemma WalkIsCompleteIff(lines: seq<Bytes>, counts: Counts)
    requires Asks(counts)
    ensures Contents(Walk(lines, 1, counts)) == Concat(lines) <==> AllFit(lines)
    ensures AllFit(lines) ==> |Walk(lines, 1, counts)| <= if lines == [] then 1 else |lines|
  {
    hide Walk, Concat, Contents, Clip, ValidUtf8;
    if AllFit(lines) {
      WalkReadsEverything(lines, 1, counts);
      assert lines[0..] == lines;
    } else {
      var j := FirstLongLine(lines);
      WalkStopsAtLongLine(lines, 1, counts, j);
      assert lines == lines[0..j] + ([lines[j]] + lines[j + 1..]);
      ConcatSplit(lines[0..j], [lines[j]] + lines[j + 1..]);
      ConcatSplit([lines[j]], lines[j + 1..]);
      ConcatAtLeast([lines[j]], 0);
      ClipIsShorter(lines[j], MAX_RETURN_BYTES);
    }
  }

  // ---------- a window by itself ----------

  lemma {:induction false} FitIsMaximal(lines: seq<Bytes>, room: nat)
    ensures Fit(lines, room) < |lines| ==> |Concat(lines[..Fit(lines, room) + 1])| > room
  {
    var k := Fit(lines, room);
    if lines != [] {
      if |lines[0]| > room {
        assert lines[..1][1..] == [];
      } else if k < |lines| {
        FitIsMaximal(lines[1..], room - |lines[0]|);
        assert lines[..k + 1][1..] == lines[1..][..k];
      }
    }
  }

  /** What a reader gets from any line for any count: nothing past the end; the clipped line, flagged, if it is
      over-long; else the lines from there on up to an end that is the count, the end of the text or the last line
      that fits, with the flags that follow from that end. */
  lemma WindowIsExact(lines: seq<Bytes>, lineStart: nat, lineCount: nat)
    requires lineStart >= 1
    ensures WindowAt(lines, lineStart, lineCount).None? <==> lineStart > |lines| + 1
    ensures lineStart <= |lines| && lineCount >= 1 && |lines[lineStart - 1]| > MAX_RETURN_BYTES ==>
      var w := WindowAt(lines, lineStart, lineCount).value;
      && LongestValidPrefix(lines[lineStart - 1], MAX_RETURN_BYTES, w.content)
      && w.lineEnd == lineStart && w.truncated && w.nextLine.None? && w.lineTooLong
    ensures lineStart <= |lines| + 1
            && (lineStart <= |lines| && lineCount >= 1 ==> |lines[lineStart - 1]| <= MAX_RETURN_BYTES) ==>
      var s, w := lineStart - 1, WindowAt(lines, lineStart, lineCount).value;
      exists e: nat :: IsWindow(lines, s, e, lineCount, w)
  {
    if lineStart <= |lines| + 1 {
      var wanted, s := Wanted(lines, lineStart, lineCount), lineStart - 1;
      var k := Fit(wanted, MAX_RETURN_BYTES);
      FitFacts(wanted, MAX_RETURN_BYTES);
      FitIsMaximal(wanted, MAX_RETURN_BYTES);
      assert wanted[..k] == lines[s..s + k];
      if k < |wanted| { assert wanted[..k + 1] == lines[s..s + k + 1]; }
      hide Concat, Fit, Clip;
      if wanted != [] && |wanted[0]| > MAX_RETURN_BYTES {
        ClipLongest(wanted[0], MAX_RETURN_BYTES);
      } else {
        assert IsWindow(lines, s, s + k, lineCount, WindowAt(lines, lineStart, lineCount).value);
      }
    }
  }

  /** w shows the lines from s to e. */
  ghost predicate IsWindow(lines: seq<Bytes>, s: nat, e: nat, lineCount: nat, w: Window) {
    && s <= e <= |lines| && e - s <= lineCount
    && w.content == Concat(lines[s..e]) && |w.content| <= MAX_RETURN_BYTES
    && (e - s == lineCount || e == |lines| || |Concat(lines[s..e + 1])| > MAX_RETURN_BYTES)
    && w.lineEnd == e && !w.lineTooLong && w.truncated == (e < |lines|)
    && w.nextLine == if e < |lines| then Some(e + 1) else None
  }

  lemma {:induction false} ClipLongest(line: Bytes, n: nat)
    requires n <= |line|
    ensures LongestValidPrefix(line, n, Clip(line, n))
  {
    if !(ValidUtf8(line[..n]) || n == 0) { ClipLongest(line, n - 1); }
  }

  // ---------- UTF-8 against its encoding table (section 3 of RFC 3629) ----------

  predicate Scalar(c: int) {
    0 <= c <= 0x10FFFF && !(0xD800 <= c <= 0xDFFF)
  }

  function Encode(c: int): Bytes
    requires Scalar(c)
  {
    if c <= 0x7F then [c]
    else if c <= 0x7FF then [0xC0 + c / 64, 0x80 + c % 64]
    else if c <= 0xFFFF then [0xE0 + c / 4096, 0x80 + c / 64 % 64, 0x80 + c % 64]
    else [0xF0 + c / 262144, 0x80 + c / 4096 % 64, 0x80 + c / 64 % 64, 0x80 + c % 64]
  }

  /** A well-formed character is at the front exactly if the bytes start with the encoding of some scalar value. */
  lemma CharIsEncoded(b: Bytes)
    ensures CharLength(b) > 0 <==> exists c :: Scalar(c) && Encode(c) <= b
    ensures forall c :: Scalar(c) && Encode(c) <= b ==> CharLength(b) == |Encode(c)|
  {
    forall c | Scalar(c) && Encode(c) <= b ensures CharLength(b) == |Encode(c)| { EncodedIsWellFormed(c, b); }
    if CharLength(b) > 0 { var c := Decoded(b); }
  }

  lemma EncodedIsWellFormed(c: int, b: Bytes)
    requires Scalar(c) && Encode(c) <= b
    ensures CharLength(b) == |Encode(c)|
  {
    var e := Encode(c);
    assert forall i :: 0 <= i < |e| ==> b[i] == e[i];
  }

  lemma Decoded(b: Bytes) returns (c: int)
    requires CharLength(b) > 0
    ensures Scalar(c) && Encode(c) == b[..CharLength(b)] && Encode(c) <= b
  {
    var n := CharLength(b);
    if n == 1 { c := b[0]; }
    else if n == 2 { c := DecodedTwo(b[0], b[1]); }
    else if n == 3 { c := DecodedThree(b[0], b[1], b[2]); }
    else { c := DecodedFour(b[0], b[1], b[2], b[3]); }
    assert Encode(c) == b[..n];
  }

  lemma DecodedTwo(x: int, y: int) returns (c: int)
    requires 0xC2 <= x <= 0xDF && 0x80 <= y <= 0xBF
    ensures Scalar(c) && Encode(c) == [x, y]
  {
    c := (x - 0xC0) * 64 + (y - 0x80);
  }

  lemma DecodedThree(x: int, y: int, z: int) returns (c: int)
    requires 0xE0 <= x <= 0xEF && 0x80 <= y <= 0xBF && 0x80 <= z <= 0xBF
    requires (x == 0xE0 ==> y >= 0xA0) && (x == 0xED ==> y <= 0x9F)
    ensures Scalar(c) && Encode(c) == [x, y, z]
  {
    c := (x - 0xE0) * 4096 + (y - 0x80) * 64 + (z - 0x80);
    assert c / 64 == (x - 0xE0) * 64 + (y - 0x80);
  }

  lemma DecodedFour(x: int, y: int, z: int, t: int) returns (c: int)
    requires 0xF0 <= x <= 0xF4 && 0x80 <= y <= 0xBF && 0x80 <= z <= 0xBF && 0x80 <= t <= 0xBF
    requires (x == 0xF0 ==> y >= 0x90) && (x == 0xF4 ==> y <= 0x8F)
    ensures Scalar(c) && Encode(c) == [x, y, z, t]
  {
    c := (x - 0xF0) * 262144 + (y - 0x80) * 4096 + (z - 0x80) * 64 + (t - 0x80);
    assert c / 64 == (x - 0xF0) * 4096 + (y - 0x80) * 64 + (z - 0x80);
    assert c / 4096 == (x - 0xF0) * 64 + (y - 0x80);
  }
}
