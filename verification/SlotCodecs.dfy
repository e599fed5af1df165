/** How one proposed slot value becomes a canonical one, against the live catalogs. */
module SlotCodecs {
  import opened Trimming
  import opened Options

  /** A float64, finite values taken as reals. */
  datatype Number = Finite(r: real) | NaN | Infinite(negative: bool)

  datatype Value = Num(n: Number) | Text(s: string) | Bool(b: bool) | Structured(json: string) | Null

  datatype Codec =
    | ResourceRef | MachineType | Zone | Image | Capacity | Integer | Number | Boolean | Enum(members: seq<string>)
    | Time | ConstrainedText | SensitiveText | StructuredJson | Unsupported

  // ---------- text ----------

  /** unicode.IsSpace. */
  predicate IsSpace(c: char) {
    var n := c as int;
    || 9 <= n <= 13 || n == 32 || n == 0x85 || n == 0xa0 || n == 0x1680
    || 0x2000 <= n <= 0x200a || n == 0x2028 || n == 0x2029 || n == 0x202f || n == 0x205f || n == 0x3000
  }

  function TrimSpace(s: string): string {
    Trim(s, IsSpace)
  }

  function UpChar(c: char): char {
    if 'a' <= c <= 'z' then (c as int - 32) as char else c
  }

  /** Upper case; letters outside ASCII are left alone here. */
  function Upper(s: string): (u: string)
    ensures |u| == |s| && forall i :: 0 <= i < |s| ==> u[i] == UpChar(s[i])
  {
    if s == [] then [] else [UpChar(s[0])] + Upper(s[1..])
  }

  predicate EqualFold(a: string, b: string) {
    Upper(a) == Upper(b)
  }

  predicate IsSeparator(c: char) {
    c == ' ' || c == '-' || c == '_'
  }

  function DropSeparators(s: string): string {
    if s == [] then []
    else if IsSeparator(s[0]) then DropSeparators(s[1..])
    else [s[0]] + DropSeparators(s[1..])
  }

  function FoldMachineType(s: string): string {
    Upper(DropSeparators(TrimSpace(s)))
  }

  // ---------- catalogs ----------

  /** What the engine snapshotted this turn. parse is ParseFloat, None for its error. Zones and image ids are as their
      constructors leave them: trimmed, not blank, and one per case-folded id. */
  datatype Env = Env(machineNames: Option<seq<string>>, zones: Option<seq<ZoneRow>>, images: Option<seq<ImageRow>>,
                     parse: string -> Option<Number>)

  datatype ZoneRow = ZoneRow(id: string, title: string)
  datatype ImageRow = ImageRow(id: string, usable: bool)

  datatype Match = Resolved(canonical: string) | Several(candidates: seq<string>) | Unknown | Unavailable

  /** Catalog names related to the value, each once, in catalog order. */
  function MatchNames(value: string, names: seq<string>, equal: (string, string) -> bool,
                      seen: set<string>): seq<string> {
    if names == [] then []
    else if names[0] == "" || !equal(names[0], value) || names[0] in seen then
      MatchNames(value, names[1..], equal, seen)
    else [names[0]] + MatchNames(value, names[1..], equal, seen + {names[0]})
  }

  function SameText(): (string, string) -> bool { (a: string, b: string) => a == b }
  function SameFold(): (string, string) -> bool { (a: string, b: string) => EqualFold(a, b) }

  function SameMachine(): (string, string) -> bool {
    (a: string, b: string) => FoldMachineType(a) == FoldMachineType(b)
  }

  /** Exact, then case-insensitive, then separator-insensitive. */
  function CanonicalMachineType(raw: string, catalog: Option<seq<string>>): Match {
    var value := TrimSpace(raw);
    if catalog.None? then Unavailable
    else if value == "" then Unknown
    else
      var names := catalog.value;
      var exact := MatchNames(value, names, SameText(), {});
      if |exact| == 1 then Resolved(exact[0])
      else
        var folded := MatchNames(value, names, SameFold(), {});
        var hits := if |folded| == 0 then MatchNames(value, names, SameMachine(), {}) else folded;
        if |hits| == 1 then Resolved(hits[0]) else if |hits| == 0 then Unknown else Several(hits)
  }

  function ZoneHits(value: string, zones: seq<ZoneRow>, seen: set<string>): seq<string> {
    if zones == [] then []
    else
      var z := zones[0];
      if z.id !in seen && (EqualFold(z.id, value) || EqualFold(if z.title != "" then z.title else z.id, value))
      then [z.id] + ZoneHits(value, zones[1..], seen + {z.id})
      else ZoneHits(value, zones[1..], seen)
  }

  function CanonicalZone(raw: string, catalog: Option<seq<ZoneRow>>): Match {
    var value := TrimSpace(raw);
    if catalog.None? then Unavailable
    else if value == "" then Unknown
    else if exists i :: 0 <= i < |catalog.value| && catalog.value[i].id == value then Resolved(value)
    else
      var hits := ZoneHits(value, catalog.value, {});
      if |hits| == 1 then Resolved(hits[0]) else if |hits| == 0 then Unknown else Several(hits)
  }

  /** The snapshot's lookup by case-folded id; an unusable image is as good as absent. */
  function CanonicalImage(raw: string, catalog: Option<seq<ImageRow>>): Match {
    var value := TrimSpace(raw);
    if catalog.None? then Unavailable
    else if value == "" then Unknown
    else FindImage(value, catalog.value)
  }

  function FindImage(value: string, images: seq<ImageRow>): Match {
    if images == [] then Unknown
    else if EqualFold(images[0].id, value) then if images[0].usable then Resolved(images[0].id) else Unknown
    else FindImage(value, images[1..])
  }

  // ---------- the codecs ----------

  datatype Normal = Good(v: Value) | Invalid | Outage | Ambiguous(candidates: seq<string>)

  function FromMatch(m: Match): Normal {
    match m
    case Resolved(canonical) => Good(Text(canonical))
    case Several(candidates) => Ambiguous(candidates)
    case Unknown => Invalid
    case Unavailable => Outage
  }

  function AsNumber(env: Env, v: Value): Option<Number> {
    match v
    case Num(n) => Some(n)
    case Text(s) => env.parse(TrimSpace(s))
    case _ => None
  }

  function CapacityGB(env: Env, v: Value): Option<Number> {
    var n := AsNumber(env, v);
    if n.Some? then n
    else if !v.Text? then None
    else
      var number := CutUnit(TrimSpace(Upper(v.s)));
      if number.Some? then env.parse(TrimSpace(number.value)) else None
  }

  /** The text in front of the first of the units it ends in. */
  function CutUnit(t: string): Option<string> {
    if EndsIn(t, "GIB") then Some(t[..|t| - 3])
    else if EndsIn(t, "GB") then Some(t[..|t| - 2])
    else if EndsIn(t, "G") then Some(t[..|t| - 1])
    else None
  }

  predicate EndsIn(t: string, suffix: string) {
    |t| >= |suffix| && t[|t| - |suffix|..] == suffix
  }

  /** number > 0 and math.Trunc(number) == number; +Inf passes, NaN does not. */
  predicate PassesAsInteger(n: Number) {
    match n
    case Finite(r) => r > 0.0 && r.Floor as real == r
    case NaN => false
    case Infinite(negative) => !negative
  }

  /** !(number < 0); NaN passes. */
  predicate NotNegative(n: Number) {
    match n
    case Finite(r) => r >= 0.0
    case NaN => true
    case Infinite(negative) => !negative
  }

  function Normalize(env: Env, codec: Codec, v: Value): Normal {
    match codec
    case MachineType =>
      if NonBlank(v) then FromMatch(CanonicalMachineType(TrimSpace(v.s), env.machineNames)) else Invalid
    case Zone => if NonBlank(v) then FromMatch(CanonicalZone(TrimSpace(v.s), env.zones)) else Invalid
    case Image => if NonBlank(v) then FromMatch(CanonicalImage(TrimSpace(v.s), env.images)) else Invalid
    case ResourceRef =>
      if NonBlank(v) && |TrimSpace(v.s)| <= 128 && forall i :: 0 <= i < |TrimSpace(v.s)| ==> !IsSpace(TrimSpace(v.s)[i])
      then Good(Text(TrimSpace(v.s))) else Invalid
    case Time => BoundedText(v)
    case ConstrainedText => BoundedText(v)
    case SensitiveText => BoundedText(v)
    case Enum(members) => if v.Text? && v.s in members then Good(v) else Invalid
    case Integer =>
      var n := AsNumber(env, v);
      if n.Some? && PassesAsInteger(n.value) then Good(Num(n.value)) else Invalid
    case Capacity =>
      var n := CapacityGB(env, v);
      if n.Some? && PassesAsInteger(n.value) then Good(Num(n.value)) else Invalid
    case Number =>
      var n := AsNumber(env, v);
      if n.Some? && NotNegative(n.value) then Good(Num(n.value)) else Invalid
    case Boolean => if v.Bool? then Good(v) else Invalid
    case StructuredJson => if v.Structured? then Good(v) else Invalid
    case Unsupported => Invalid
  }

  predicate NonBlank(v: Value) {
    v.Text? && TrimSpace(v.s) != ""
  }

  function BoundedText(v: Value): Normal {
    if NonBlank(v) && |TrimSpace(v.s)| <= 512 then Good(Text(TrimSpace(v.s))) else Invalid
  }

  /** json.Marshal refuses numbers that are not finite, and the comparison then sees no bytes at all. */
  function Marshalled(v: Value): Option<Value> {
    if v.Num? && !v.n.Finite? then None else Some(v)
  }

  predicate SameValue(a: Value, b: Value) {
    Marshalled(a) == Marshalled(b)
  }

  // ---------- confirming again ----------

  /** The snapshots are as their constructors leave them. */
  ghost predicate SnapshotOk(env: Env) {
    && (env.zones.Some? ==> forall z :: z in env.zones.value ==> z.id != "" && TrimSpace(z.id) == z.id)
    && (env.images.Some? ==>
          (forall i :: i in env.images.value ==> i.id != "" && TrimSpace(i.id) == i.id)
          && (forall i, j :: 0 <= i < j < |env.images.value| ==>
            !EqualFold(env.images.value[i].id, env.images.value[j].id)))
  }

  /** A finite positive integer, which the guard of the integer codecs means but does not say. */
  predicate PositiveInteger(n: Number) {
    n.Finite? && n.r > 0.0 && n.r.Floor as real == n.r
  }

  /** What an integer codec reads in a value. */
  function Parsed(env: Env, codec: Codec, v: Value): Option<Number> {
    if codec.Capacity? then CapacityGB(env, v) else AsNumber(env, v)
  }

  /** The integer and capacity codecs accept exactly the positive integers and +Inf, so what they accept is a positive
      integer exactly when what was read is not +Inf. */
  lemma AcceptedIntegerIff(env: Env, codec: Codec, v: Value)
    requires codec.Integer? || codec.Capacity?
    ensures var n := Parsed(env, codec, v);
      && (Normalize(env, codec, v).Good? <==> n.Some? && (PositiveInteger(n.value) || n.value == Infinite(false)))
      && (Normalize(env, codec, v).Good? ==>
            && Normalize(env, codec, v).v == Num(n.value)
            && (PositiveInteger(n.value) <==> n.value != Infinite(false)))
  {
  }

  /** The failing input: the text "Inf", which the parser takes. */
  lemma InfPassesAsInteger(env: Env)
    requires env.parse("Inf") == Some(Infinite(false))
    ensures Normalize(env, Integer, Text("Inf")) == Good(Num(Infinite(false)))
    ensures Normalize(env, Capacity, Text("Inf")) == Good(Num(Infinite(false)))
  {
    assert TrimSpace("Inf") == "Inf";
  }

  lemma TrimTwice(s: string)
    ensures TrimSpace(TrimSpace(s)) == TrimSpace(s)
  {
    var a, b := TrimFacts(s, IsSpace);
  }

  lemma {:induction false} MatchNamesFacts(value: string, names: seq<string>, equal: (string, string) -> bool,
                                           seen: set<string>)
    ensures var m := MatchNames(value, names, equal, seen);
      && (forall x :: x in m <==> x in names && x != "" && equal(x, value) && x !in seen)
      && (forall i, j :: 0 <= i < j < |m| ==> m[i] != m[j])
  {
    if names != [] {
      MatchNamesFacts(value, names[1..], equal, seen);
      MatchNamesFacts(value, names[1..], equal, seen + {names[0]});
      assert names == [names[0]] + names[1..];
    }
  }

  /** One hit, and it is c, exactly when c matches and nothing else does. */
  lemma OnlyMatch(value: string, names: seq<string>, equal: (string, string) -> bool, c: string)
    ensures MatchNames(value, names, equal, {}) == [c] <==>
              (c in names && c != "" && equal(c, value)
               && forall x :: x in names && x != "" && equal(x, value) ==> x == c)
  {
    MatchNamesFacts(value, names, equal, {});
    var m := MatchNames(value, names, equal, {});
    assert |m| > 1 ==> m[0] in m && m[1] in m && m[0] != m[1];
    assert m == [c] ==> c in m && forall x :: x in m ==> x == c;
    assert c in m && |m| <= 1 ==> m == [c];
  }

  /** Which names a tier may return. */
  predicate Matches(names: seq<string>, equal: (string, string) -> bool, value: string, x: string) {
    x in names && x != "" && equal(x, value)
  }

  ghost predicate OnlyOne(names: seq<string>, equal: (string, string) -> bool, value: string, c: string) {
    Matches(names, equal, value, c) && forall x :: Matches(names, equal, value, x) ==> x == c
  }

  lemma {:induction false} MatchedIff(value: string, names: seq<string>, equal: (string, string) -> bool, x: string)
    ensures x in MatchNames(value, names, equal, {}) <==> Matches(names, equal, value, x)
  {
    MatchNamesFacts(value, names, equal, {});
    assert x !in {};
  }

  lemma {:induction false} TierFacts(value: string, names: seq<string>, equal: (string, string) -> bool)
    ensures var m := MatchNames(value, names, equal, {});
      && (|m| == 0 <==> forall x :: !Matches(names, equal, value, x))
      && (|m| == 1 <==> exists c :: OnlyOne(names, equal, value, c))
      && (forall c :: m == [c] <==> OnlyOne(names, equal, value, c))
      && (forall x :: x in m <==> Matches(names, equal, value, x))
  {
    var m := MatchNames(value, names, equal, {});
    MatchNamesFacts(value, names, equal, {});
    NobodyIn(m);
    forall x ensures x in m <==> Matches(names, equal, value, x) { MatchedIff(value, names, equal, x); }
    forall c ensures OnlyOne(names, equal, value, c) <==> c in m && forall x :: x in m ==> x == c {}
    forall c ensures m == [c] <==> OnlyOne(names, equal, value, c) { OnlyMatch(value, names, equal, c); }
    assert |m| == 1 ==> m == [m[0]];
  }

  lemma SelfFold(v: string)
    ensures EqualFold(v, v)
  {
  }

  /** A machine type resolves to a listed name that is the value itself; or, when none is, the only one that differs in
      case alone; or, when there is none of those either, the only one that differs in case and separators alone. */
  lemma MachineTypeIsExact(raw: string, names: seq<string>, c: string)
    ensures CanonicalMachineType(raw, Some(names)) == Resolved(c) <==>
      var v := TrimSpace(raw);
      && v != ""
      && (|| (c == v && v in names)
          || (v !in names && OnlyOne(names, SameFold(), v, c))
          || ((forall x :: !Matches(names, SameFold(), v, x)) && OnlyOne(names, SameMachine(), v, c)))
  {
    var v := TrimSpace(raw);
    hide MatchNames, FoldMachineType, EqualFold;
    TierFacts(v, names, SameText());
    TierFacts(v, names, SameFold());
    TierFacts(v, names, SameMachine());
    SelfFold(v);
    assert v != "" ==> (v in names <==> OnlyOne(names, SameText(), v, v));
  }

  lemma NobodyIn(m: seq<string>)
    ensures m == [] <==> forall x :: x !in m
  {
    assert m != [] ==> m[0] in m;
  }

  lemma {:induction false} UpperKeepsTrimming(s: string)
    ensures TrimSpace(Upper(s)) == Upper(TrimSpace(s))
  {
    var u := Upper(s);
    var a := TrimLeftFacts(s, IsSpace);
    UpperLeft(s);
    var t := TrimLeft(s, IsSpace);
    UpperRight(t);
  }

  lemma UpperKeepsSpace(c: char)
    ensures IsSpace(UpChar(c)) <==> IsSpace(c)
  {
  }

  lemma {:induction false} UpperLeft(s: string)
    ensures TrimLeft(Upper(s), IsSpace) == Upper(TrimLeft(s, IsSpace))
  {
    hide IsSpace, UpChar, Upper;
    if s != [] { UpperKeepsSpace(s[0]); }
    if s != [] && IsSpace(s[0]) {
      UpperLeft(s[1..]);
      assert Upper(s)[1..] == Upper(s[1..]);
    }
  }

  lemma {:induction false} UpperRight(s: string)
    ensures TrimRight(Upper(s), IsSpace) == Upper(TrimRight(s, IsSpace))
  {
    hide IsSpace, UpChar, Upper;
    if s != [] { UpperKeepsSpace(s[|s| - 1]); }
    if s != [] && IsSpace(s[|s| - 1]) {
      UpperRight(s[..|s| - 1]);
      var u := Upper(s);
      assert u[..|s| - 1] == Upper(s[..|s| - 1]);
      assert TrimRight(u, IsSpace) == TrimRight(u[..|s| - 1], IsSpace);
    }
  }

  lemma {:induction false} UpperDrops(s: string)
    ensures DropSeparators(Upper(s)) == Upper(DropSeparators(s))
  {
    if s != [] { UpperDrops(s[1..]); }
  }

  /** Names that differ in case only fold together. */
  lemma FoldIgnoresCase(a: string, b: string)
    requires EqualFold(a, b)
    ensures FoldMachineType(a) == FoldMachineType(b)
  {
    UpperKeepsTrimming(a);
    UpperKeepsTrimming(b);
    UpperDrops(TrimSpace(a));
    UpperDrops(TrimSpace(b));
  }

  /** A name equal but for case to a trimmed one is trimmed itself. */
  lemma EqualFoldTrimmed(a: string, v: string)
    requires EqualFold(a, v) && TrimSpace(v) == v
    ensures |a| == |v| && TrimSpace(a) == a
  {
    UpperKeepsTrimming(a);
    UpperKeepsTrimming(v);
    var i, j := TrimFacts(a, IsSpace);
    assert |Upper(TrimSpace(a))| == |Upper(a)|;
  }

  lemma MachineAgainExact(c: string, catalog: Option<seq<string>>)
    requires catalog.Some? && c in catalog.value && c != "" && TrimSpace(c) == c
    ensures CanonicalMachineType(c, catalog) == Resolved(c)
  {
    OnlyMatch(c, catalog.value, SameText(), c);
  }

  /** Only format is forgiven: what it resolves to, and every candidate it offers, is listed and has the same letters
      and digits as the value; and it is unknown exactly when no listed name has. */
  lemma MachineTypeKeepsTheProduct(raw: string, names: seq<string>)
    requires TrimSpace(raw) != ""
    ensures var m, v := CanonicalMachineType(raw, Some(names)), TrimSpace(raw);
      && (m.Resolved? ==> Matches(names, SameMachine(), v, m.canonical))
      && (m.Several? ==> |m.candidates| > 1 && forall x :: x in m.candidates ==> Matches(names, SameMachine(), v, x))
      && (m.Unknown? <==> forall x :: !Matches(names, SameMachine(), v, x))
  {
    var v := TrimSpace(raw);
    TierFacts(v, names, SameText());
    TierFacts(v, names, SameFold());
    TierFacts(v, names, SameMachine());
    forall x | Matches(names, SameFold(), v, x) ensures Matches(names, SameMachine(), v, x) { FoldIgnoresCase(x, v); }
    var exact := MatchNames(v, names, SameText(), {});
    assert |exact| == 1 ==> exact[0] in exact && Matches(names, SameText(), v, exact[0]);
    hide MatchNames, FoldMachineType, EqualFold;
    var m := CanonicalMachineType(raw, Some(names));
    var folded, loose := MatchNames(v, names, SameFold(), {}), MatchNames(v, names, SameMachine(), {});
    assert |folded| == 1 ==> folded[0] in folded;
    assert |loose| == 1 ==> loose[0] in loose;
  }

  /** The third tier: nothing matched but for case, and c alone matched but for separators. */
  lemma MachineAgainFolded(v: string, c: string, names: seq<string>)
    requires MatchNames(v, names, SameFold(), {}) == [] && MatchNames(v, names, SameMachine(), {}) == [c]
    requires TrimSpace(c) != ""
    ensures CanonicalMachineType(c, Some(names)) == Resolved(c)
  {
    var w := TrimSpace(c);
    OnlyMatch(v, names, SameMachine(), c);
    TrimTwice(c);
    assert FoldMachineType(w) == FoldMachineType(v);
    if w == c {
      MachineAgainExact(c, Some(names));
    } else {
      MatchNamesFacts(w, names, SameText(), {});
      MatchNamesFacts(w, names, SameFold(), {});
      forall x | x in names && x != "" && EqualFold(x, w) ensures x == c && |x| == |w| {
        FoldIgnoresCase(x, w);
        assert SameMachine()(x, v);
        EqualFoldTrimmed(x, w);
      }
      var a, b := TrimFacts(c, IsSpace);
      assert |w| < |c|;
      var fold := MatchNames(w, names, SameFold(), {});
      NobodyIn(fold);
      assert forall x :: x in fold ==> x == c && |x| == |w|;
      var exact := MatchNames(w, names, SameText(), {});
      NobodyIn(exact);
      assert forall x :: x in exact ==> x == w && EqualFold(x, w);
      OnlyMatch(w, names, SameMachine(), c);
    }
  }

  /** A resolved machine type resolves to itself, unless its catalog name is nothing but blanks. */
  lemma MachineAgain(raw: string, c: string, catalog: Option<seq<string>>)
    requires CanonicalMachineType(raw, catalog) == Resolved(c)
    ensures CanonicalMachineType(c, catalog) == Resolved(c) <==> TrimSpace(c) != ""
  {
    var v, names := TrimSpace(raw), catalog.value;
    TrimTwice(raw);
    var exact := MatchNames(v, names, SameText(), {});
    MatchNamesFacts(v, names, SameText(), {});
    MatchNamesFacts(v, names, SameFold(), {});
    var folded := MatchNames(v, names, SameFold(), {});
    if |exact| == 1 {
      assert exact[0] in exact;
      MachineAgainExact(c, catalog);
    } else if |folded| > 0 {
      assert folded[0] in folded;
      EqualFoldTrimmed(c, v);
      MachineAgainExact(c, catalog);
    } else if TrimSpace(c) != "" {
      assert MatchNames(v, names, SameMachine(), {}) == [c];
      MachineAgainFolded(v, c, names);
    }
  }

  /** A catalog holding a blank name: "-" folds to it, and the name itself is then refused. */
  lemma BlankMachineName()
    ensures CanonicalMachineType("-", Some(["  "])) == Resolved("  ")
    ensures CanonicalMachineType("  ", Some(["  "])) == Unknown
  {
    assert TrimSpace("-") == "-";
    assert TrimLeft("  ", IsSpace) == "" by { assert "  "[1..] == " " && " "[1..] == ""; }
    assert Upper("-") == "-" by { assert UpChar('-') == '-'; }
    assert |Upper("  ")| == 2;
    assert DropSeparators("-") == "" by { assert "-"[1..] == ""; }
    assert DropSeparators("") == "";
    assert FoldMachineType("-") == "" && FoldMachineType("  ") == "";
    var n := ["  "];
    assert n[1..] == [];
    assert MatchNames("-", n, SameText(), {}) == [];
    assert MatchNames("-", n, SameFold(), {}) == [];
    assert MatchNames("-", n, SameMachine(), {}) == ["  "];
  }

  lemma {:induction false} ZoneHitsAreIds(value: string, zones: seq<ZoneRow>, seen: set<string>)
    ensures forall x :: x in ZoneHits(value, zones, seen) ==> exists i :: 0 <= i < |zones| && zones[i].id == x
  {
    if zones != [] {
      ZoneHitsAreIds(value, zones[1..], seen);
      ZoneHitsAreIds(value, zones[1..], seen + {zones[0].id});
      assert forall i :: 0 <= i < |zones| - 1 ==> zones[1..][i] == zones[i + 1];
    }
  }

  predicate ZoneNamed(zones: seq<ZoneRow>, value: string, id: string) {
    exists i :: 0 <= i < |zones| && zones[i].id == id
                && (EqualFold(id, value) || EqualFold(if zones[i].title != "" then zones[i].title else id, value))
  }

  lemma {:induction false} ZoneHitsFacts(value: string, zones: seq<ZoneRow>, seen: set<string>)
    ensures var h := ZoneHits(value, zones, seen);
      && (forall x :: x in h <==> x !in seen && ZoneNamed(zones, value, x))
      && (forall i, j :: 0 <= i < j < |h| ==> h[i] != h[j])
  {
    hide EqualFold;
    if zones != [] {
      var z, rest := zones[0], zones[1..];
      ZoneHitsFacts(value, rest, seen);
      ZoneHitsFacts(value, rest, seen + {z.id});
      forall x ensures ZoneNamed(zones, value, x) <==> ZoneNamed([z], value, x) || ZoneNamed(rest, value, x) {
        ZoneNamedFirst(zones, value, x);
      }
      assert forall x :: ZoneNamed([z], value, x) <==> x == z.id && ZoneNamed([z], value, z.id);
      assert ZoneNamed([z], value, z.id) <==>
        EqualFold(z.id, value) || EqualFold(if z.title != "" then z.title else z.id, value) by { assert [z][0] == z; }
    }
  }

  lemma ZoneNamedFirst(zones: seq<ZoneRow>, value: string, x: string)
    requires zones != []
    ensures ZoneNamed(zones, value, x) <==> ZoneNamed([zones[0]], value, x) || ZoneNamed(zones[1..], value, x)
  {
    hide EqualFold;
    assert [zones[0]][0] == zones[0];
    assert forall i :: 0 <= i < |zones| - 1 ==> zones[1..][i] == zones[i + 1];
    assert forall i :: 0 < i < |zones| ==> zones[i] == zones[1..][i - 1];
  }

  /** A zone resolves to the id that is the value itself, or else to the only id that it names, by id or by title, in
      another case. */
  lemma ZoneIsExact(raw: string, zones: seq<ZoneRow>, c: string)
    ensures CanonicalZone(raw, Some(zones)) == Resolved(c) <==>
      var v := TrimSpace(raw);
      && v != ""
      && (|| (c == v && exists i :: 0 <= i < |zones| && zones[i].id == v)
          || ((forall i :: 0 <= i < |zones| ==> zones[i].id != v)
              && ZoneNamed(zones, v, c) && forall x :: ZoneNamed(zones, v, x) ==> x == c))
  {
    hide ZoneNamed, EqualFold, ZoneHits;
    var v := TrimSpace(raw);
    ZoneHitsFacts(v, zones, {});
    var h := ZoneHits(v, zones, {});
    NobodyIn(h);
    assert |h| > 1 ==> h[0] in h && h[1] in h && h[0] != h[1];
    assert |h| == 1 ==> h == [h[0]] && h[0] in h;
  }

  lemma ZoneAgain(env: Env, raw: string, c: string)
    requires SnapshotOk(env) && CanonicalZone(raw, env.zones) == Resolved(c)
    ensures TrimSpace(c) == c != "" && CanonicalZone(c, env.zones) == Resolved(c)
  {
    ZoneHitsAreIds(TrimSpace(raw), env.zones.value, {});
    var hits := ZoneHits(TrimSpace(raw), env.zones.value, {});
    assert |hits| == 1 ==> hits[0] in hits;
    var i :| 0 <= i < |env.zones.value| && env.zones.value[i].id == c;
    assert env.zones.value[i] in env.zones.value;
  }

  lemma ResolvedMachineIsListed(raw: string, c: string, catalog: Option<seq<string>>)
    requires CanonicalMachineType(raw, catalog) == Resolved(c)
    ensures catalog.Some? && c in catalog.value
  {
    MachineTypeIsExact(raw, catalog.value, c);
  }

  lemma ResolvedZoneIsListed(raw: string, c: string, catalog: Option<seq<ZoneRow>>)
    requires CanonicalZone(raw, catalog) == Resolved(c)
    ensures catalog.Some? && exists z :: z in catalog.value && z.id == c
  {
    hide EqualFold;
    ZoneIsExact(raw, catalog.value, c);
    var i :| 0 <= i < |catalog.value| && catalog.value[i].id == c;
    assert catalog.value[i] in catalog.value;
  }

  lemma ResolvedImageIsListed(raw: string, c: string, catalog: Option<seq<ImageRow>>)
    requires CanonicalImage(raw, catalog) == Resolved(c)
    ensures catalog.Some? && exists i :: i in catalog.value && i.id == c && i.usable
  {
    FoundImageIsListed(TrimSpace(raw), catalog.value, c);
  }

  lemma {:induction false} FoundImageIsListed(value: string, images: seq<ImageRow>, c: string)
    requires FindImage(value, images) == Resolved(c)
    ensures exists i :: i in images && i.id == c && i.usable
  {
    if !EqualFold(images[0].id, value) {
      FoundImageIsListed(value, images[1..], c);
      var i :| i in images[1..] && i.id == c && i.usable;
      assert i in images;
    } else {
      assert images[0] in images;
    }
  }

  lemma {:induction false} FindImageAgain(value: string, images: seq<ImageRow>, c: string)
    requires FindImage(value, images) == Resolved(c)
    requires forall i, j :: 0 <= i < j < |images| ==> !EqualFold(images[i].id, images[j].id)
    ensures exists i :: 0 <= i < |images| && images[i].id == c && images[i].usable && EqualFold(c, value)
    ensures FindImage(c, images) == Resolved(c)
  {
    var rest := images[1..];
    if !EqualFold(images[0].id, value) {
      assert forall i :: 0 <= i < |rest| ==> rest[i] == images[i + 1];
      FindImageAgain(value, rest, c);
      var i :| 0 <= i < |rest| && rest[i].id == c && rest[i].usable && EqualFold(c, value);
      assert images[i + 1].id == c;
    }
  }

  lemma ImageAgain(env: Env, raw: string, c: string)
    requires SnapshotOk(env) && CanonicalImage(raw, env.images) == Resolved(c)
    ensures TrimSpace(c) == c != "" && CanonicalImage(c, env.images) == Resolved(c)
  {
    FindImageAgain(TrimSpace(raw), env.images.value, c);
    var i :| 0 <= i < |env.images.value| && env.images.value[i].id == c;
    assert env.images.value[i] in env.images.value;
  }

  /** Normalising is a fixed point for every codec and value, but for a machine type whose catalog name is blank. */
  lemma NormalizeIsIdempotent(env: Env, codec: Codec, v: Value)
    requires SnapshotOk(env) && Normalize(env, codec, v).Good?
    ensures var c := Normalize(env, codec, v).v;
            Normalize(env, codec, c) == Good(c) <==> (codec.MachineType? ==> NonBlank(c))
  {
    if v.Text? { TrimTwice(v.s); }
    match codec {
      case MachineType =>
        var c := Normalize(env, codec, v).v.s;
        MachineAgain(TrimSpace(v.s), c, env.machineNames);
        TrimTwice(c);
        if TrimSpace(c) != "" { TrimmedArgument(c, env.machineNames); }
      case Zone => ZoneAgain(env, TrimSpace(v.s), Normalize(env, codec, v).v.s);
      case Image => ImageAgain(env, TrimSpace(v.s), Normalize(env, codec, v).v.s);
      case _ =>
    }
  }

  lemma TrimmedArgument(raw: string, catalog: Option<seq<string>>)
    ensures CanonicalMachineType(TrimSpace(raw), catalog) == CanonicalMachineType(raw, catalog)
  {
    TrimTwice(raw);
  }

  // ---------- what the words of those laws mean ----------

  /** Trimming takes all blanks off both ends and nothing else. */
  lemma TrimIsExact(s: string) returns (a: nat, b: nat)
    ensures a <= b <= |s| && TrimSpace(s) == s[a..b] && forall i :: 0 <= i < a || b <= i < |s| ==> IsSpace(s[i])
    ensures TrimSpace(s) != "" ==> !IsSpace(s[a]) && !IsSpace(s[b - 1])
    ensures TrimSpace(s) == "" <==> forall i :: 0 <= i < |s| ==> IsSpace(s[i])
  {
    a, b := TrimFacts(s, IsSpace);
  }

  lemma {:induction false} DropConcat(a: string, b: string)
    ensures DropSeparators(a + b) == DropSeparators(a) + DropSeparators(b)
  {
    hide DropSeparators, IsSeparator;
    if a == [] {
      assert a + b == b && DropSeparators(a) == [] by { DropNothing(); }
    } else {
      var c, t := a[0], a[1..];
      assert a == [c] + t && a + b == [c] + (t + b);
      DropFirst(c, t);
      DropFirst(c, t + b);
      DropConcat(t, b);
      Associate([c], DropSeparators(t), DropSeparators(b));
    }
  }

  lemma DropNothing()
    ensures DropSeparators([]) == []
  {
  }

  lemma DropFirst(c: char, s: string)
    ensures DropSeparators([c] + s) == if IsSeparator(c) then DropSeparators(s) else [c] + DropSeparators(s)
  {
    assert ([c] + s)[1..] == s;
  }

  lemma Associate(a: string, b: string, c: string)
    ensures a + b + c == a + (b + c)
  {
  }

  /** Folding drops the spaces, hyphens and underscores inside a name, and nothing else. */
  lemma SeparatorsAreDropped(a: string, c: char, b: string)
    ensures DropSeparators(a + [c] + b) ==
      DropSeparators(a) + (if c == ' ' || c == '-' || c == '_' then [] else [c]) + DropSeparators(b)
  {
    assert [c][1..] == [] && DropSeparators([]) == [];
    assert DropSeparators([c]) == if c == ' ' || c == '-' || c == '_' then [] else [c];
    hide DropSeparators;
    DropConcat(a + [c], b);
    DropConcat(a, [c]);
  }

  /** Candidates come in catalog order: one more name is offered last, if it matches and was not offered before. */
  lemma {:induction false} MatchesInOrder(value: string, names: seq<string>, x: string,
                                          equal: (string, string) -> bool, seen: set<string>)
    ensures MatchNames(value, names + [x], equal, seen)
         == MatchNames(value, names, equal, seen)
            + (if x != "" && equal(x, value) && x !in seen && x !in names then [x] else [])
  {
    if names == [] {
      assert [] + [x] == [x] && [x][1..] == [];
    } else {
      var n, rest := names[0], names[1..];
      assert (names + [x])[1..] == rest + [x] && (names + [x])[0] == n;
      assert names == [n] + rest;
      MatchesInOrder(value, rest, x, equal,
                     if n == "" || !equal(n, value) || n in seen then seen else seen + {n});
    }
  }

  /** An image resolves to c exactly if the first row whose id is the value but for case is usable and has the id c;
      it is unknown otherwise, and unavailable exactly without a catalog. */
  lemma ImageIsExact(raw: string, images: seq<ImageRow>, c: string)
    ensures CanonicalImage(raw, None) == Unavailable
    ensures CanonicalImage(raw, Some(images)).Resolved? || CanonicalImage(raw, Some(images)).Unknown?
    ensures CanonicalImage(raw, Some(images)) == Resolved(c) <==>
      var v := TrimSpace(raw);
      && v != ""
      && exists i :: 0 <= i < |images| && EqualFold(images[i].id, v) && images[i].usable && images[i].id == c
                     && forall j :: 0 <= j < i ==> !EqualFold(images[j].id, v)
  {
    hide EqualFold;
    FoundImageIff(TrimSpace(raw), images, c);
  }

  lemma {:induction false} FoundImageIff(v: string, images: seq<ImageRow>, c: string)
    ensures FindImage(v, images).Resolved? || FindImage(v, images).Unknown?
    ensures FindImage(v, images) == Resolved(c) <==> exists i :: FirstImage(v, images, i) && images[i].id == c
  {
    hide EqualFold;
    if images != [] {
      var first, rest := images[0], images[1..];
      assert forall i :: 0 <= i < |rest| ==> rest[i] == images[i + 1];
      FoundImageIff(v, rest, c);
      if i :| FirstImage(v, rest, i) && rest[i].id == c && !EqualFold(first.id, v) {
        assert FirstImage(v, images, i + 1);
      }
      if i :| FirstImage(v, images, i) && images[i].id == c && i > 0 {
        assert FirstImage(v, rest, i - 1);
      }
      assert EqualFold(first.id, v) && first.usable ==> FirstImage(v, images, 0);
    }
  }

  predicate FirstImage(v: string, images: seq<ImageRow>, i: int) {
    && 0 <= i < |images| && EqualFold(images[i].id, v) && images[i].usable
    && forall j :: 0 <= j < i ==> !EqualFold(images[j].id, v)
  }

  /** The text codecs give the trimmed text, of at most 512 characters; a resource id has at most 128, none of them
      blank. */
  lemma TextIsExact(env: Env, codec: Codec, v: Value, t: string)
    requires codec.Time? || codec.ConstrainedText? || codec.SensitiveText? || codec.ResourceRef?
    ensures Normalize(env, codec, v) == Good(Text(t)) <==>
      && v.Text? && t == TrimSpace(v.s) && 1 <= |t|
      && if codec.ResourceRef? then |t| <= 128 && forall i :: 0 <= i < |t| ==> !IsSpace(t[i]) else |t| <= 512
    ensures Normalize(env, codec, v).Good? ==> Normalize(env, codec, v).v.Text?
    ensures !Normalize(env, codec, v).Good? ==> Normalize(env, codec, v).Invalid?
  {
  }

  /** The units of a capacity, in upper case. */
  predicate IsUnit(unit: string) {
    Upper(unit) == "GIB" || Upper(unit) == "GB" || Upper(unit) == "G"
  }

  /** A text that is no number and ends in a unit, in any case and with any blanks in between, is read without it. */
  lemma CapacityDropsUnit(env: Env, x: string, unit: string)
    requires IsUnit(unit) && env.parse(TrimSpace(x + unit)).None?
    ensures CapacityGB(env, Text(x + unit)) == env.parse(TrimSpace(Upper(x)))
  {
    var u, up := Upper(unit), Upper(x + unit);
    UpperConcat(x, unit);
    UnitsAreLetters(u);
    TrimBeforeUnit(Upper(x), u);
    var t := TrimSpace(up);
    var front := t[..|t| - |u|];
    assert t == front + u;
    hide Upper, TrimSpace, Trim;
    BySuffix(env, x + unit, front, u);
  }

  lemma BySuffix(env: Env, s: string, front: string, u: string)
    requires u == "GIB" || u == "GB" || u == "G"
    requires TrimSpace(Upper(s)) == front + u && env.parse(TrimSpace(s)).None?
    ensures CapacityGB(env, Text(s)) == env.parse(TrimSpace(front))
  {
    UnitIsCut(front, u);
    hide Upper, TrimSpace, CutUnit;
  }

  lemma UnitsAreLetters(u: string)
    requires u == "GIB" || u == "GB" || u == "G"
    ensures u != "" && forall i :: 0 <= i < |u| ==> !IsSpace(u[i])
  {
  }

  lemma UnitIsCut(x: string, u: string)
    requires u == "GIB" || u == "GB" || u == "G"
    ensures CutUnit(x + u) == Some(x)
  {
    var t := x + u;
    assert t[|x|..] == u && t[..|x|] == x;
    assert EndsIn(t, u);
    if u == "GB" && |t| >= 3 {
      assert t[|t| - 2] == 'G';
      NotAtEnd(t, "GIB", 1);
    }
    if u == "G" {
      assert t[|t| - 1] == 'G';
      if |t| >= 2 { NotAtEnd(t, "GB", 1); }
      if |t| >= 3 { NotAtEnd(t, "GIB", 2); }
    }
  }

  lemma NotAtEnd(t: string, suffix: string, k: nat)
    requires k < |suffix| <= |t| && t[|t| - |suffix| + k] != suffix[k]
    ensures !EndsIn(t, suffix)
  {
    assert t[|t| - |suffix|..][k] == t[|t| - |suffix| + k];
  }

  lemma {:induction false} UpperConcat(a: string, b: string)
    ensures Upper(a + b) == Upper(a) + Upper(b)
  {
  }

  /** Trimming a text that ends in letters trims only its front. */
  lemma TrimBeforeUnit(x: string, u: string)
    requires u != "" && forall i :: 0 <= i < |u| ==> !IsSpace(u[i])
    ensures var t := TrimSpace(x + u);
      |t| >= |u| && t[|t| - |u|..] == u && TrimSpace(t[..|t| - |u|]) == TrimSpace(x)
  {
    LeftOfUnit(x, u);
    var l := TrimLeft(x, IsSpace);
    var t := l + u;
    assert t[|t| - 1] == u[|u| - 1];
    assert TrimRight(t, IsSpace) == t;
    assert t[..|t| - |u|] == l;
    LeftTwice(x);
  }

  lemma {:induction false} LeftOfUnit(x: string, u: string)
    requires u != "" && !IsSpace(u[0])
    ensures TrimLeft(x + u, IsSpace) == TrimLeft(x, IsSpace) + u
  {
    if x == [] {
      assert x + u == u;
    } else {
      assert (x + u)[1..] == x[1..] + u;
      LeftOfUnit(x[1..], u);
    }
  }

  lemma {:induction false} LeftTwice(x: string)
    ensures TrimLeft(TrimLeft(x, IsSpace), IsSpace) == TrimLeft(x, IsSpace)
  {
    if x != [] { LeftTwice(x[1..]); }
  }

  /** A text that is neither a number nor ends in a unit has no capacity; what is a number already keeps its value. */
  lemma CapacityNeedsUnit(env: Env, v: Value)
    ensures AsNumber(env, v).Some? ==> CapacityGB(env, v) == AsNumber(env, v)
    ensures AsNumber(env, v).None? && CapacityGB(env, v).Some? ==>
      v.Text? && exists n: nat :: n < |TrimSpace(Upper(v.s))| && IsUnit(TrimSpace(Upper(v.s))[n..])
  {
    if AsNumber(env, v).None? && v.Text? {
      var t := TrimSpace(Upper(v.s));
      UnitsAreUpper();
      if EndsIn(t, "GIB") { assert IsUnit(t[|t| - 3..]); }
      if EndsIn(t, "GB") { assert IsUnit(t[|t| - 2..]); }
      if EndsIn(t, "G") { assert IsUnit(t[|t| - 1..]); }
    }
  }

  lemma UnitsAreUpper()
    ensures IsUnit("GIB") && IsUnit("GB") && IsUnit("G")
  {
    assert Upper("GIB") == "GIB" && Upper("GB") == "GB" && Upper("G") == "G";
  }
}
