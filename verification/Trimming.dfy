/** Cutting blanks off both ends of a text, whatever counts as a blank. */
module Trimming {

  function TrimLeft(s: string, blank: char -> bool): string {
    if s != [] && blank(s[0]) then TrimLeft(s[1..], blank) else s
  }

  function TrimRight(s: string, blank: char -> bool): string {
    if s != [] && blank(s[|s| - 1]) then TrimRight(s[..|s| - 1], blank) else s
  }

  function Trim(s: string, blank: char -> bool): string {
    TrimRight(TrimLeft(s, blank), blank)
  }

  lemma {:induction false} TrimLeftFacts(s: string, blank: char -> bool) returns (k: nat)
    ensures k <= |s| && TrimLeft(s, blank) == s[k..] && forall i :: 0 <= i < k ==> blank(s[i])
    ensures TrimLeft(s, blank) != [] ==> !blank(TrimLeft(s, blank)[0])
  {
    if s != [] && blank(s[0]) {
      k := TrimLeftFacts(s[1..], blank);
      k := k + 1;
      forall i | 0 <= i < k ensures blank(s[i]) { if i > 0 { assert s[i] == s[1..][i - 1]; } }
    } else {
      k := 0;
    }
  }

  lemma {:induction false} TrimRightFacts(s: string, blank: char -> bool) returns (k: nat)
    ensures k <= |s| && TrimRight(s, blank) == s[..k] && forall i :: k <= i < |s| ==> blank(s[i])
    ensures TrimRight(s, blank) != [] ==> TrimRight(s, blank)[0] == s[0] && !blank(s[k - 1])
    ensures s != [] && !blank(s[0]) ==> k > 0
  {
    if s != [] && blank(s[|s| - 1]) {
      k := TrimRightFacts(s[..|s| - 1], blank);
      assert s[..|s| - 1][..k] == s[..k];
    } else {
      k := |s|;
      assert s[..k] == s;
    }
  }

  /** The trimmed text is the middle part between two runs of blanks, and trimming it again keeps it. */
  lemma TrimFacts(s: string, blank: char -> bool) returns (a: nat, b: nat)
    ensures a <= b <= |s| && Trim(s, blank) == s[a..b]
    ensures forall i :: 0 <= i < a || b <= i < |s| ==> blank(s[i])
    ensures Trim(s, blank) != [] ==> !blank(s[a]) && !blank(s[b - 1])
    ensures Trim(Trim(s, blank), blank) == Trim(s, blank)
  {
    a := TrimLeftFacts(s, blank);
    var t := TrimLeft(s, blank);
    var k := TrimRightFacts(t, blank);
    b := a + k;
    assert s[a..][..k] == s[a..b];
    forall i | b <= i < |s| ensures blank(s[i]) { assert s[i] == t[i - a]; }
    var u := Trim(s, blank);
    if u != [] { assert u[|u| - 1] == t[k - 1] && TrimLeft(u, blank) == u && TrimRight(u, blank) == u; }
  }
}
