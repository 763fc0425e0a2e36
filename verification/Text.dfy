/** Python string operations that several components share: `strip`, `lower`
    (ASCII letters only), `find` and membership of a substring. */
module Text {

  /** The characters `str.isspace` accepts, and so `str.strip` removes. */
  predicate IsSpace(c: char) {
    || '\t' <= c <= '\r'
    || '\U{1c}' <= c <= ' '
    || c == '\U{85}' || c == '\U{a0}' || c == '\U{1680}'
    || '\U{2000}' <= c <= '\U{200a}'
    || c == '\U{2028}' || c == '\U{2029}' || c == '\U{202f}' || c == '\U{205f}' || c == '\U{3000}'
  }

  predicate AllSpace(s: string) {
    forall i :: 0 <= i < |s| ==> IsSpace(s[i])
  }

  /** No white space at either end. */
  predicate Stripped(s: string) {
    s == "" || (!IsSpace(s[0]) && !IsSpace(s[|s| - 1]))
  }

  function StripLeft(s: string): string {
    if s != "" && IsSpace(s[0]) then StripLeft(s[1..]) else s
  }

  function StripRight(s: string): string {
    if s != "" && IsSpace(s[|s| - 1]) then StripRight(s[..|s| - 1]) else s
  }

  function Strip(s: string): string {
    StripRight(StripLeft(s))
  }

  lemma {:induction false} StripLeftShape(s: string)
    ensures var r := StripLeft(s);
            && |r| <= |s| && r == s[|s| - |r|..] && AllSpace(s[..|s| - |r|])
            && (r == "" || !IsSpace(r[0]))
  {
    if s != "" && IsSpace(s[0]) {
      StripLeftShape(s[1..]);
      var r := StripLeft(s);
      assert s[..|s| - |r|] == [s[0]] + s[1..][..|s| - 1 - |r|];
    }
  }

  lemma {:induction false} StripRightShape(s: string)
    ensures var r := StripRight(s);
            && |r| <= |s| && r == s[..|r|] && AllSpace(s[|r|..])
            && (r == "" || !IsSpace(r[|r| - 1]))
  {
    if s != "" && IsSpace(s[|s| - 1]) {
      StripRightShape(s[..|s| - 1]);
      var r := StripRight(s);
      assert s[|r|..] == s[..|s| - 1][|r|..] + [s[|s| - 1]];
    }
  }

  /** `strip` removes exactly the white space at the two ends. */
  lemma StripShape(s: string)
    ensures Stripped(Strip(s))
    ensures Stripped(s) ==> Strip(s) == s
    ensures exists a, b :: AllSpace(a) && AllSpace(b) && s == a + Strip(s) + b
  {
    hide IsSpace, StripLeft, StripRight, AllSpace;
    var l := StripLeft(s);
    StripLeftShape(s);
    StripRightShape(l);
    var r := StripRight(l);
    var a, b := s[..|s| - |l|], l[|r|..];
    assert s == a + (r + b) == a + r + b;
    assert Strip(s) == r;
    if r != "" {
      assert r[0] == l[0];
    }
    if Stripped(s) {
      StrippedStays(s);
    }
  }

  lemma StrippedStays(s: string)
    requires Stripped(s)
    ensures Strip(s) == s
  {
  }

  /** Stripping text that starts with a block ending in ink keeps the block. */
  lemma StripKeepsPrefix(s: string, block: string)
    requires block != "" && Stripped(block)
    requires |block| <= |s| && s[..|block|] == block
    ensures |block| <= |Strip(s)| && Strip(s)[..|block|] == block
    ensures |Strip(s)| <= |s| && Strip(s) == s[..|Strip(s)|]
  {
    assert s[0] == block[0];
    StripRightShape(s);
    var r := StripRight(s);
    assert s[|block| - 1] == block[|block| - 1];
    assert forall i :: |r| <= i < |s| ==> s[i] == s[|r|..][i - |r|];
  }

  function LowerChar(c: char): char {
    if 'A' <= c <= 'Z' then (c as int + 32) as char else c
  }

  function Lower(s: string): (r: string)
    ensures |r| == |s| && forall i :: 0 <= i < |s| ==> r[i] == LowerChar(s[i])
  {
    seq(|s|, i requires 0 <= i < |s| => LowerChar(s[i]))
  }

  /** `.strip().lower()`: the form in which usernames are compared and stored. */
  function Normalize(s: string): string {
    Lower(Strip(s))
  }

  lemma LowerKeepsSpace(c: char)
    ensures IsSpace(LowerChar(c)) == IsSpace(c) && LowerChar(LowerChar(c)) == LowerChar(c)
  {
  }

  lemma LowerStripped(s: string)
    requires Stripped(s)
    ensures Stripped(Lower(s)) && Lower(Lower(s)) == Lower(s)
  {
    hide IsSpace, LowerChar;
    forall i | 0 <= i < |s| { LowerKeepsSpace(s[i]); }
  }

  lemma NormalizeIdempotent(s: string)
    ensures Normalize(Normalize(s)) == Normalize(s)
  {
    hide IsSpace, Strip, Lower;
    StripShape(s);
    LowerStripped(Strip(s));
    StripShape(Lower(Strip(s)));
  }

  /** `p` stands in `s` at index `i`. */
  predicate OccursAt(s: string, p: string, i: int) {
    0 <= i && i + |p| <= |s| && s[i..i + |p|] == p
  }

  /** `p in s`. */
  ghost predicate Contains(s: string, p: string) {
    exists i :: OccursAt(s, p, i)
  }

  function FindFrom(s: string, p: string, i: nat): (r: int)
    requires i <= |s|
    ensures r == -1 || (i <= r && r + |p| <= |s|)
    decreases |s| - i
  {
    if OccursAt(s, p, i) then i
    else if i == |s| then -1
    else FindFrom(s, p, i + 1)
  }

  /** `s.find(p)`: the least index at which `p` occurs, or -1. */
  function Find(s: string, p: string): (r: int)
    ensures r == -1 || (0 <= r && r + |p| <= |s|)
  {
    FindFrom(s, p, 0)
  }

  lemma {:induction false} FindFromFirst(s: string, p: string, i: nat)
    requires i <= |s|
    ensures var r := FindFrom(s, p, i);
            if r == -1 then forall j :: i <= j ==> !OccursAt(s, p, j)
            else OccursAt(s, p, r) && forall j :: i <= j < r ==> !OccursAt(s, p, j)
    decreases |s| - i
  {
    if !OccursAt(s, p, i) && i < |s| {
      FindFromFirst(s, p, i + 1);
    }
  }

  lemma FindFirst(s: string, p: string)
    ensures Find(s, p) == -1 <==> !Contains(s, p)
    ensures Find(s, p) != -1 ==> OccursAt(s, p, Find(s, p)) && forall j :: 0 <= j < Find(s, p) ==> !OccursAt(s, p, j)
  {
    FindFromFirst(s, p, 0);
  }

  /** A first occurrence is the value of `find`. */
  lemma FindIs(s: string, p: string, i: int)
    requires OccursAt(s, p, i)
    requires forall j :: 0 <= j < i ==> !OccursAt(s, p, j)
    ensures Find(s, p) == i
  {
    FindFirst(s, p);
  }

  /** `str(n)`. */
  function Decimal(n: nat): string {
    (if n < 10 then "" else Decimal(n / 10)) + [('0' as int + n % 10) as char]
  }

  lemma {:induction false} DecimalIsInjective(m: nat, n: nat)
    requires Decimal(m) == Decimal(n)
    ensures m == n
  {
    var (a, b) := (Decimal(m), Decimal(n));
    assert a[|a| - 1] == b[|b| - 1];
    assert a[..|a| - 1] == b[..|b| - 1];
    if m >= 10 && n >= 10 {
      DecimalIsInjective(m / 10, n / 10);
    } else {
      DecimalIsNotEmpty(m / 10);
      DecimalIsNotEmpty(n / 10);
    }
  }

  lemma DecimalIsNotEmpty(n: nat)
    ensures Decimal(n) != ""
  {
  }
}
