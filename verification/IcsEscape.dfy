/** Escaping of iCalendar TEXT values (routes/calendar_routes.py): six passes
    over the whole string, against section 3.3.11 of RFC 5545. */
module IcsEscape {
  import opened Options

  predicate StartsWith(s: string, p: string) {
    |p| <= |s| && s[..|p|] == p
  }

  /** `s.replace(p, r)`: from left to right, without overlaps. */
  function Replace(s: string, p: string, r: string): string
    requires p != ""
    decreases |s|
  {
    if s == "" then ""
    else if StartsWith(s, p) then r + Replace(s[|p|..], p, r)
    else [s[0]] + Replace(s[1..], p, r)
  }

  function ThreePasses(s: string): string {
    Replace(Replace(Replace(s, "\\", "\\\\"), ";", "\\;"), ",", "\\,")
  }

  function NewlinePasses(s: string): string {
    Replace(Replace(Replace(s, "\r\n", "\\n"), "\n", "\\n"), "\r", "\\n")
  }

  /** `_ics_escape`. */
  function Escape(text: Option<string>): string {
    NewlinePasses(ThreePasses(if text.Some? then text.value else ""))
  }

  // ---------------------------------------------------------------------
  // One pass from left to right
  // ---------------------------------------------------------------------

  function Structural(c: char): string {
    if c == '\\' then "\\\\" else if c == ';' then "\\;" else if c == ',' then "\\," else [c]
  }

  /** The length of the line break at the start, or 0. */
  function BreakLength(s: string): nat {
    if StartsWith(s, "\r\n") then 2 else if s != "" && (s[0] == '\n' || s[0] == '\r') then 1 else 0
  }

  /** Reads the text once: a line break becomes backslash and n, a structural
      character gets a backslash, all else is copied. */
  function Transduce(s: string): string
    decreases |s|
  {
    if s == "" then ""
    else if BreakLength(s) > 0 then "\\n" + Transduce(s[BreakLength(s)..])
    else Structural(s[0]) + Transduce(s[1..])
  }

  lemma {:induction false} ReplaceCharConcat(a: string, b: string, p: string, r: string)
    requires |p| == 1
    ensures Replace(a + b, p, r) == Replace(a, p, r) + Replace(b, p, r)
  {
    if a == "" {
      assert a + b == b;
    } else {
      var rest := a[1..];
      assert (a + b)[1..] == rest + b && (a + b)[..1] == a[..1];
      ReplaceCharConcat(rest, b, p, r);
      var (x, y) := (Replace(rest, p, r), Replace(b, p, r));
      assert r + (x + y) == (r + x) + y;
      assert [a[0]] + (x + y) == ([a[0]] + x) + y;
    }
  }

  lemma ReplaceOneChar(c: char, p: string, r: string)
    requires |p| == 1
    ensures Replace([c], p, r) == if c == p[0] then r else [c]
  {
    assert [c][1..] == "" && r + "" == r && [c] + "" == [c];
    assert [c][..1] == p <==> c == p[0];
  }

  lemma ReplaceTwoChars(c: char, d: char, p: string, r: string)
    requires |p| == 1 && c != p[0] && d != p[0]
    ensures Replace([c, d], p, r) == [c, d]
  {
    assert [c, d] == [c] + [d];
    ReplaceCharConcat([c], [d], p, r);
    ReplaceOneChar(c, p, r);
    ReplaceOneChar(d, p, r);
  }

  lemma ThreePassesOfChar(c: char)
    ensures ThreePasses([c]) == Structural(c)
  {
    ReplaceOneChar(c, "\\", "\\\\");
    if c == '\\' {
      ReplaceTwoChars('\\', '\\', ";", "\\;");
      ReplaceTwoChars('\\', '\\', ",", "\\,");
    } else {
      ReplaceOneChar(c, ";", "\\;");
      if c == ';' {
        ReplaceTwoChars('\\', ';', ",", "\\,");
      } else {
        ReplaceOneChar(c, ",", "\\,");
      }
    }
  }

  lemma ThreePassesCons(c: char, s: string)
    ensures ThreePasses([c] + s) == Structural(c) + ThreePasses(s)
  {
    var (a1, b1) := (Replace([c], "\\", "\\\\"), Replace(s, "\\", "\\\\"));
    ReplaceCharConcat([c], s, "\\", "\\\\");
    var (a2, b2) := (Replace(a1, ";", "\\;"), Replace(b1, ";", "\\;"));
    ReplaceCharConcat(a1, b1, ";", "\\;");
    ReplaceCharConcat(a2, b2, ",", "\\,");
    ThreePassesOfChar(c);
    hide Replace, Structural;
  }

  lemma ThreePassesEmpty()
    ensures ThreePasses("") == ""
  {
  }

  /** The structural passes neither make nor take away a line feed in front. */
  lemma ThreePassesKeepsFront(s: string)
    ensures ThreePasses(s) == "" <==> s == ""
    ensures s != "" ==> (ThreePasses(s)[0] == '\n' <==> s[0] == '\n')
  {
    ThreePassesEmpty();
    hide ThreePasses;
    if s != "" {
      assert s == [s[0]] + s[1..];
      ThreePassesCons(s[0], s[1..]);
    }
  }

  /** Text in front that has no carriage return passes the search for CR LF. */
  lemma {:induction false} ReplaceCrLfSkips(a: string, b: string)
    requires '\r' !in a
    ensures Replace(a + b, "\r\n", "\\n") == a + Replace(b, "\r\n", "\\n")
  {
    if a == "" {
      assert a + b == b;
    } else {
      var s := a + b;
      assert s[1..] == a[1..] + b && s[0] == a[0];
      assert |s| >= 2 ==> s[..2][0] == s[0];
      ReplaceCrLfSkips(a[1..], b);
      assert [a[0]] + (a[1..] + Replace(b, "\r\n", "\\n")) == a + Replace(b, "\r\n", "\\n");
    }
  }

  /** The two passes after that for CR LF. */
  function LastPasses(s: string): string {
    Replace(Replace(s, "\n", "\\n"), "\r", "\\n")
  }

  lemma LastPassesConcat(a: string, b: string)
    ensures LastPasses(a + b) == LastPasses(a) + LastPasses(b)
  {
    ReplaceCharConcat(a, b, "\n", "\\n");
    ReplaceCharConcat(Replace(a, "\n", "\\n"), Replace(b, "\n", "\\n"), "\r", "\\n");
  }

  lemma LastPassesOfChar(c: char)
    ensures LastPasses([c]) == if c == '\n' || c == '\r' then "\\n" else [c]
  {
    ReplaceOneChar(c, "\n", "\\n");
    ReplaceOneChar(c, "\r", "\\n");
    ReplaceTwoChars('\\', 'n', "\r", "\\n");
  }

  lemma LastPassesKeeps(c: char, d: char)
    requires c != '\n' && c != '\r' && d != '\n' && d != '\r'
    ensures LastPasses([c, d]) == [c, d]
  {
    ReplaceTwoChars(c, d, "\n", "\\n");
    ReplaceTwoChars(c, d, "\r", "\\n");
  }

  lemma LastPassesOfStructural(c: char)
    requires c != '\n' && c != '\r'
    ensures LastPasses(Structural(c)) == Structural(c)
  {
    LastPassesOfChar(c);
    LastPassesKeeps('\\', '\\');
    LastPassesKeeps('\\', ';');
    LastPassesKeeps('\\', ',');
    hide LastPasses;
  }

  /** A character other than a carriage return goes through all passes alone. */
  lemma NewlinePassesCons(c: char, s: string)
    requires c != '\r'
    ensures NewlinePasses(Structural(c) + s) == (if c == '\n' then "\\n" else Structural(c)) + NewlinePasses(s)
  {
    ReplaceCrLfSkips(Structural(c), s);
    LastPassesConcat(Structural(c), Replace(s, "\r\n", "\\n"));
    if c == '\n' {
      LastPassesOfChar(c);
    } else {
      LastPassesOfStructural(c);
    }
    hide Replace;
  }

  lemma NewlinePassesCarriage(s: string)
    requires s != "" ==> s[0] != '\n'
    ensures NewlinePasses("\r" + s) == "\\n" + NewlinePasses(s)
  {
    var t := "\r" + s;
    assert t[1..] == s && t[0] == '\r';
    assert |t| >= 2 ==> t[..2][1] == s[0];
    assert Replace(t, "\r\n", "\\n") == "\r" + Replace(s, "\r\n", "\\n");
    LastPassesConcat("\r", Replace(s, "\r\n", "\\n"));
    LastPassesOfChar('\r');
    hide Replace;
  }

  lemma NewlinePassesCrLf(s: string)
    ensures NewlinePasses("\r" + ("\n" + s)) == "\\n" + NewlinePasses(s)
  {
    var t := "\r" + ("\n" + s);
    assert t[..2] == "\r\n" && t[2..] == s;
    assert Replace(t, "\r\n", "\\n") == "\\n" + Replace(s, "\r\n", "\\n");
    LastPassesConcat("\\n", Replace(s, "\r\n", "\\n"));
    LastPassesKeeps('\\', 'n');
    hide Replace;
  }

  /** The six passes over the whole string are one pass from left to right. */
  lemma {:induction false} PassesTransduce(s: string)
    ensures NewlinePasses(ThreePasses(s)) == Transduce(s)
    decreases |s|
  {
    if s == "" {
      ThreePassesEmpty();
    } else {
      hide ThreePasses, NewlinePasses;
      var c, rest := s[0], s[1..];
      assert s == [c] + rest;
      ThreePassesCons(c, rest);
      ThreePassesKeepsFront(rest);
      PassesTransduce(rest);
      if c != '\r' {
        NewlinePassesCons(c, ThreePasses(rest));
        assert BreakLength(s) == if c == '\n' then 1 else 0;
      } else if rest != "" && rest[0] == '\n' {
        var tail := rest[1..];
        assert rest == ['\n'] + tail && s[..2] == "\r\n" && s[2..] == tail;
        ThreePassesCons('\n', tail);
        NewlinePassesCrLf(ThreePasses(tail));
        PassesTransduce(tail);
      } else {
        NewlinePassesCarriage(ThreePasses(rest));
        assert |s| >= 2 ==> s[..2][1] == rest[0];
        assert BreakLength(s) == 1;
      }
    }
  }

  lemma EscapeTransduces(text: Option<string>)
    ensures Escape(text) == if text.Some? then Transduce(text.value) else ""
  {
    PassesTransduce(if text.Some? then text.value else "");
    hide ThreePasses, NewlinePasses;
  }

  // ---------------------------------------------------------------------
  // The grammar of TEXT
  // ---------------------------------------------------------------------

  /** CONTROL of RFC 5545 section 3.1; the tab is white space. */
  predicate Control(c: char) {
    c <= '\U{08}' || '\n' <= c <= '\U{1f}' || c == '\U{7f}'
  }

  /** What may stand for itself in a TEXT value. */
  predicate Plain(c: char) {
    !Control(c) && c != '\\' && c != ';' && c != ','
  }

  /** The character an escape stands for. */
  function Meaning(c: char): Option<char> {
    if c == '\\' || c == ';' || c == ',' then Some(c)
    else if c == 'n' || c == 'N' then Some('\n')
    else None
  }

  /** The value of a TEXT by section 3.3.11, or none if it is not one; `lax`
      lets control characters other than line breaks stand for themselves. */
  function Unescape(s: string, lax: bool): Option<string>
    decreases |s|
  {
    if s == "" then Some("")
    else if s[0] == '\\' then
      if |s| < 2 || Meaning(s[1]).None? then None
      else
        match Unescape(s[2..], lax)
        case None => None
        case Some(v) => Some([Meaning(s[1]).value] + v)
    else if Plain(s[0]) || (lax && Control(s[0]) && s[0] != '\n' && s[0] != '\r') then
      match Unescape(s[1..], lax)
      case None => None
      case Some(v) => Some([s[0]] + v)
    else None
  }

  /** CR LF, CR and LF all become LF. */
  function OneBreak(s: string): string
    decreases |s|
  {
    if s == "" then ""
    else if BreakLength(s) > 0 then "\n" + OneBreak(s[BreakLength(s)..])
    else [s[0]] + OneBreak(s[1..])
  }

  predicate Clean(s: string) {
    forall i :: 0 <= i < |s| ==> Control(s[i]) ==> s[i] == '\n' || s[i] == '\r'
  }

  lemma UnescapePair(c: char, s: string, lax: bool)
    requires Meaning(c).Some?
    ensures Unescape("\\" + ([c] + s), lax) ==
            match Unescape(s, lax)
            case None => None
            case Some(v) => Some([Meaning(c).value] + v)
  {
    var t := "\\" + ([c] + s);
    assert t[0] == '\\' && t[1] == c && t[2..] == s;
  }

  lemma UnescapePlain(c: char, s: string, lax: bool)
    requires c != '\\' && c != ';' && c != ',' && c != '\n' && c != '\r'
    ensures Unescape([c] + s, lax) ==
            if Control(c) && !lax then None else
            match Unescape(s, lax)
            case None => None
            case Some(v) => Some([c] + v)
  {
    var t := [c] + s;
    assert t[0] == c && t[1..] == s;
  }

  lemma CleanConcat(a: string, b: string)
    ensures Clean(a + b) <==> Clean(a) && Clean(b)
  {
    hide Control;
    assert forall i :: 0 <= i < |a| ==> (a + b)[i] == a[i];
    assert forall i :: 0 <= i < |b| ==> (a + b)[|a| + i] == b[i];
    assert forall i :: |a| <= i < |a + b| ==> (a + b)[i] == b[i - |a|];
  }

  /** The first line break or character of a text, and the rest. */
  lemma SplitFront(s: string)
    requires s != ""
    ensures var k := if BreakLength(s) > 0 then BreakLength(s) else 1;
            && k <= |s|
            && (Clean(s) <==> Clean(s[k..]) && (BreakLength(s) > 0 || !Control(s[0])))
  {
    var k := if BreakLength(s) > 0 then BreakLength(s) else 1;
    assert s == s[..k] + s[k..];
    CleanConcat(s[..k], s[k..]);
    assert s[..k] == if k == 2 then "\r\n" else [s[0]];
  }

  /** Reading the transduced text back gives the text with its line breaks
      unified; strictly, exactly when it has no other control character. */
  lemma {:induction false} TransduceReadsBack(s: string, lax: bool)
    ensures Unescape(Transduce(s), lax) == if lax || Clean(s) then Some(OneBreak(s)) else None
    decreases |s|
  {
    hide Clean, Control, Unescape;
    if s == "" {
      ReadsEmpty(lax);
    } else {
      SplitFront(s);
      if BreakLength(s) > 0 {
        var rest := s[BreakLength(s)..];
        TransduceReadsBack(rest, lax);
        assert "\\n" + Transduce(rest) == "\\" + (['n'] + Transduce(rest));
        UnescapePair('n', Transduce(rest), lax);
      } else {
        var c, rest := s[0], s[1..];
        TransduceReadsBack(rest, lax);
        if c == '\\' || c == ';' || c == ',' {
          StructuralIsPlain(c);
          assert Structural(c) + Transduce(rest) == "\\" + ([c] + Transduce(rest));
          UnescapePair(c, Transduce(rest), lax);
        } else {
          UnescapePlain(c, Transduce(rest), lax);
        }
      }
    }
  }

  lemma ReadsEmpty(lax: bool)
    ensures Unescape("", lax) == Some("") && Clean("")
  {
  }

  lemma StructuralIsPlain(c: char)
    requires c == '\\' || c == ';' || c == ','
    ensures !Control(c)
  {
  }

  lemma {:induction false} UnescapeHasNoBreaks(s: string)
    requires Unescape(s, true).Some?
    ensures '\n' !in s && '\r' !in s
    decreases |s|
  {
    if s != "" {
      var k := if s[0] == '\\' then 2 else 1;
      UnescapeHasNoBreaks(s[k..]);
      assert s == s[..k] + s[k..];
      assert s[..k] == if k == 2 then [s[0], s[1]] else [s[0]];
    }
  }

  /** An escaped value holds no raw line break and reads as a sequence of plain
      characters and escapes, so no comma or semicolon stands unescaped; its
      value is the text with every line break as LF. */
  lemma EscapeRoundTrips(text: string)
    ensures '\n' !in Escape(Some(text)) && '\r' !in Escape(Some(text))
    ensures Unescape(Escape(Some(text)), true) == Some(OneBreak(text))
  {
    EscapeTransduces(Some(text));
    TransduceReadsBack(text, true);
    hide Escape, Transduce;
    UnescapeHasNoBreaks(Escape(Some(text)));
  }

  /** It is a TEXT value of the grammar exactly when the text has no control
      characters besides tabs and line breaks; these are not removed. */
  lemma EscapeIsText(text: string)
    ensures Unescape(Escape(Some(text)), false).Some? <==> Clean(text)
  {
    EscapeTransduces(Some(text));
    TransduceReadsBack(text, false);
    hide Escape, Transduce;
  }

  /** Two texts are escaped alike exactly when they differ in line breaks only. */
  lemma EscapeMergesOnlyBreaks(a: string, b: string)
    ensures Escape(Some(a)) == Escape(Some(b)) <==> OneBreak(a) == OneBreak(b)
  {
    EscapeRoundTrips(a);
    EscapeRoundTrips(b);
    TransduceOfOneBreak(a);
    TransduceOfOneBreak(b);
    EscapeTransduces(Some(a));
    EscapeTransduces(Some(b));
    hide Escape, Transduce, OneBreak, Unescape;
  }

  lemma {:induction false} TransduceOfOneBreak(s: string)
    ensures Transduce(OneBreak(s)) == Transduce(s)
    decreases |s|
  {
    if s == "" {
    } else if BreakLength(s) > 0 {
      var rest := s[BreakLength(s)..];
      TransduceOfOneBreak(rest);
      var t := "\n" + OneBreak(rest);
      assert t[0] == '\n' && t[1..] == OneBreak(rest);
      assert BreakLength(t) == 1;
    } else {
      TransduceOfOneBreak(s[1..]);
      var t := [s[0]] + OneBreak(s[1..]);
      assert t[0] == s[0] && t[1..] == OneBreak(s[1..]);
      assert BreakLength(t) == 0;
    }
  }
}
