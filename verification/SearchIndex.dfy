/** The text that a migration puts into the index for a message with media
    (src/attachment_refs.py), and when media still reaches the index. The JSON
    parser is an argument: it gives the blocks of a text that is a list. */
module SearchIndex {
  import opened Options
  import opened Text
  import opened JoinedText
  import opened MessageStore

  // ---------------------------------------------------------------------
  // Data URLs
  // ---------------------------------------------------------------------

  /** Letters regardless of case; a long s also counts as an s. */
  predicate SameLetters(s: string, p: string) {
    |p| <= |s| && forall i :: 0 <= i < |p| ==> LowerChar(s[i]) == p[i] || (p[i] == 's' && s[i] == '\U{17f}')
  }

  predicate TypeChar(c: char) {
    c != ';' && c != ',' && c != '"' && c != '\'' && !IsSpace(c)
  }

  predicate DataChar(c: char) {
    || 'A' <= c <= 'Z' || 'a' <= c <= 'z' || '0' <= c <= '9' || c == '+' || c == '/' || c == '='
    || c == '\U{130}' || c == '\U{131}' || c == '\U{17f}' || c == '\U{212a}'
  }

  /** The length of the longest prefix of such characters. */
  function TypeRun(s: string): (n: nat)
    ensures n <= |s|
  {
    if s != "" && TypeChar(s[0]) then 1 + TypeRun(s[1..]) else 0
  }

  function DataRun(s: string): (n: nat)
    ensures n <= |s|
  {
    if s != "" && DataChar(s[0]) then 1 + DataRun(s[1..]) else 0
  }

  /** The length of the data URL at the start, or 0. */
  function UrlLength(s: string): (n: nat)
    ensures n <= |s| && (n > 0 ==> SameLetters(s, "data:"))
  {
    if !SameLetters(s, "data:") then 0 else
    var k := TypeRun(s[5..]);
    if k == 0 || !SameLetters(s[5 + k..], ";base64,") then 0 else
    var n := DataRun(s[13 + k..]);
    if n == 0 then 0 else 13 + k + n
  }

  /** Written in two parts, since the verifier does not see far into long literals. */
  const MARKER := "[inline media omitted " + "from persisted history]"

  /** `DATA_URL_RE.sub(MARKER, s)`. */
  function Substitute(s: string): string
    decreases |s|
  {
    if s == "" then ""
    else if UrlLength(s) > 0 then MARKER + Substitute(s[UrlLength(s)..])
    else [s[0]] + Substitute(s[1..])
  }

  /** The text around the data URLs. */
  function Pieces(s: string): (pieces: seq<string>)
    ensures pieces != []
    decreases |s|
  {
    if s == "" then [""]
    else if UrlLength(s) > 0 then [""] + Pieces(s[UrlLength(s)..])
    else var rest := Pieces(s[1..]); [[s[0]] + rest[0]] + rest[1..]
  }

  function StripInlineDataUrls(text: string): string {
    if Find(text, ";base64,") == -1 then text else Substitute(text)
  }

  // ---------------------------------------------------------------------
  // Blocks
  // ---------------------------------------------------------------------

  /** An item of a parsed list: text on its own, a text block ("" without a text),
      the line of an attachment, a media block, any other object as JSON, or
      something else. */
  datatype Block =
    | Bare(text: string) | TextBlock(text: string) | Ref(line: string) | Media | Other(encoded: string) | Ignored

  type Parser = string -> Option<seq<Block>>

  function LineOf(b: Block): string {
    match b
    case Bare(text) => StripInlineDataUrls(text)
    case TextBlock(text) => StripInlineDataUrls(text)
    case Ref(line) => line
    case Other(encoded) => StripInlineDataUrls(encoded)
    case _ => ""
  }

  function Lines(blocks: seq<Block>): (lines: seq<string>)
    ensures |lines| == |blocks| && forall i :: 0 <= i < |lines| ==> lines[i] == LineOf(blocks[i])
  {
    seq(|blocks|, i requires 0 <= i < |blocks| => LineOf(blocks[i]))
  }

  function CountMedia(blocks: seq<Block>): nat {
    if blocks == [] then 0
    else CountMedia(blocks[..|blocks| - 1]) + (if blocks[|blocks| - 1].Media? then 1 else 0)
  }

  function OmittedLine(n: nat): string {
    if n == 0 then "" else "[" + Decimal(n) + " inline media payload" + (if n == 1 then "" else "s") + " omitted]"
  }

  function NonEmpty(lines: seq<string>): seq<string> {
    if lines == [] then []
    else (if lines[0] == "" then [] else [lines[0]]) + NonEmpty(lines[1..])
  }

  function TextFromBlocks(blocks: seq<Block>): string {
    Strip(Join(NonEmpty(Lines(blocks) + [OmittedLine(CountMedia(blocks))]), '\n'))
  }

  /** The blocks of a text that looks like a serialised list and is one. */
  function Blocks(content: string, parse: Parser): Option<seq<Block>> {
    var raw := Strip(content);
    if raw != "" && raw[0] == '[' && Find(raw, "\"type\"") != -1 then parse(content) else None
  }

  function SearchIndexText(content: string, parse: Parser): string {
    match Blocks(content, parse)
    case Some(blocks) => TextFromBlocks(blocks)
    case None => StripInlineDataUrls(content)
  }

  // ---------------------------------------------------------------------
  // Media in a text
  // ---------------------------------------------------------------------

  const MEDIA: seq<string> := [";base64,", "data:image/", "data:audio/"]

  lemma HasMediaMeans(s: string)
    ensures HasMedia(s) <==> exists p :: p in MEDIA && Contains(s, p)
  {
    FindFirst(s, ";base64,");
    FindFirst(s, "data:image/");
    FindFirst(s, "data:audio/");
    assert MEDIA[0] == ";base64," && MEDIA[1] == "data:image/" && MEDIA[2] == "data:audio/";
    hide Find, Contains;
  }

  /** An occurrence that overlaps `m` has an end of `m`, or lies within it. */
  lemma Overlap(p: string, a: string, m: string, b: string, i: int)
    requires m != "" && OccursAt(a + (m + b), p, i) && i < |a| + |m| && |a| < i + |p|
    ensures m[0] in p || m[|m| - 1] in p || forall k :: 0 <= k < |p| ==> p[k] in m
  {
    var s := a + (m + b);
    assert forall k :: 0 <= k < |p| ==> p[k] == s[i..i + |p|][k] == s[i + k];
    assert forall k :: 0 <= k < |m| ==> s[|a| + k] == m[k];
    if i <= |a| {
      assert p[|a| - i] == m[0];
    } else if i + |p| >= |a| + |m| {
      assert p[|a| + |m| - 1 - i] == m[|m| - 1];
    } else {
      assert forall k :: 0 <= k < |p| ==> p[k] == m[i + k - |a|];
    }
  }

  lemma OccursOnOneSide(p: string, a: string, m: string, b: string, k: nat, i: int)
    requires m != "" && m[0] !in p && m[|m| - 1] !in p && k < |p| && p[k] !in m
    requires OccursAt(a + (m + b), p, i)
    ensures OccursAt(a, p, i) || OccursAt(b, p, i - |a| - |m|)
  {
    var s := a + (m + b);
    if i + |p| <= |a| {
      assert a[i..i + |p|] == s[i..i + |p|];
    } else if i >= |a| + |m| {
      assert b[i - |a| - |m|..i - |a| - |m| + |p|] == s[i..i + |p|];
    } else {
      Overlap(p, a, m, b, i);
    }
  }

  lemma OccursInSides(p: string, a: string, m: string, b: string, i: int)
    ensures OccursAt(a, p, i) ==> OccursAt(a + (m + b), p, i)
    ensures OccursAt(b, p, i) ==> OccursAt(a + (m + b), p, i + |a| + |m|)
  {
    var s := a + (m + b);
    if OccursAt(a, p, i) {
      assert s[i..i + |p|] == a[i..i + |p|];
    }
    if OccursAt(b, p, i) {
      assert s[i + |a| + |m|..i + |a| + |m| + |p|] == b[i..i + |p|];
    }
  }

  /** A pattern without the ends of `m`, and not made of its characters, stands in
      text around `m` only where it stands on one side. */
  lemma ContainsAround(p: string, a: string, m: string, b: string, k: nat)
    requires m != "" && m[0] !in p && m[|m| - 1] !in p && k < |p| && p[k] !in m
    ensures Contains(a + (m + b), p) <==> Contains(a, p) || Contains(b, p)
  {
    hide OccursAt;
    var s := a + (m + b);
    if Contains(s, p) {
      var i :| OccursAt(s, p, i);
      OccursOnOneSide(p, a, m, b, k, i);
    }
    if Contains(a, p) {
      var i :| OccursAt(a, p, i);
      OccursInSides(p, a, m, b, i);
    }
    if Contains(b, p) {
      var i :| OccursAt(b, p, i);
      OccursInSides(p, a, m, b, i);
    }
  }

  /** The marker and the line break join texts without making media. */
  lemma MediaAround(a: string, m: string, b: string)
    requires m == MARKER || m == "\n"
    ensures HasMedia(a + (m + b)) <==> HasMedia(a) || HasMedia(b)
  {
    HasMediaMeans(a + (m + b));
    HasMediaMeans(a);
    HasMediaMeans(b);
    hide HasMedia, Contains;
    forall p | p in MEDIA
      ensures Contains(a + (m + b), p) <==> Contains(a, p) || Contains(b, p)
    {
      var k := if p == ";base64," then 0 else 4;
      PatternsMissMarker(p);
      ContainsAround(p, a, m, b, k);
    }
  }

  lemma MarkerLetters()
    ensures ';' !in MARKER && ':' !in MARKER
    ensures MARKER[0] == '[' && MARKER[|MARKER| - 1] == ']'
  {
    var (a, b) := ("[inline media omitted ", "from persisted history]");
    assert ';' !in a && ':' !in a && a[0] == '[';
    assert ';' !in b && ':' !in b && b[|b| - 1] == ']';
  }

  lemma PatternsMissMarker(p: string)
    requires p in MEDIA
    ensures p != "" && '[' !in p && ']' !in p && '\n' !in p
    ensures var k := if p == ";base64," then 0 else 4; k < |p| && p[k] !in MARKER && p[k] != '\n'
    ensures MARKER[0] == '[' && MARKER[|MARKER| - 1] == ']'
  {
    MarkerLetters();
  }

  lemma NoMediaInNothing()
    ensures !HasMedia("")
  {
  }

  // ---------------------------------------------------------------------
  // Media after the substitution
  // ---------------------------------------------------------------------

  /** `exists` over the pieces. */
  predicate AnyMedia(texts: seq<string>) {
    exists i :: 0 <= i < |texts| && HasMedia(texts[i])
  }

  lemma AnyMediaCons(x: string, rest: seq<string>)
    ensures AnyMedia([x] + rest) <==> HasMedia(x) || AnyMedia(rest)
  {
    hide HasMedia;
    var all := [x] + rest;
    assert all[0] == x && forall i :: 0 <= i < |rest| ==> all[i + 1] == rest[i];
    assert forall i :: 0 < i < |all| ==> all[i] == rest[i - 1];
  }

  /** The pieces with the marker between them. */
  function Marked(pieces: seq<string>): string
    requires pieces != []
  {
    if |pieces| == 1 then pieces[0] else pieces[0] + (MARKER + Marked(pieces[1..]))
  }

  lemma {:induction false} SubstituteMarksPieces(s: string)
    ensures Substitute(s) == Marked(Pieces(s))
    decreases |s|
  {
    if s != "" {
      hide UrlLength;
      if UrlLength(s) > 0 {
        var rest := Pieces(s[UrlLength(s)..]);
        SubstituteMarksPieces(s[UrlLength(s)..]);
        assert ([""] + rest)[1..] == rest && "" + (MARKER + Marked(rest)) == MARKER + Marked(rest);
      } else {
        var rest := Pieces(s[1..]);
        SubstituteMarksPieces(s[1..]);
        var all := [[s[0]] + rest[0]] + rest[1..];
        assert all[1..] == rest[1..];
        if |rest| > 1 {
          var (a, b) := (rest[0], MARKER + Marked(rest[1..]));
          assert ([s[0]] + a) + b == [s[0]] + (a + b);
        }
      }
    }
  }

  lemma {:induction false} MarkedMedia(pieces: seq<string>)
    requires pieces != []
    ensures HasMedia(Marked(pieces)) <==> AnyMedia(pieces)
  {
    hide HasMedia;
    if |pieces| == 1 {
      assert AnyMedia(pieces) <==> HasMedia(pieces[0]);
    } else {
      MarkedMedia(pieces[1..]);
      MediaAround(pieces[0], MARKER, Marked(pieces[1..]));
      assert pieces == [pieces[0]] + pieces[1..];
      AnyMediaCons(pieces[0], pieces[1..]);
    }
  }

  /** Whether media is left in a text from which data URLs were stripped. */
  predicate Keeps(text: string) {
    if Find(text, ";base64,") == -1 then HasMedia(text) else AnyMedia(Pieces(text))
  }

  lemma StrippedMedia(text: string)
    ensures HasMedia(StripInlineDataUrls(text)) <==> Keeps(text)
  {
    SubstituteMarksPieces(text);
    MarkedMedia(Pieces(text));
    hide HasMedia, Find, Pieces, Substitute, Marked;
  }

  /** A text is changed exactly when there is a data URL somewhere in it. */
  lemma {:induction false} SubstituteChanges(s: string)
    ensures Substitute(s) == s <==> |Pieces(s)| == 1
    decreases |s|
  {
    if s != "" {
      hide SameLetters;
      if UrlLength(s) > 0 {
        StartsWithLetter(s);
        MarkerLetters();
        assert (MARKER + Substitute(s[UrlLength(s)..]))[0] == '[';
      } else {
        SubstituteChanges(s[1..]);
        assert s == [s[0]] + s[1..];
        assert ([s[0]] + Substitute(s[1..]))[1..] == Substitute(s[1..]);
      }
    }
  }

  lemma StartsWithLetter(s: string)
    requires SameLetters(s, "data:")
    ensures s != "" && s[0] != '['
  {
    assert "data:"[0] == 'd';
  }

  // ---------------------------------------------------------------------
  // Substituting twice
  // ---------------------------------------------------------------------

  lemma {:induction false} TypeRunConcat(p: string, y: string)
    ensures TypeRun(p + y) == if TypeRun(p) < |p| then TypeRun(p) else |p| + TypeRun(y)
  {
    hide TypeChar;
    if p == "" {
      assert p + y == y;
    } else {
      assert (p + y)[1..] == p[1..] + y;
      TypeRunConcat(p[1..], y);
    }
  }

  lemma {:induction false} DataRunConcat(p: string, y: string)
    ensures DataRun(p + y) == if DataRun(p) < |p| then DataRun(p) else |p| + DataRun(y)
  {
    hide DataChar;
    if p == "" {
      assert p + y == y;
    } else {
      assert (p + y)[1..] == p[1..] + y;
      DataRunConcat(p[1..], y);
    }
  }

  lemma MarkerRuns(y: string)
    ensures DataRun(MARKER + y) == 0
    ensures TypeRun(MARKER + y) == 7 && (MARKER + y)[7] == ' '
  {
    var s := MARKER + y;
    assert s[0] == '[' && !DataChar('[');
    var (a, b) := ("[inline", s[7..]);
    assert s == a + b && b[0] == ' ';
    TypeRunConcat(a, b);
    WordRun();
    assert !TypeChar(' ');
  }

  lemma WordRun()
    ensures TypeRun("[inline") == 7
  {
    var w := "[inline";
    assert forall i :: 0 <= i < 7 ==> TypeChar(w[i]);
    AllTypeChars(w);
  }

  lemma {:induction false} AllTypeChars(w: string)
    requires forall i :: 0 <= i < |w| ==> TypeChar(w[i])
    ensures TypeRun(w) == |w|
  {
    hide TypeChar;
    if w != "" {
      AllTypeChars(w[1..]);
    }
  }

  /** Letters without a bracket that are found end before the marker. */
  lemma LettersEndBefore(p: string, y: string, w: string, z: string)
    requires '[' !in w && SameLetters(p + (MARKER + y), w)
    ensures |w| <= |p| && SameLetters(p + z, w)
  {
    var s := p + (MARKER + y);
    assert s[|p|] == '[' && LowerChar('[') == '[';
    assert forall i :: 0 <= i < |w| ==> w[i] in w;
    assert forall i :: 0 <= i < |w| && i < |p| ==> (p + z)[i] == s[i];
  }

  lemma DropFromConcat(p: string, m: string, k: nat)
    requires k <= |p|
    ensures (p + m)[k..] == p[k..] + m
  {
  }

  /** What follows the media type of a data URL. */
  predicate HasData(s: string) {
    SameLetters(s, ";base64,") && DataRun(s[8..]) > 0
  }

  lemma UrlParts(s: string)
    ensures UrlLength(s) > 0 <==>
            SameLetters(s, "data:") && TypeRun(s[5..]) > 0 && HasData(s[5 + TypeRun(s[5..])..])
  {
    if SameLetters(s, "data:") {
      var t := s[5 + TypeRun(s[5..])..];
      assert SameLetters(t, ";base64,") ==> t[8..] == s[13 + TypeRun(s[5..])..];
    }
  }

  lemma DataEndsBefore(p: string, y: string, z: string)
    requires HasData(p + (MARKER + y))
    ensures |p| >= 8 && HasData(p + z)
  {
    hide SameLetters, DataRun;
    var m := MARKER + y;
    MarkerRuns(y);
    assert '[' !in ";base64,";
    LettersEndBefore(p, y, ";base64,", z);
    DropFromConcat(p, m, 8);
    DropFromConcat(p, z, 8);
    DataRunConcat(p[8..], m);
    DataRunConcat(p[8..], z);
  }

  /** A media type before a marker ends before it, or its data does not follow. */
  lemma TypeEndsBefore(q: string, y: string, z: string)
    requires HasData((q + (MARKER + y))[TypeRun(q + (MARKER + y))..])
    ensures TypeRun(q + z) == TypeRun(q + (MARKER + y)) == TypeRun(q) < |q|
  {
    hide DataRun, TypeRun, LowerChar;
    var m := MARKER + y;
    MarkerRuns(y);
    TypeRunConcat(q, m);
    TypeRunConcat(q, z);
    assert (q + m)[|q| + 7] == ' ';
    assert ";base64,"[0] == ';' && LowerChar(' ') == ' ' by { SpaceIsNoLetter(); }
  }

  lemma SpaceIsNoLetter()
    ensures LowerChar(' ') == ' '
  {
  }

  /** A data URL that starts before a marker ends before it. */
  lemma UrlEndsBefore(p: string, y: string, z: string)
    requires UrlLength(p + (MARKER + y)) > 0
    ensures UrlLength(p + z) > 0
  {
    hide SameLetters, TypeRun, HasData, UrlLength;
    var m := MARKER + y;
    UrlParts(p + m);
    UrlParts(p + z);
    assert '[' !in "data:";
    LettersEndBefore(p, y, "data:", z);
    TypeAndDataEndBefore(p, y, z);
  }

  lemma TypeAndDataEndBefore(p: string, y: string, z: string)
    requires |p| >= 5
    requires var s := p + (MARKER + y); TypeRun(s[5..]) > 0 && HasData(s[5 + TypeRun(s[5..])..])
    ensures var u := p + z; TypeRun(u[5..]) > 0 && HasData(u[5 + TypeRun(u[5..])..])
  {
    hide TypeRun, HasData;
    var (m, q) := (MARKER + y, p[5..]);
    DropFromConcat(p, m, 5);
    DropFromConcat(p, z, 5);
    DropTwice(p + m, 5, TypeRun(q + m));
    TypeEndsBefore(q, y, z);
    var k := TypeRun(q);
    DropFromConcat(q, m, k);
    DropFromConcat(q, z, k);
    DropTwice(p + z, 5, k);
    DataEndsBefore(q[k..], y, z);
  }

  lemma DropTwice(s: string, a: nat, b: nat)
    requires a + b <= |s|
    ensures s[a..][b..] == s[a + b..]
  {
  }

  /** Text before the first data URL stays; then comes the marker, if there is one. */
  lemma {:induction false} SubstituteShape(s: string) returns (k: nat, y: string)
    ensures k <= |s|
    ensures (k == |s| && Substitute(s) == s) || Substitute(s) == s[..k] + (MARKER + y)
    decreases |s|
  {
    hide UrlLength;
    if s == "" {
      k, y := 0, "";
    } else if UrlLength(s) > 0 {
      k, y := 0, Substitute(s[UrlLength(s)..]);
      assert s[..0] + (MARKER + y) == MARKER + y;
    } else {
      var (c, rest) := (s[0], s[1..]);
      assert s == [c] + rest && Substitute(s) == [c] + Substitute(rest);
      var k1, y1 := SubstituteShape(rest);
      hide Substitute;
      k, y := k1 + 1, y1;
      assert s[..k] == [c] + rest[..k1];
      ConsConcat(c, rest[..k1], MARKER + y);
    }
  }

  lemma ConsConcat(c: char, a: string, b: string)
    ensures [c] + (a + b) == ([c] + a) + b
  {
  }

  lemma NoUrlAppears(c: char, rest: string)
    requires UrlLength([c] + rest) == 0
    ensures UrlLength([c] + Substitute(rest)) == 0
  {
    hide UrlLength, Substitute;
    var k, y := SubstituteShape(rest);
    if Substitute(rest) != rest {
      var p := [c] + rest[..k];
      assert [c] + (rest[..k] + (MARKER + y)) == p + (MARKER + y);
      assert p + rest[k..] == [c] + rest;
      if UrlLength(p + (MARKER + y)) > 0 {
        UrlEndsBefore(p, y, rest[k..]);
      }
    }
  }

  lemma MarkerPairs(i: nat)
    requires i < |MARKER|
    ensures LowerChar(MARKER[i]) == 'd' && i + 1 < |MARKER| ==> LowerChar(MARKER[i + 1]) != 'a'
    ensures i == |MARKER| - 1 ==> LowerChar(MARKER[i]) != 'd'
  {
    var (a, b) := ("[inline media omitted ", "from persisted history]");
    assert MARKER == a + b;
    assert MARKER[i] == if i < |a| then a[i] else b[i - |a|];
    assert i + 1 < |MARKER| ==> MARKER[i + 1] == if i + 1 < |a| then a[i + 1] else b[i + 1 - |a|];
  }

  lemma MarkerStartsNoUrl(i: nat, r: string)
    requires i < |MARKER|
    ensures UrlLength(MARKER[i..] + r) == 0
  {
    MarkerPairs(i);
    var s := MARKER[i..] + r;
    assert s[0] == MARKER[i] && (i + 1 < |MARKER| ==> s[1] == MARKER[i + 1]);
    assert "data:"[0] == 'd' && "data:"[1] == 'a';
  }

  lemma {:induction false} PrefixAddsNoUrl(x: string, r: string)
    requires forall i :: 0 <= i < |x| ==> UrlLength(x[i..] + r) == 0
    ensures |Pieces(x + r)| == |Pieces(r)|
  {
    hide UrlLength;
    if x == "" {
      assert x + r == r;
    } else {
      assert x[0..] + r == x + r && (x + r)[1..] == x[1..] + r;
      assert forall i :: 0 <= i < |x[1..]| ==> x[1..][i..] == x[i + 1..];
      PrefixAddsNoUrl(x[1..], r);
    }
  }

  lemma {:induction false} NoUrlIsLeft(s: string)
    ensures |Pieces(Substitute(s))| == 1
    decreases |s|
  {
    hide UrlLength;
    if s == "" {
    } else if UrlLength(s) > 0 {
      var r := Substitute(s[UrlLength(s)..]);
      NoUrlIsLeft(s[UrlLength(s)..]);
      forall i | 0 <= i < |MARKER|
        ensures UrlLength(MARKER[i..] + r) == 0
      {
        MarkerStartsNoUrl(i, r);
      }
      PrefixAddsNoUrl(MARKER, r);
    } else {
      NoUrlIsLeft(s[1..]);
      assert s == [s[0]] + s[1..];
      NoUrlAppears(s[0], s[1..]);
      var r := Substitute(s[1..]);
      assert ([s[0]] + r)[1..] == r && Substitute(s) == [s[0]] + r;
    }
  }

  /** Stripping a second time changes nothing. */
  lemma StripTwice(s: string)
    ensures StripInlineDataUrls(StripInlineDataUrls(s)) == StripInlineDataUrls(s)
  {
    NoUrlIsLeft(s);
    SubstituteChanges(Substitute(s));
    hide Find, Substitute, Pieces;
  }

  /** When text is stored just as it is. */
  lemma StripKeepsExactly(s: string)
    ensures StripInlineDataUrls(s) == s <==> Find(s, ";base64,") == -1 || |Pieces(s)| == 1
  {
    SubstituteChanges(s);
    hide Find, Substitute, Pieces;
  }

  // ---------------------------------------------------------------------
  // Media in a list of blocks
  // ---------------------------------------------------------------------

  predicate BlockKeeps(b: Block) {
    match b
    case Bare(text) => Keeps(text)
    case TextBlock(text) => Keeps(text)
    case Ref(line) => HasMedia(line)
    case Other(encoded) => Keeps(encoded)
    case _ => false
  }

  lemma LineMedia(b: Block)
    ensures HasMedia(LineOf(b)) <==> BlockKeeps(b)
  {
    hide HasMedia, Keeps, StripInlineDataUrls;
    NoMediaInNothing();
    match b
    case Bare(text) => StrippedMedia(text);
    case TextBlock(text) => StrippedMedia(text);
    case Other(encoded) => StrippedMedia(encoded);
    case _ =>
  }

  lemma {:induction false} JoinedMedia(lines: seq<string>)
    ensures HasMedia(Join(lines, '\n')) <==> AnyMedia(lines)
  {
    hide HasMedia;
    NoMediaInNothing();
    if |lines| == 1 {
      assert AnyMedia(lines) <==> HasMedia(lines[0]);
    } else if |lines| > 1 {
      JoinedMedia(lines[1..]);
      assert ['\n'] == "\n";
      MediaAround(lines[0], "\n", Join(lines[1..], '\n'));
      assert lines == [lines[0]] + lines[1..];
      AnyMediaCons(lines[0], lines[1..]);
    }
  }

  lemma {:induction false} NonEmptyMedia(lines: seq<string>)
    ensures AnyMedia(NonEmpty(lines)) <==> AnyMedia(lines)
  {
    hide HasMedia;
    NoMediaInNothing();
    if lines != [] {
      NonEmptyMedia(lines[1..]);
      assert lines == [lines[0]] + lines[1..];
      AnyMediaCons(lines[0], lines[1..]);
      AnyMediaCons(lines[0], NonEmpty(lines[1..]));
      assert [] + NonEmpty(lines[1..]) == NonEmpty(lines[1..]);
    }
  }

  lemma PatternsAreInk(p: string)
    requires p in MEDIA
    ensures p != "" && forall i :: 0 <= i < |p| ==> !IsSpace(p[i])
  {
  }

  /** White space around a text neither makes nor loses a pattern of ink. */
  lemma PaddingContains(a: string, r: string, b: string, p: string)
    requires AllSpace(a) && AllSpace(b)
    requires p != "" && forall i :: 0 <= i < |p| ==> !IsSpace(p[i])
    ensures Contains(r, p) <==> Contains(a + r + b, p)
  {
    hide IsSpace;
    var s := a + r + b;
    assert forall j :: 0 <= j < |a| ==> s[j] == a[j];
    assert forall j :: |a| + |r| <= j < |s| ==> s[j] == b[j - |a| - |r|];
    if Contains(s, p) {
      var i :| OccursAt(s, p, i);
      assert s[i..i + |p|][0] == s[i] == p[0];
      assert s[i..i + |p|][|p| - 1] == s[i + |p| - 1] == p[|p| - 1];
      assert r[i - |a|..i - |a| + |p|] == s[i..i + |p|];
      assert OccursAt(r, p, i - |a|);
    }
    if Contains(r, p) {
      var i :| OccursAt(r, p, i);
      assert s[i + |a|..i + |a| + |p|] == r[i..i + |p|];
      assert OccursAt(s, p, i + |a|);
    }
  }

  lemma StripContains(s: string, p: string)
    requires p != "" && forall i :: 0 <= i < |p| ==> !IsSpace(p[i])
    ensures Contains(Strip(s), p) <==> Contains(s, p)
  {
    StripShape(s);
    hide IsSpace, Strip, AllSpace, Contains;
    var a, b :| AllSpace(a) && AllSpace(b) && s == a + Strip(s) + b;
    PaddingContains(a, Strip(s), b, p);
  }

  lemma StripMedia(s: string)
    ensures HasMedia(Strip(s)) <==> HasMedia(s)
  {
    HasMediaMeans(s);
    HasMediaMeans(Strip(s));
    hide HasMedia, Contains, Strip, IsSpace;
    forall p | p in MEDIA
      ensures Contains(Strip(s), p) <==> Contains(s, p)
    {
      PatternsAreInk(p);
      StripContains(s, p);
    }
  }

  lemma {:induction false} DecimalDigits(n: nat)
    ensures forall c :: c in Decimal(n) ==> '0' <= c <= '9'
  {
    if n >= 10 {
      DecimalDigits(n / 10);
    }
  }

  lemma OmittedIsClean(n: nat)
    ensures !HasMedia(OmittedLine(n))
  {
    DecimalDigits(n);
    hide HasMedia, Decimal;
    NoMediaWithoutSigns(OmittedLine(n));
  }

  /** The text of a list holds media exactly when that of some block does. */
  lemma BlocksMedia(blocks: seq<Block>)
    ensures HasMedia(TextFromBlocks(blocks)) <==> exists b :: b in blocks && BlockKeeps(b)
  {
    hide HasMedia, BlockKeeps, LineOf, Strip, Join, NonEmpty, OmittedLine;
    var (lines, omitted) := (Lines(blocks), OmittedLine(CountMedia(blocks)));
    var all := lines + [omitted];
    StripMedia(Join(NonEmpty(all), '\n'));
    JoinedMedia(NonEmpty(all));
    NonEmptyMedia(all);
    OmittedIsClean(CountMedia(blocks));
    forall i | 0 <= i < |blocks|
      ensures HasMedia(all[i]) <==> BlockKeeps(blocks[i])
    {
      LineMedia(blocks[i]);
    }
    if exists b :: b in blocks && BlockKeeps(b) {
      var b :| b in blocks && BlockKeeps(b);
      var i :| 0 <= i < |blocks| && blocks[i] == b;
      assert HasMedia(all[i]);
    }
    if AnyMedia(all) {
      var i :| 0 <= i < |all| && HasMedia(all[i]);
      assert blocks[i] in blocks;
    }
  }

  // ---------------------------------------------------------------------
  // Media in the index
  // ---------------------------------------------------------------------

  /** A message whose media outlasts the scrubbing: a list with a block that keeps
      some, or text that does. */
  ghost predicate Leaks(content: string, parse: Parser) {
    match Blocks(content, parse)
    case Some(blocks) => exists b :: b in blocks && BlockKeeps(b)
    case None => Keeps(content)
  }

  lemma ScrubbedMedia(content: string, parse: Parser)
    ensures HasMedia(SearchIndexText(content, parse)) <==> Leaks(content, parse)
  {
    hide HasMedia, Blocks, TextFromBlocks, StripInlineDataUrls, Keeps, BlockKeeps;
    match Blocks(content, parse)
    case Some(blocks) => BlocksMedia(blocks);
    case None => StrippedMedia(content);
  }

  /** For every message with media, a migration leaves the scrubbed text as its one
      entry, and that holds media exactly when the message leaks. */
  lemma MediaReachesIndex(db: Db, parse: Parser, r: Row)
    requires var scrub := (text: string) => SearchIndexText(text, parse); Repairable(db, scrub)
    requires r in db.rows && HasMedia(r.content)
    ensures var scrub := (text: string) => SearchIndexText(text, parse);
            && EntriesOf(Migrate(db, scrub).index, r.id) == [EntryFor(r, SearchIndexText(r.content, parse))]
            && (HasMedia(SearchIndexText(r.content, parse)) <==> Leaks(r.content, parse))
  {
    var scrub := (text: string) => SearchIndexText(text, parse);
    hide HasMedia, SearchIndexText, Leaks;
    ScrubbedMedia(r.content, parse);
    BackfillEntries(db.index, db.rows, r.id);
    ScrubEntries(Backfill(db.index, db.rows), db.rows, scrub, r.id);
  }

  /** So after a migration no entry holds media exactly when no message leaks. */
  lemma IndexFreeOfMedia(db: Db, parse: Parser)
    requires var scrub := (text: string) => SearchIndexText(text, parse); Repairable(db, scrub)
    ensures var scrub := (text: string) => SearchIndexText(text, parse);
            (forall e :: e in Migrate(db, scrub).index ==> !HasMedia(e.content))
            <==> (forall r :: r in db.rows && HasMedia(r.content) ==> !Leaks(r.content, parse))
  {
    var scrub := (text: string) => SearchIndexText(text, parse);
    hide HasMedia, SearchIndexText, Leaks, Migrate, Repairable;
    MigratedIndexHoldsNoMedia(db, scrub);
    forall r | r in db.rows
      ensures HasMedia(scrub(r.content)) <==> Leaks(r.content, parse)
    {
      ScrubbedMedia(r.content, parse);
    }
  }

  /** Text with media that is not a list is indexed just as it is exactly when it
      has no ";base64," or no whole data URL, although the trigger kept it out. */
  lemma RawTextReturns(content: string, parse: Parser)
    requires HasMedia(content) && Blocks(content, parse).None?
    ensures IndexText(content) == OMITTED
    ensures SearchIndexText(content, parse) == content <==> Find(content, ";base64,") == -1 || |Pieces(content)| == 1
  {
    SubstituteChanges(content);
    hide HasMedia, Find, Pieces, Substitute, Blocks;
  }

  // ---------------------------------------------------------------------
  // What a data URL is
  // ---------------------------------------------------------------------

  /** `data:`, a type, `;base64,` and data, in letters of either case. */
  ghost predicate IsUrl(s: string, k: nat, n: nat) {
    && k > 0 && n > 0 && |s| == 13 + k + n
    && SameLetters(s, "data:") && (forall i :: 5 <= i < 5 + k ==> TypeChar(s[i]))
    && SameLetters(s[5 + k..], ";base64,") && (forall i :: 13 + k <= i < |s| ==> DataChar(s[i]))
  }

  lemma {:induction false} TypeRunIs(s: string, k: nat)
    requires k <= |s| && (forall i :: 0 <= i < k ==> TypeChar(s[i])) && (k < |s| ==> !TypeChar(s[k]))
    ensures TypeRun(s) == k
  {
    hide TypeChar;
    if k > 0 {
      assert forall i :: 0 <= i < k - 1 ==> s[1..][i] == s[i + 1];
      TypeRunIs(s[1..], k - 1);
    }
  }

  lemma {:induction false} DataRunIs(s: string, n: nat)
    requires n <= |s| && (forall i :: 0 <= i < n ==> DataChar(s[i])) && (n < |s| ==> !DataChar(s[n]))
    ensures DataRun(s) == n
  {
    hide DataChar;
    if n > 0 {
      assert forall i :: 0 <= i < n - 1 ==> s[1..][i] == s[i + 1];
      DataRunIs(s[1..], n - 1);
    }
  }

  lemma {:induction false} DataRunHolds(s: string)
    ensures forall i :: 0 <= i < DataRun(s) ==> DataChar(s[i])
    ensures DataRun(s) < |s| ==> !DataChar(s[DataRun(s)])
  {
    hide DataChar;
    if s != "" && DataChar(s[0]) {
      DataRunHolds(s[1..]);
      assert forall i :: 0 < i < |s| ==> s[i] == s[1..][i - 1];
    }
  }

  lemma {:induction false} TypeRunHolds(s: string)
    ensures forall i :: 0 <= i < TypeRun(s) ==> TypeChar(s[i])
  {
    hide TypeChar;
    if s != "" && TypeChar(s[0]) {
      TypeRunHolds(s[1..]);
      assert forall i :: 0 < i < |s| ==> s[i] == s[1..][i - 1];
    }
  }

  lemma SemicolonEndsType(s: string)
    requires SameLetters(s, ";base64,")
    ensures s != "" && !TypeChar(s[0])
  {
    assert LowerChar(s[0]) == ';';
  }

  lemma SameStart(s: string, t: string, p: string)
    requires SameLetters(s, p) && |p| <= |t| && s[..|p|] == t[..|p|]
    ensures SameLetters(t, p)
  {
    assert forall i :: 0 <= i < |p| ==> t[i] == t[..|p|][i] && s[i] == s[..|p|][i];
  }

  lemma SliceOfPrefix(s: string, m: nat, a: nat, n: nat)
    requires a + n <= m <= |s|
    ensures s[..m][a..][..n] == s[a..][..n]
  {
    assert s[..m][a..][..n] == s[a..a + n] == s[a..][..n];
  }

  /** A data URL at the start that cannot go on is what the pattern finds there. */
  lemma UrlLengthIs(s: string, k: nat, n: nat)
    requires 13 + k + n <= |s| && IsUrl(s[..13 + k + n], k, n)
    requires 13 + k + n < |s| ==> !DataChar(s[13 + k + n])
    ensures UrlLength(s) == 13 + k + n
  {
    hide TypeChar, DataChar, LowerChar, SameLetters;
    var url := s[..13 + k + n];
    SameStart(url, s, "data:");
    assert forall i :: 0 <= i < k ==> s[5..][i] == url[5 + i];
    SliceOfPrefix(s, 13 + k + n, 5 + k, 8);
    SameStart(url[5 + k..], s[5 + k..], ";base64,");
    SemicolonEndsType(s[5 + k..]);
    assert s[5..][k] == s[5 + k..][0];
    TypeRunIs(s[5..], k);
    var rest := s[13 + k..];
    assert forall i :: 0 <= i < n ==> rest[i] == url[13 + k + i];
    DataRunIs(rest, n);
  }

  /** And what it finds is one, and cannot go on. */
  lemma UrlIsFound(s: string)
    requires UrlLength(s) > 0
    ensures var (k, m) := (TypeRun(s[5..]), UrlLength(s));
            m > 13 + k && IsUrl(s[..m], k, m - 13 - k) && (m < |s| ==> !DataChar(s[m]))
  {
    hide TypeChar, DataChar, LowerChar, SameLetters;
    var (k, m) := (TypeRun(s[5..]), UrlLength(s));
    TypeRunHolds(s[5..]);
    DataRunHolds(s[13 + k..]);
    var url := s[..m];
    SameStart(s, url, "data:");
    SliceOfPrefix(s, m, 5 + k, 8);
    SameStart(s[5 + k..], url[5 + k..], ";base64,");
    assert forall i :: 5 <= i < 5 + k ==> url[i] == s[5..][i - 5];
    assert forall i :: 13 + k <= i < |url| ==> url[i] == s[13 + k..][i - 13 - k];
  }

  /** The pattern matches at the start exactly when the text begins with a data URL,
      and then the longest one. */
  lemma UrlLengthExactly(s: string, m: nat)
    requires m > 0
    ensures UrlLength(s) == m <==>
            m <= |s| && (m < |s| ==> !DataChar(s[m])) && exists k: nat, n: nat :: IsUrl(s[..m], k, n)
  {
    hide IsUrl, DataChar, TypeRun, DataRun;
    if UrlLength(s) == m {
      UrlIsFound(s);
      hide UrlLength;
    } else if m <= |s| && (m < |s| ==> !DataChar(s[m])) && exists k: nat, n: nat :: IsUrl(s[..m], k, n) {
      var k: nat, n: nat :| IsUrl(s[..m], k, n);
      assert m == 13 + k + n by { UrlSize(s[..m], k, n); }
      UrlLengthIs(s, k, n);
    }
  }

  lemma UrlSize(url: string, k: nat, n: nat)
    requires IsUrl(url, k, n)
    ensures |url| == 13 + k + n
  {
  }

  /** The alphabet of base64 with its padding. */
  predicate Base64(c: char) {
    'A' <= c <= 'Z' || 'a' <= c <= 'z' || '0' <= c <= '9' || c in "+/="
  }

  /** The type ends at the signs that end it; the data are of the alphabet of
      base64, and four more characters that ignoring case brings in. */
  lemma CharactersExactly(c: char)
    ensures TypeChar(c) <==> c !in ";,\"'" && !IsSpace(c)
    ensures DataChar(c) <==> Base64(c) || c in "\U{130}\U{131}\U{17f}\U{212a}"
  {
    hide IsSpace;
  }

  lemma AnyCase(s: string, p: string)
    requires Lower(s) == p
    ensures SameLetters(s, p)
  {
  }

  /** Every data URL in standard form, in letters of either case, is replaced as a
      whole, up to the first character that cannot belong to it. */
  lemma StandardUrlGoes(head: string, kind: string, mark: string, data: string, rest: string)
    requires Lower(head) == "data:" && Lower(mark) == ";base64,"
    requires kind != "" && forall c :: c in kind ==> c !in ";,\"'" && !IsSpace(c)
    requires data != "" && forall c :: c in data ==> Base64(c)
    requires rest != "" ==> !DataChar(rest[0])
    ensures Substitute(head + kind + mark + data + rest) == MARKER + Substitute(rest)
  {
    var (k, n) := (|kind|, |data|);
    var url := head + kind + mark + data;
    var s := url + rest;
    assert |head| == |"data:"| && |mark| == |";base64,"|;
    forall c
      ensures c in kind ==> TypeChar(c)
      ensures c in data ==> DataChar(c)
    {
      CharactersExactly(c);
    }
    hide TypeChar, DataChar, LowerChar, IsSpace, IsUrl, UrlLength;
    PartsMakeUrl(head, kind, mark, data);
    assert s[..13 + k + n] == url;
    UrlLengthIs(s, k, n);
    assert s[13 + k + n..] == rest;
  }

  lemma PartsMakeUrl(head: string, kind: string, mark: string, data: string)
    requires Lower(head) == "data:" && Lower(mark) == ";base64," && |head| == 5 && |mark| == 8
    requires kind != "" && (forall c :: c in kind ==> TypeChar(c)) && data != "" && forall c :: c in data ==> DataChar(c)
    ensures IsUrl(head + kind + mark + data, |kind|, |data|)
  {
    hide TypeChar, DataChar, SameLetters, Lower;
    var url := head + kind + mark + data;
    AnyCase(head, "data:");
    AnyCase(mark, ";base64,");
    assert head[..5] == url[..5];
    SameStart(head, url, "data:");
    assert mark[..8] == url[5 + |kind|..][..8];
    SameStart(mark, url[5 + |kind|..], ";base64,");
    assert forall i :: 0 <= i < |kind| ==> url[5 + i] == kind[i];
    assert forall i :: 0 <= i < |data| ==> url[13 + |kind| + i] == data[i];
  }

  // ---------------------------------------------------------------------
  // What the text of blocks is
  // ---------------------------------------------------------------------

  /** The lines of the blocks, in their order, and how many media there are. */
  lemma {:induction false} BlocksInOrder(front: seq<Block>, back: seq<Block>)
    ensures NonEmpty(Lines(front + back)) == NonEmpty(Lines(front)) + NonEmpty(Lines(back))
    ensures CountMedia(front + back) == CountMedia(front) + CountMedia(back)
  {
    hide LineOf;
    assert Lines(front + back) == Lines(front) + Lines(back);
    NonEmptyInOrder(Lines(front), Lines(back));
    CountInOrder(front, back);
  }

  lemma {:induction false} NonEmptyInOrder(front: seq<string>, back: seq<string>)
    ensures NonEmpty(front + back) == NonEmpty(front) + NonEmpty(back)
  {
    if front == [] {
      assert front + back == back;
    } else {
      assert (front + back)[1..] == front[1..] + back;
      NonEmptyInOrder(front[1..], back);
    }
  }

  lemma {:induction false} CountInOrder(front: seq<Block>, back: seq<Block>)
    ensures CountMedia(front + back) == CountMedia(front) + CountMedia(back)
    decreases |back|
  {
    if back == [] {
      assert front + back == front;
    } else {
      assert (front + back)[..|front + back| - 1] == front + back[..|back| - 1];
      CountInOrder(front, back[..|back| - 1]);
    }
  }

  /** A text without media or data URLs is its own line if it is not empty; media
      are counted and have no line. */
  lemma BlockExactly(text: string)
    requires Find(text, ";base64,") == -1
    ensures var lines := if text == "" then [] else [text];
            && NonEmpty(Lines([Bare(text)])) == NonEmpty(Lines([TextBlock(text)])) == lines
            && NonEmpty(Lines([Other(text)])) == NonEmpty(Lines([Ref(text)])) == lines
            && CountMedia([Bare(text)]) == CountMedia([TextBlock(text)]) == CountMedia([Other(text)]) == CountMedia([Ref(text)]) == 0
    ensures NonEmpty(Lines([Media])) == [] && CountMedia([Media]) == 1
  {
    hide Find, Substitute;
    forall b: Block
      ensures NonEmpty(Lines([b])) == if LineOf(b) == "" then [] else [LineOf(b)]
      ensures CountMedia([b]) == if b.Media? then 1 else 0
    {
      assert Lines([b])[1..] == [];
      assert [b][..0] == [];
    }
  }

  lemma OmittedLineIs(n: nat)
    requires n > 0
    ensures OmittedLine(n) == "[" + Decimal(n) + (if n == 1 then " inline media payload omitted]" else " inline media payloads omitted]")
  {
    hide Decimal;
    assert " inline media payload" + "" + " omitted]" == " inline media payload omitted]";
    assert " inline media payload" + "s" + " omitted]" == " inline media payloads omitted]";
  }

  /** The text is these lines, and behind them the number of media, in words. */
  lemma TextOfBlocksExactly(blocks: seq<Block>)
    ensures var (lines, n) := (NonEmpty(Lines(blocks)), CountMedia(blocks));
            TextFromBlocks(blocks) ==
              if n == 0 then Strip(Join(lines, '\n'))
              else var note := "[" + Decimal(n) + (if n == 1 then " inline media payload omitted]" else " inline media payloads omitted]");
                   Strip(Join(lines + [note], '\n'))
  {
    hide Strip, Join, Lines, CountMedia, Decimal;
    var n := CountMedia(blocks);
    NonEmptyInOrder(Lines(blocks), [OmittedLine(n)]);
    if n > 0 {
      OmittedLineIs(n);
      assert |OmittedLine(n)| > 0;
    }
    hide OmittedLine;
    assert NonEmpty([OmittedLine(n)]) == if n == 0 then [] else [OmittedLine(n)] by {
      assert [OmittedLine(n)][1..] == [];
      OmittedOnlyForNone(n);
    }
    assert NonEmpty(Lines(blocks)) + [] == NonEmpty(Lines(blocks));
  }

  lemma OmittedOnlyForNone(n: nat)
    ensures OmittedLine(n) == "" <==> n == 0
  {
    hide Decimal;
  }

  /** A text is read as blocks exactly when the parser takes it for a list, and it
      begins with a bracket and has a "type" behind white space. */
  lemma BlocksExactly(content: string, parse: Parser)
    ensures Blocks(content, parse).Some? <==>
            parse(content).Some? && Strip(content) != "" && Strip(content)[0] == '[' && Contains(Strip(content), "\"type\"")
    ensures Blocks(content, parse).Some? ==> Blocks(content, parse) == parse(content)
  {
    FindFirst(Strip(content), "\"type\"");
    hide Find, Strip, Contains;
  }
}
