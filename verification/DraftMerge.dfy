/** Email drafts (mcp_servers/email_server.py): a draft is header lines, a
    separator line and a body whose tail may quote the previous message.
    Replacing the reply keeps the headers and the quoted tail.

    The separator and the markers are parameters of the definitions and of the
    lemmas; `MergeEmailReplyBody` and the last section use the actual ones. */
module DraftMerge {
  import opened Text

  const SEPARATOR := "\n---\n"
  const MARKERS: seq<string> := [
    "---------- Previous message ----------",
    "-----Original Message-----",
    "----- Original Message -----"
  ]

  /** What the argument needs of a quote marker: one line with ink at both ends. */
  ghost predicate OneLine(p: string) {
    p != "" && Stripped(p) && '\n' !in p
  }

  ghost predicate Markers(ms: seq<string>) {
    forall m :: 0 <= m < |ms| ==> OneLine(ms[m])
  }

  ghost predicate MarkerAt(ms: seq<string>, body: string, i: int) {
    exists m :: 0 <= m < |ms| && OccursAt(body, ms[m], i)
  }

  ghost predicate HasMarker(ms: seq<string>, body: string) {
    exists i :: MarkerAt(ms, body, i)
  }

  /** `q` is where the quoted tail starts: the least index of any marker, -1 without one. */
  ghost predicate IsQuoteStart(ms: seq<string>, body: string, q: int) {
    && q >= -1
    && (q == -1 ==> !HasMarker(ms, body))
    && (q != -1 ==> MarkerAt(ms, body, q) && forall j :: 0 <= j < q ==> !MarkerAt(ms, body, j))
  }

  function QuoteStart(ms: seq<string>, body: string): (q: int)
    ensures -1 <= q <= |body|
  {
    if ms == [] then -1 else
    var i, j := QuoteStart(ms[..|ms| - 1], body), Find(body, ms[|ms| - 1]);
    if i == -1 || (j != -1 && j < i) then j else i
  }

  lemma {:induction false} QuoteStartIsLeast(ms: seq<string>, body: string)
    ensures IsQuoteStart(ms, body, QuoteStart(ms, body))
  {
    if ms != [] {
      QuoteStartIsLeast(ms[..|ms| - 1], body);
      FindFirst(body, ms[|ms| - 1]);
      assert forall k :: MarkerAt(ms, body, k) <==> MarkerAt(ms[..|ms| - 1], body, k) || OccursAt(body, ms[|ms| - 1], k);
    }
  }

  lemma QuoteStartUnique(ms: seq<string>, body: string, q: int)
    requires IsQuoteStart(ms, body, q)
    ensures q == QuoteStart(ms, body)
  {
    QuoteStartIsLeast(ms, body);
    var p := QuoteStart(ms, body);
    assert p == -1 || MarkerAt(ms, body, p);
    assert q == -1 || MarkerAt(ms, body, q);
  }

  function Quote(ms: seq<string>, body: string): string {
    var q := QuoteStart(ms, body);
    if q == -1 then "" else Strip(body[q..])
  }

  /** The new body: the stripped reply, then the quoted tail after a blank line. */
  function NewBody(reply: string, quote: string): string {
    if quote == "" then Strip(reply)
    else if Strip(reply) == "" then quote
    else Strip(reply) + ("\n\n" + quote)
  }

  /** `_merge_email_reply_body`; an absent argument is the empty string. */
  function Merge(sep: string, ms: seq<string>, content: string, reply: string): string {
    var cut := Find(content, sep);
    if cut == -1 then reply
    else content[..cut] + (sep + NewBody(reply, Quote(ms, content[cut + |sep|..])))
  }

  /** The loop over the markers that keeps the smallest index found. */
  method FindQuote(ms: seq<string>, body: string) returns (quoteIndex: int)
    ensures quoteIndex == QuoteStart(ms, body)
  {
    quoteIndex := -1;
    for k := 0 to |ms|
      invariant quoteIndex == QuoteStart(ms[..k], body)
    {
      var idx := Find(body, ms[k]);
      assert ms[..k + 1][..k] == ms[..k];
      if idx != -1 && (quoteIndex == -1 || idx < quoteIndex) {
        quoteIndex := idx;
      }
    }
    assert ms[..|ms|] == ms;
  }

  method MergeWith(sep: string, ms: seq<string>, content: string, reply: string) returns (merged: string)
    ensures merged == Merge(sep, ms, content, reply)
  {
    hide Find, Strip, QuoteStart;
    var cut := Find(content, sep);
    if cut == -1 {
      return reply;
    }
    var head, body := content[..cut], content[cut + |sep|..];
    var quoteIndex := FindQuote(ms, body);
    var quote := if quoteIndex != -1 then Strip(body[quoteIndex..]) else "";
    var mergedBody := Strip(reply);
    if quote != "" {
      mergedBody := if mergedBody != "" then mergedBody + ("\n\n" + quote) else quote;
    }
    assert quote == Quote(ms, body) && mergedBody == NewBody(reply, quote);
    merged := head + (sep + mergedBody);
  }

  // ---------------------------------------------------------------------
  // Markers under concatenation and stripping
  // ---------------------------------------------------------------------

  lemma OccursInJoin(p: string, a: string, b: string, i: int)
    requires p != ""
    ensures OccursAt(a, p, i) ==> OccursAt(a + b, p, i)
    ensures i >= |a| ==> (OccursAt(a + b, p, i) <==> OccursAt(b, p, i - |a|))
    ensures OccursAt(a + b, p, i) ==> OccursAt(a, p, i) || i + |p| > |a|
  {
    var s := a + b;
    if 0 <= i && i + |p| <= |a| {
      assert s[i..i + |p|] == a[i..i + |p|];
    }
    if i >= |a| && i + |p| <= |s| {
      assert s[i..i + |p|] == b[i - |a|..i - |a| + |p|];
    }
  }

  /** A marker in `left`, a blank line and `right` lies in `left` or in `right`. */
  lemma MarkerInJoin(ms: seq<string>, left: string, right: string, i: int)
    requires Markers(ms)
    ensures MarkerAt(ms, left + ("\n\n" + right), i) <==>
            MarkerAt(ms, left, i) || (i >= |left| + 2 && MarkerAt(ms, right, i - |left| - 2))
  {
    forall m | 0 <= m < |ms|
      ensures OccursAt(left + ("\n\n" + right), ms[m], i) <==>
              OccursAt(left, ms[m], i) || (i >= |left| + 2 && OccursAt(right, ms[m], i - |left| - 2))
    {
      OccursInJoinedLines(ms[m], left, right, i);
    }
  }

  lemma OccursInJoinedLines(p: string, left: string, right: string, i: int)
    requires OneLine(p)
    ensures OccursAt(left + ("\n\n" + right), p, i) <==>
            OccursAt(left, p, i) || (i >= |left| + 2 && OccursAt(right, p, i - |left| - 2))
  {
    var s := left + ("\n\n" + right);
    assert s == (left + "\n\n") + right;
    OccursInJoin(p, left, "\n\n" + right, i);
    OccursInJoin(p, left + "\n\n", right, i);
    if OccursAt(s, p, i) && i < |left| + 2 {
      assert forall k :: 0 <= k < |p| ==> p[k] == s[i..i + |p|][k] == s[i + k];
      assert s[|left|] == '\n' && s[|left| + 1] == '\n';
    }
  }

  lemma OccurrenceIsStripped(p: string, r: string, i: int)
    requires OneLine(p) && OccursAt(r, p, i)
    ensures !IsSpace(r[i]) && !IsSpace(r[i + |p| - 1])
  {
    assert r[i] == r[i..i + |p|][0];
    assert r[i + |p| - 1] == r[i..i + |p|][|p| - 1];
  }

  /** Stripping keeps an occurrence, moved to the left by the white space removed there. */
  lemma StripKeepsOccurrence(p: string, r: string, i: int)
    requires OneLine(p) && OccursAt(r, p, i)
    ensures Contains(Strip(r), p)
  {
    OccurrenceIsStripped(p, r, i);
    StripLeftShape(r);
    StripRightShape(StripLeft(r));
    var a := StripLeft(r);
    var d := |r| - |a|;
    assert forall k :: 0 <= k < d ==> r[k] == r[..d][k];
    assert a[i - d..i - d + |p|] == r[i..i + |p|];
    OccurrenceIsStripped(p, a, i - d);
    var b := StripRight(a);
    assert forall k :: |b| <= k < |a| ==> a[k] == a[|b|..][k - |b|];
    assert i - d + |p| <= |b|;
    OccursInCommonPrefix(p, b, a, |b|, i - d);
  }

  lemma StripAddsNoOccurrence(p: string, r: string, i: int)
    requires p != "" && OccursAt(Strip(r), p, i)
    ensures Contains(r, p)
  {
    var a := StripLeft(r);
    var b := StripRight(a);
    StripLeftShape(r);
    StripRightShape(a);
    OccursInJoin(p, b, a[|b|..], i);
    assert a == b + a[|b|..];
    OccursInJoin(p, r[..|r| - |a|], a, |r| - |a| + i);
    assert r == r[..|r| - |a|] + a;
    assert OccursAt(r, p, |r| - |a| + i);
  }

  lemma StripKeepsMarkers(ms: seq<string>, r: string)
    requires Markers(ms)
    ensures HasMarker(ms, Strip(r)) <==> HasMarker(ms, r)
  {
    if HasMarker(ms, Strip(r)) {
      var i :| MarkerAt(ms, Strip(r), i);
      var m :| 0 <= m < |ms| && OccursAt(Strip(r), ms[m], i);
      StripAddsNoOccurrence(ms[m], r, i);
      var j :| OccursAt(r, ms[m], j);
      assert MarkerAt(ms, r, j);
    }
    if HasMarker(ms, r) {
      var i :| MarkerAt(ms, r, i);
      var m :| 0 <= m < |ms| && OccursAt(r, ms[m], i);
      StripKeepsOccurrence(ms[m], r, i);
      var j :| OccursAt(Strip(r), ms[m], j);
      assert MarkerAt(ms, Strip(r), j);
    }
  }

  // ---------------------------------------------------------------------
  // The quoted tail
  // ---------------------------------------------------------------------

  /** The quoted tail is stripped and starts with its marker. */
  lemma QuoteStartsWithMarker(ms: seq<string>, body: string)
    requires Markers(ms) && HasMarker(ms, body)
    ensures var q, quote := QuoteStart(ms, body), Quote(ms, body);
            q >= 0 && quote != "" && Stripped(quote) && MarkerAt(ms, quote, 0) && quote <= body[q..]
  {
    hide IsSpace;
    QuoteStartIsLeast(ms, body);
    StripShape(body[QuoteStart(ms, body)..]);
    var q := QuoteStart(ms, body);
    var m :| 0 <= m < |ms| && OccursAt(body, ms[m], q);
    assert body[q..][..|ms[m]|] == ms[m];
    StripKeepsPrefix(body[q..], ms[m]);
    assert OccursAt(Quote(ms, body), ms[m], 0);
  }

  /** Of stripped text the quoted tail is everything from the first marker on. */
  lemma QuoteOfStripped(ms: seq<string>, b: string)
    requires Markers(ms) && Stripped(b) && HasMarker(ms, b)
    ensures QuoteStart(ms, b) >= 0 && Quote(ms, b) == b[QuoteStart(ms, b)..]
  {
    hide IsSpace;
    QuoteStartIsLeast(ms, b);
    var q := QuoteStart(ms, b);
    var m :| 0 <= m < |ms| && OccursAt(b, ms[m], q);
    OccurrenceIsStripped(ms[m], b, q);
    assert b[q..][|b[q..]| - 1] == b[|b| - 1];
    StripShape(b[q..]);
  }

  /** The quoted tail of a body built by a merge is the old tail, unless the
      reply brought a marker of its own; then it is longer. */
  lemma QuoteOfNewBody(ms: seq<string>, reply: string, body: string)
    requires Markers(ms)
    ensures var quote := Quote(ms, body); var again := Quote(ms, NewBody(reply, quote));
            if HasMarker(ms, reply) then |again| > |quote| else again == quote
  {
    hide IsSpace;
    StripShape(reply);
    QuoteStartIsLeast(ms, body);
    var t, quote := Strip(reply), Quote(ms, body);
    StripKeepsMarkers(ms, reply);
    if HasMarker(ms, body) {
      QuoteStartsWithMarker(ms, body);
      if t == "" {
        NoMarkerInEmpty(ms);
        assert IsQuoteStart(ms, quote, 0);
        QuoteStartUnique(ms, quote, 0);
        QuoteOfStripped(ms, quote);
      } else {
        QuoteOfJoin(ms, t, quote);
      }
    } else if HasMarker(ms, t) {
      QuoteStartsWithMarker(ms, t);
    } else {
      QuoteStartIsLeast(ms, t);
    }
  }

  lemma NoMarkerInEmpty(ms: seq<string>)
    requires Markers(ms)
    ensures !HasMarker(ms, "") && Quote(ms, "") == ""
  {
    QuoteStartIsLeast(ms, "");
  }

  lemma QuoteOfJoin(ms: seq<string>, t: string, quote: string)
    requires Markers(ms) && Stripped(t) && t != ""
    requires Stripped(quote) && MarkerAt(ms, quote, 0)
    ensures var again := Quote(ms, t + ("\n\n" + quote));
            if HasMarker(ms, t) then |again| > |quote| else again == quote
  {
    hide IsSpace;
    QuoteStartIsLeast(ms, t);
    var b := t + ("\n\n" + quote);
    forall i
      ensures MarkerAt(ms, b, i) <==> MarkerAt(ms, t, i) || (i >= |t| + 2 && MarkerAt(ms, quote, i - |t| - 2))
    {
      MarkerInJoin(ms, t, quote, i);
    }
    assert MarkerAt(ms, b, |t| + 2);
    assert b[|b| - 1] == quote[|quote| - 1];
    QuoteOfStripped(ms, b);
    if HasMarker(ms, t) {
      var i := QuoteStart(ms, t);
      assert MarkerAt(ms, b, i) && i < |t|;
      QuoteStartIsLeast(ms, b);
    } else {
      assert IsQuoteStart(ms, b, |t| + 2);
      QuoteStartUnique(ms, b, |t| + 2);
      assert b[|t| + 2..] == quote;
    }
  }

  // ---------------------------------------------------------------------
  // Merging
  // ---------------------------------------------------------------------

  /** An occurrence inside a common prefix is an occurrence in both strings. */
  lemma OccursInCommonPrefix(p: string, s: string, t: string, n: nat, j: nat)
    requires n <= |s| && n <= |t| && s[..n] == t[..n] && j + |p| <= n
    ensures OccursAt(s, p, j) <==> OccursAt(t, p, j)
  {
    assert s[j..j + |p|] == s[..n][j..j + |p|];
    assert t[j..j + |p|] == t[..n][j..j + |p|];
  }

  /** `content.split(sep, 1)`: the first separator of the head, the separator and
      any other text is still the old one, also when separators overlap the
      end of the head. */
  lemma SameCut(sep: string, content: string, tail: string)
    requires Find(content, sep) != -1
    ensures var head := content[..Find(content, sep)];
            Find(head + (sep + tail), sep) == |head|
  {
    FindFirst(content, sep);
    var cut := Find(content, sep);
    var head := content[..cut];
    var s := head + (sep + tail);
    assert s[cut..cut + |sep|] == sep;
    Split(sep, content);
    assert s[..cut + |sep|] == head + sep == content[..cut + |sep|];
    forall j | 0 <= j < cut
      ensures !OccursAt(s, sep, j)
    {
      OccursInCommonPrefix(sep, s, content, cut + |sep|, j);
    }
    FindIs(s, sep, cut);
  }

  lemma Split(sep: string, content: string)
    requires Find(content, sep) != -1
    ensures var cut := Find(content, sep);
            content == content[..cut] + (sep + content[cut + |sep|..])
  {
    FindFirst(content, sep);
    var cut := Find(content, sep);
    assert content == content[..cut] + (content[cut..cut + |sep|] + content[cut + |sep|..]);
  }

  /** Merging into a head, its separator and a body. */
  lemma MergeParts(sep: string, ms: seq<string>, head: string, body: string, reply: string)
    requires Find(head + (sep + body), sep) == |head|
    ensures Merge(sep, ms, head + (sep + body), reply) == head + (sep + NewBody(reply, Quote(ms, body)))
  {
    hide Strip, Find, QuoteStart, IsSpace;
    var content := head + (sep + body);
    assert content[..|head|] == head;
    assert content[|head| + |sep|..] == body;
  }

  lemma PartsOf(sep: string, content: string, tail: string)
    requires Find(content, sep) != -1
    requires var head := content[..Find(content, sep)]; Find(head + (sep + tail), sep) == |head|
    ensures var cut := Find(content, sep); var s := content[..cut] + (sep + tail);
            s[..cut] == content[..cut] && s[cut + |sep|..] == tail
  {
  }

  /** One merge: the text before the first separator is unchanged, the
      stripped reply follows it, and without a marker in the reply the
      earliest quoted tail survives, stripped. */
  lemma MergeKeepsHeadAndQuote(sep: string, ms: seq<string>, content: string, reply: string)
    requires Markers(ms) && Find(content, sep) != -1
    ensures var cut := Find(content, sep); var merged := Merge(sep, ms, content, reply);
            && Find(merged, sep) == cut
            && merged[..cut] == content[..cut]
            && Strip(reply) <= merged[cut + |sep|..]
            && (!HasMarker(ms, reply) ==> Quote(ms, merged[cut + |sep|..]) == Quote(ms, content[cut + |sep|..]))
  {
    hide IsSpace;
    var cut := Find(content, sep);
    var head, body := content[..cut], content[cut + |sep|..];
    var b := NewBody(reply, Quote(ms, body));
    SameCut(sep, content, b);
    PartsOf(sep, content, b);
    Split(sep, content);
    MergeParts(sep, ms, head, body, reply);
    QuoteOfNewBody(ms, reply, body);
  }

  /** Last writer wins exactly when the first reply carries no quote marker. */
  lemma LastWriterWins(sep: string, ms: seq<string>, content: string, first: string, second: string)
    requires Markers(ms) && Find(content, sep) != -1
    ensures Merge(sep, ms, Merge(sep, ms, content, first), second) == Merge(sep, ms, content, second)
            <==> !HasMarker(ms, first)
  {
    hide IsSpace;
    var cut := Find(content, sep);
    var head, body := content[..cut], content[cut + |sep|..];
    var b := NewBody(first, Quote(ms, body));
    Split(sep, content);
    SameCut(sep, content, b);
    MergeParts(sep, ms, head, body, first);
    MergeParts(sep, ms, head, body, second);
    MergeParts(sep, ms, head, b, second);
    QuoteOfNewBody(ms, first, body);
    if HasMarker(ms, first) {
      LongerQuoteLongerBody(second, Quote(ms, b), Quote(ms, body));
    }
  }

  lemma LongerQuoteLongerBody(reply: string, long: string, short: string)
    requires |long| > |short|
    ensures |NewBody(reply, long)| > |NewBody(reply, short)|
  {
  }

  // ---------------------------------------------------------------------
  // The draft format in use
  // ---------------------------------------------------------------------

  method MergeEmailReplyBody(content: string, reply: string) returns (merged: string)
    ensures merged == Merge(SEPARATOR, MARKERS, content, reply)
  {
    merged := MergeWith(SEPARATOR, MARKERS, content, reply);
  }

  lemma ActualMarkers()
    ensures Markers(MARKERS)
  {
    assert OneLine(MARKERS[0]) && OneLine(MARKERS[1]) && OneLine(MARKERS[2]);
  }

  /** For every draft with a separator and every pair of replies. */
  lemma DraftMergeIsLastWriterWins(content: string, first: string, second: string)
    requires Find(content, SEPARATOR) != -1
    ensures Merge(SEPARATOR, MARKERS, Merge(SEPARATOR, MARKERS, content, first), second)
              == Merge(SEPARATOR, MARKERS, content, second)
            <==> !HasMarker(MARKERS, first)
  {
    ActualMarkers();
    LastWriterWins(SEPARATOR, MARKERS, content, first, second);
  }

  /** A reply that quotes a message itself becomes part of the tail. */
  lemma QuotedReplySticks(content: string)
    requires Find(content, SEPARATOR) != -1
    ensures Merge(SEPARATOR, MARKERS, Merge(SEPARATOR, MARKERS, content, MARKERS[1]), "")
            != Merge(SEPARATOR, MARKERS, content, "")
  {
    assert OccursAt(MARKERS[1], MARKERS[1], 0);
    assert MarkerAt(MARKERS, MARKERS[1], 0);
    DraftMergeIsLastWriterWins(content, MARKERS[1], "");
  }

  // ---------------------------------------------------------------------
  // Building a draft
  // ---------------------------------------------------------------------

  datatype Headers = Headers(to: string, cc: string, bcc: string, subject: string,
                             inReplyTo: string, references: string, sourceUid: string, sourceFolder: string)

  function Optional(name: string, value: string): seq<string> {
    if value == "" then [] else [name + value]
  }

  function HeaderLines(h: Headers): seq<string> {
    ["To: " + h.to] + Optional("Cc: ", h.cc) + Optional("Bcc: ", h.bcc) + ["Subject: " + h.subject]
    + Optional("In-Reply-To: ", h.inReplyTo) + Optional("References: ", h.references)
    + Optional("X-Source-UID: ", h.sourceUid) + Optional("X-Source-Folder: ", h.sourceFolder)
  }

  function JoinLines(lines: seq<string>): string {
    if |lines| == 0 then "" else if |lines| == 1 then lines[0] else lines[0] + "\n" + JoinLines(lines[1..])
  }

  /** `_build_email_document_content`. */
  function Build(h: Headers, body: string): string {
    JoinLines(HeaderLines(h)) + SEPARATOR + body
  }

  ghost predicate SingleLine(h: Headers) {
    && '\n' !in h.to && '\n' !in h.cc && '\n' !in h.bcc && '\n' !in h.subject
    && '\n' !in h.inReplyTo && '\n' !in h.references && '\n' !in h.sourceUid && '\n' !in h.sourceFolder
  }

  /** One line of text that does not start with a dash. */
  ghost predicate PlainLine(line: string) {
    line != "" && line[0] != '-' && '\n' !in line
  }

  lemma HeaderLinesArePlain(h: Headers)
    requires SingleLine(h)
    ensures forall i :: 0 <= i < |HeaderLines(h)| ==> PlainLine(HeaderLines(h)[i])
  {
    assert PlainLine("To: " + h.to) && PlainLine("Subject: " + h.subject);
    assert PlainLine("Cc: " + h.cc) && PlainLine("Bcc: " + h.bcc);
    assert PlainLine("In-Reply-To: " + h.inReplyTo) && PlainLine("References: " + h.references);
    assert PlainLine("X-Source-UID: " + h.sourceUid) && PlainLine("X-Source-Folder: " + h.sourceFolder);
  }

  /** Every newline inside joined plain lines is followed by something other than a dash. */
  lemma {:induction false} NoDashAfterNewline(lines: seq<string>)
    requires forall i :: 0 <= i < |lines| ==> PlainLine(lines[i])
    ensures var s := JoinLines(lines);
            forall j :: 0 <= j < |s| && s[j] == '\n' ==> j + 1 < |s| && s[j + 1] != '-'
    ensures lines != [] ==> PlainLine(lines[0]) && JoinLines(lines) != "" && JoinLines(lines)[0] == lines[0][0]
  {
    if |lines| > 1 {
      NoDashAfterNewline(lines[1..]);
      var rest := JoinLines(lines[1..]);
      assert JoinLines(lines) == lines[0] + "\n" + rest;
    }
  }

  /** Merging into a freshly built draft with single-line headers replaces the
      body and nothing else. */
  lemma MergeIntoBuiltDraft(h: Headers, body: string, reply: string)
    requires SingleLine(h)
    ensures Merge(SEPARATOR, MARKERS, Build(h, body), reply) == Build(h, NewBody(reply, Quote(MARKERS, body)))
  {
    hide HeaderLines, NewBody, Quote, IsSpace;
    var head := JoinLines(HeaderLines(h));
    HeaderLinesArePlain(h);
    NoDashAfterNewline(HeaderLines(h));
    var s := head + (SEPARATOR + body);
    assert s[|head|..|head| + 5] == SEPARATOR;
    forall j | 0 <= j < |head|
      ensures !OccursAt(s, SEPARATOR, j)
    {
      assert s[j] == head[j] && (j + 5 <= |s| ==> s[j..j + 5][0] == s[j] && s[j..j + 5][1] == s[j + 1]);
      assert j + 1 < |head| ==> s[j + 1] == head[j + 1];
    }
    FindIs(s, SEPARATOR, |head|);
    MergeParts(SEPARATOR, MARKERS, head, body, reply);
    assert Build(h, body) == s;
    assert Build(h, NewBody(reply, Quote(MARKERS, body)))
        == head + (SEPARATOR + NewBody(reply, Quote(MARKERS, body)));
  }

  /** The text has this line, with more text behind it. */
  ghost predicate HasLine(text: string, line: string) {
    exists a: string, b: string ::
      text == a + line + b && (a == "" || a[|a| - 1] == '\n') && b != "" && b[0] == '\n'
  }

  lemma LineAtFront(line: string, rest: string)
    requires rest != "" && rest[0] == '\n'
    ensures HasLine(line + rest, line)
  {
    assert line + rest == "" + line + rest;
  }

  lemma LineBehind(front: string, tail: string, line: string)
    requires HasLine(tail, line)
    ensures HasLine(front + "\n" + tail, line)
  {
    var a: string, b: string :| tail == a + line + b && (a == "" || a[|a| - 1] == '\n') && b != "" && b[0] == '\n';
    var head := front + "\n" + a;
    assert head[|head| - 1] == '\n';
    assert front + "\n" + (a + line + b) == head + line + b;
  }

  lemma {:induction false} LineStands(lines: seq<string>, i: nat, rest: string)
    requires i < |lines| && rest != "" && rest[0] == '\n'
    ensures HasLine(JoinLines(lines) + rest, lines[i])
    decreases |lines|
  {
    hide HasLine;
    if |lines| == 1 {
      LineAtFront(lines[0], rest);
    } else {
      var tail := JoinLines(lines[1..]) + rest;
      assert JoinLines(lines) + rest == lines[0] + "\n" + tail;
      if i == 0 {
        LineAtFront(lines[0], "\n" + tail);
        assert lines[0] + ("\n" + tail) == lines[0] + "\n" + tail;
      } else {
        LineStands(lines[1..], i - 1, rest);
        LineBehind(lines[0], tail, lines[i]);
      }
    }
  }

  /** A freshly built draft has a line for each header that is given, under its
      name, and ends in the separator and the body. */
  lemma DraftHasHeaders(h: Headers, body: string)
    ensures var text := Build(h, body);
            && HasLine(text, "To: " + h.to) && HasLine(text, "Subject: " + h.subject)
            && (h.cc != "" ==> HasLine(text, "Cc: " + h.cc)) && (h.bcc != "" ==> HasLine(text, "Bcc: " + h.bcc))
            && (h.inReplyTo != "" ==> HasLine(text, "In-Reply-To: " + h.inReplyTo))
            && (h.references != "" ==> HasLine(text, "References: " + h.references))
            && (h.sourceUid != "" ==> HasLine(text, "X-Source-UID: " + h.sourceUid))
            && (h.sourceFolder != "" ==> HasLine(text, "X-Source-Folder: " + h.sourceFolder))
            && exists head: string :: text == head + "\n---\n" + body
  {
    var (lines, rest) := (HeaderLines(h), SEPARATOR + body);
    assert Build(h, body) == JoinLines(lines) + rest;
    forall line | line in lines
      ensures HasLine(Build(h, body), line)
    {
      var i :| 0 <= i < |lines| && lines[i] == line;
      LineStands(lines, i, rest);
    }
    LinesOf(h);
    hide HasLine, HeaderLines;
  }

  lemma LinesOf(h: Headers)
    ensures "To: " + h.to in HeaderLines(h) && "Subject: " + h.subject in HeaderLines(h)
    ensures h.cc != "" ==> "Cc: " + h.cc in HeaderLines(h)
    ensures h.bcc != "" ==> "Bcc: " + h.bcc in HeaderLines(h)
    ensures h.inReplyTo != "" ==> "In-Reply-To: " + h.inReplyTo in HeaderLines(h)
    ensures h.references != "" ==> "References: " + h.references in HeaderLines(h)
    ensures h.sourceUid != "" ==> "X-Source-UID: " + h.sourceUid in HeaderLines(h)
    ensures h.sourceFolder != "" ==> "X-Source-Folder: " + h.sourceFolder in HeaderLines(h)
  {
  }

  /** Without the separator there is no draft to keep, and the reply replaces all. */
  lemma ReplyReplacesAll(content: string, reply: string)
    requires !Contains(content, "\n---\n")
    ensures Merge(SEPARATOR, MARKERS, content, reply) == reply
  {
    FindFirst(content, SEPARATOR);
    hide Find, Contains;
  }
}
