/** Listing the events of a window (routes/calendar_routes.py): the filter in SQL
    in front of the expansion, and how windows fit together. */
module CalendarWindows {
  import opened Options
  import opened SortedText
  import opened Recurrence

  /** A stored event with the columns that the query looks at, its parsed rule,
      and the name and owner of its calendar. */
  datatype Row = Row(
    event: Event, parsed: Parsed, status: string, calendarId: string, calendarName: string, owner: string)

  /** The WHERE clause of `list_events`; a null rule is stored as "". */
  predicate Selected(row: Row, owner: string, calendar: string, start: int, end: int) {
    var ev := row.event;
    && row.status != "cancelled"
    && row.owner == owner
    && ( || (ev.rrule == "" && ev.dtstart < end && ev.dtend > start)
         || (ev.rrule != "" && ev.dtstart < end))
    && (calendar == "" || row.calendarId == calendar || row.calendarName == calendar)
  }

  predicate Visible(row: Row, owner: string, calendar: string) {
    && row.status != "cancelled" && row.owner == owner
    && (calendar == "" || row.calendarId == calendar || row.calendarName == calendar)
  }

  /** What a row shows without any filter: every occurrence that overlaps the
      window and is not excluded, or the event itself if it overlaps. */
  ghost function Due(row: Row, stamp: Stamp, start: int, end: int): seq<Item> {
    var ev := row.event;
    if Blank(ev.rrule) || row.parsed.Malformed?
    then if Overlaps(ev.dtstart, Duration(ev), start, end) then [PlainItem(ev)] else []
    else Expansion(ev, row.parsed, stamp, start, end)
  }

  ghost function Shown(row: Row, owner: string, calendar: string, stamp: Stamp, start: int, end: int): seq<Item> {
    if Selected(row, owner, calendar, start, end) then Expansion(row.event, row.parsed, stamp, start, end) else []
  }

  /** Concatenated over the rows, in their order. */
  ghost function Listed(rows: seq<Row>, owner: string, calendar: string, stamp: Stamp, start: int, end: int): seq<Item> {
    if rows == [] then []
    else Listed(rows[..|rows| - 1], owner, calendar, stamp, start, end)
         + Shown(rows[|rows| - 1], owner, calendar, stamp, start, end)
  }

  ghost function AllDue(rows: seq<Row>, owner: string, calendar: string, stamp: Stamp, start: int, end: int): seq<Item> {
    if rows == [] then []
    else AllDue(rows[..|rows| - 1], owner, calendar, stamp, start, end)
         + (if Visible(rows[|rows| - 1], owner, calendar) then Due(rows[|rows| - 1], stamp, start, end) else [])
  }

  ghost predicate GoodRows(rows: seq<Row>) {
    forall r :: r in rows ==> Good(r.parsed, r.event.dtstart)
  }

  predicate AnyTruncated(items: seq<Item>) {
    exists i :: 0 <= i < |items| && items[i].truncated
  }

  /** `rows` come in the order of the query; the response is sorted by the text that
      shows the start, and items with the same text stay in order. */
  method ListEvents(
    rows: seq<Row>, owner: string, calendar: string, stamp: Stamp, shown: Item -> string, start: int, end: int)
    returns (items: seq<Item>, truncated: bool)
    requires GoodRows(rows)
    ensures items == SortBy(Listed(rows, owner, calendar, stamp, start, end), shown)
    ensures truncated <==> AnyTruncated(items)
  {
    hide Expansion, Blank, Selected;
    items := [];
    for i := 0 to |rows|
      invariant items == Listed(rows[..i], owner, calendar, stamp, start, end)
    {
      assert rows[..i + 1][..i] == rows[..i];
      if Selected(rows[i], owner, calendar, start, end) {
        var more := ExpandRrule(rows[i].event, rows[i].parsed, stamp, start, end);
        items := items + more;
      }
    }
    assert rows[..|rows|] == rows;
    truncated := false;
    for i := 0 to |items|
      invariant truncated <==> exists j :: 0 <= j < i && items[j].truncated
    {
      truncated := truncated || items[i].truncated;
    }
    SortKeepsFlags(items, shown);
    items := SortBy(items, shown);
  }

  lemma SortKeepsFlags(items: seq<Item>, shown: Item -> string)
    ensures AnyTruncated(SortBy(items, shown)) <==> AnyTruncated(items)
  {
    var sorted := SortBy(items, shown);
    SortBySorts(items, shown);
    hide SortBy, InOrder, Having;
    forall i | 0 <= i < |items|
      ensures items[i].truncated ==> AnyTruncated(sorted)
    {
      assert items[i] in sorted;
    }
    forall i | 0 <= i < |sorted|
      ensures sorted[i].truncated ==> AnyTruncated(items)
    {
      assert sorted[i] in items;
    }
  }

  /** Whatever the rows, the response holds the listed items, each as often as
      listed, by their shown starts, and in the order of the query where those agree. */
  lemma ResponseInOrder(
    rows: seq<Row>, owner: string, calendar: string, stamp: Stamp, shown: Item -> string, start: int, end: int)
    ensures var listed := Listed(rows, owner, calendar, stamp, start, end); var response := SortBy(listed, shown);
            && InOrder(response, shown) && multiset(response) == multiset(listed)
            && forall text :: Having(response, shown, text) == Having(listed, shown, text)
  {
    SortBySorts(Listed(rows, owner, calendar, stamp, start, end), shown);
  }

  // ---------------------------------------------------------------------
  // The filter loses nothing
  // ---------------------------------------------------------------------

  /** A series that starts at or after the end has no hit. */
  lemma LateSeriesIsEmpty(ev: Event, rule: Rule, stamp: Stamp, start: int, end: int)
    requires Rising(rule, ev.dtstart) && ev.dtstart >= end
    ensures AllHits(ev, rule, stamp, start, end) == []
  {
  }

  /** A rule of white space only takes the recurring branch of the query and the
      non-recurring one of the expansion. */
  predicate PastWithBlankRule(row: Row, start: int, end: int) {
    var ev := row.event;
    ev.rrule != "" && Blank(ev.rrule) && ev.dtstart < end && ev.dtend <= start
  }

  /** Filter and expansion together show what is due, except that an event with a
      rule of white space only is also shown after it has ended. */
  lemma ShownIsDue(row: Row, owner: string, calendar: string, stamp: Stamp, start: int, end: int)
    requires Good(row.parsed, row.event.dtstart) && Visible(row, owner, calendar)
    ensures Shown(row, owner, calendar, stamp, start, end) == Due(row, stamp, start, end)
            <==> !PastWithBlankRule(row, start, end)
  {
    BlankEmpty();
    hide Blank, AllHits, CutOff;
    if !Blank(row.event.rrule) && row.parsed.Parsed? && row.event.dtstart >= end {
      LateSeriesIsEmpty(row.event, row.parsed.rule, stamp, start, end);
    }
  }

  lemma BlankEmpty()
    ensures Blank("")
  {
  }

  /** So the query loses no occurrence of any event. */
  lemma {:induction false} ListedIsDue(rows: seq<Row>, owner: string, calendar: string, stamp: Stamp, start: int, end: int)
    requires GoodRows(rows) && forall r :: r in rows ==> !PastWithBlankRule(r, start, end)
    ensures Listed(rows, owner, calendar, stamp, start, end) == AllDue(rows, owner, calendar, stamp, start, end)
  {
    hide Shown, Due, PastWithBlankRule, Good;
    if rows != [] {
      var front, last := rows[..|rows| - 1], rows[|rows| - 1];
      ListedIsDue(front, owner, calendar, stamp, start, end);
      if Visible(last, owner, calendar) {
        ShownIsDue(last, owner, calendar, stamp, start, end);
      } else {
        HiddenShowsNothing(last, owner, calendar, stamp, start, end);
      }
    }
  }

  lemma HiddenShowsNothing(row: Row, owner: string, calendar: string, stamp: Stamp, start: int, end: int)
    requires !Visible(row, owner, calendar)
    ensures Shown(row, owner, calendar, stamp, start, end) == []
  {
  }

  // ---------------------------------------------------------------------
  // What an item says
  // ---------------------------------------------------------------------

  /** An item has the length and the marks of its event, overlaps the window, and
      is the event itself or a start of the series under its own uid. */
  ghost predicate ItemOf(it: Item, ev: Event, stamp: Stamp, start: int, end: int) {
    && it.dtend - it.dtstart == ev.dtend - ev.dtstart
    && it.dtstart < end && it.dtend > start
    && it.seriesUid == ev.uid && it.allDay == ev.allDay && it.isUtc == ev.isUtc
    && (if it.isRecurrence then it.uid == ev.uid + "::" + stamp(ev.allDay, it.dtstart)
        else it.uid == ev.uid && it.dtstart == ev.dtstart && !it.truncated)
  }

  lemma ExpandedItem(ev: Event, rule: Rule, stamp: Stamp, start: int, end: int, i: nat)
    requires Rising(rule, ev.dtstart) && !Blank(ev.rrule) && i < |Expansion(ev, Parsed(rule), stamp, start, end)|
    ensures var it := Expansion(ev, Parsed(rule), stamp, start, end)[i];
            && ItemOf(it, ev, stamp, start, end) && it.isRecurrence
            && (it.truncated <==> CutOff(ev, rule, stamp, start, end))
            && (exists k: nat :: rule(k) == Some(it.dtstart))
  {
    hide Blank, Hits, AllHits, CutOff, Excluded;
    var hits := AllHits(ev, rule, stamp, start, end);
    AllHitsExact(ev, rule, stamp, start, end, hits[i]);
    var k: nat :| rule(k) == Some(hits[i]);
  }

  lemma ShownItem(row: Row, owner: string, calendar: string, stamp: Stamp, start: int, end: int, it: Item)
    requires Good(row.parsed, row.event.dtstart) && !PastWithBlankRule(row, start, end)
    requires it in Shown(row, owner, calendar, stamp, start, end)
    ensures Visible(row, owner, calendar) && ItemOf(it, row.event, stamp, start, end)
    ensures !it.isRecurrence <==> Blank(row.event.rrule) || row.parsed.Malformed?
  {
    var (ev, items) := (row.event, Expansion(row.event, row.parsed, stamp, start, end));
    if !Blank(ev.rrule) && row.parsed.Parsed? {
      var i :| 0 <= i < |items| && items[i] == it;
      ExpandedItem(ev, row.parsed.rule, stamp, start, end, i);
    }
    BlankEmpty();
    hide Blank, Expansion;
  }

  ghost predicate FromRow(it: Item, row: Row, owner: string, calendar: string, stamp: Stamp, start: int, end: int) {
    && row.owner == owner && row.status != "cancelled"
    && (calendar != "" ==> calendar == row.calendarId || calendar == row.calendarName)
    && ItemOf(it, row.event, stamp, start, end)
  }

  /** Every item of a response is that of a row of the caller's that is not
      cancelled, and of the calendar that was asked for, with the length of the
      event, within the window. */
  lemma {:induction false} ListedItems(
    rows: seq<Row>, owner: string, calendar: string, stamp: Stamp, start: int, end: int, it: Item)
    requires GoodRows(rows) && forall r :: r in rows ==> !PastWithBlankRule(r, start, end)
    requires it in Listed(rows, owner, calendar, stamp, start, end)
    ensures exists r :: r in rows && FromRow(it, r, owner, calendar, stamp, start, end)
  {
    hide Shown, ItemOf, PastWithBlankRule, Good;
    var front, last := rows[..|rows| - 1], rows[|rows| - 1];
    if it in Shown(last, owner, calendar, stamp, start, end) {
      ShownItem(last, owner, calendar, stamp, start, end, it);
      assert last in rows && FromRow(it, last, owner, calendar, stamp, start, end);
    } else {
      ListedItems(front, owner, calendar, stamp, start, end, it);
    }
  }

  // ---------------------------------------------------------------------
  // Adjacent windows
  // ---------------------------------------------------------------------

  ghost predicate InWindow(ev: Event, rule: Rule, stamp: Stamp, start: int, end: int, t: int) {
    t in AllHits(ev, rule, stamp, start, end)
  }

  /** An occurrence that ends at or before the boundary it starts after. */
  ghost predicate FallsBetween(ev: Event, rule: Rule, stamp: Stamp, a: int, b: int, c: int, t: int) {
    InWindow(ev, rule, stamp, a, c, t) && t >= b && t + Duration(ev) <= b
  }

  lemma SplitHit(ev: Event, rule: Rule, stamp: Stamp, a: int, b: int, c: int, t: int)
    requires Rising(rule, ev.dtstart) && a <= b <= c
    ensures InWindow(ev, rule, stamp, a, c, t) <==>
            || InWindow(ev, rule, stamp, a, b, t) || InWindow(ev, rule, stamp, b, c, t)
            || FallsBetween(ev, rule, stamp, a, b, c, t)
    ensures FallsBetween(ev, rule, stamp, a, b, c, t) ==>
            !InWindow(ev, rule, stamp, a, b, t) && !InWindow(ev, rule, stamp, b, c, t)
  {
    AllHitsExact(ev, rule, stamp, a, b, t);
    AllHitsExact(ev, rule, stamp, b, c, t);
    AllHitsExact(ev, rule, stamp, a, c, t);
    hide AllHits, Excluded;
  }

  ghost predicate Untruncated(ev: Event, rule: Rule, stamp: Stamp, start: int, end: int) {
    !CutOff(ev, rule, stamp, start, end)
  }

  /** The starts of the occurrences that an expansion returns. */
  function Starts(items: seq<Item>): set<int> {
    set i | 0 <= i < |items| :: items[i].dtstart
  }

  lemma UntruncatedStarts(ev: Event, rule: Rule, stamp: Stamp, start: int, end: int, t: int)
    requires Rising(rule, ev.dtstart) && !Blank(ev.rrule) && Untruncated(ev, rule, stamp, start, end)
    ensures t in Starts(Expansion(ev, Parsed(rule), stamp, start, end)) <==> InWindow(ev, rule, stamp, start, end, t)
  {
    hide Blank, Overlaps, Excluded;
    var hits := AllHits(ev, rule, stamp, start, end);
    var items := Expansion(ev, Parsed(rule), stamp, start, end);
    UntruncatedIsAll(ev, rule, stamp, start, end);
    hide AllHits, CutOff, Expansion;
    assert forall i :: 0 <= i < |items| ==> items[i].dtstart == hits[i];
  }

  /** Without the flag the result is complete, with it there is more. */
  lemma UntruncatedIsAll(ev: Event, rule: Rule, stamp: Stamp, start: int, end: int)
    requires Rising(rule, ev.dtstart)
    ensures var hits := AllHits(ev, rule, stamp, start, end);
            && (!CutOff(ev, rule, stamp, start, end) ==> |hits| <= LIMIT && First(hits, LIMIT) == hits)
            && (CutOff(ev, rule, stamp, start, end) ==> |First(hits, LIMIT)| == LIMIT)
  {
    var hits := AllHits(ev, rule, stamp, start, end);
    if |hits| > LIMIT {
      HitsExact(ev, rule, stamp, start, end, Horizon(ev, end));
      AllHitsExact(ev, rule, stamp, start, end, hits[LIMIT]);
      assert hits[LIMIT - 1] < hits[LIMIT];
      var i: nat :| rule(i) == Some(hits[LIMIT]);
      assert Overlaps(rule(i).value, Duration(ev), start, end);
    }
  }

  /** Untruncated results for [a, b) and [b, c) together are those for [a, c)
      whenever the event has a positive duration; otherwise exactly when no
      occurrence falls between the two. */
  lemma WindowsCompose(ev: Event, rule: Rule, stamp: Stamp, a: int, b: int, c: int)
    requires Rising(rule, ev.dtstart) && !Blank(ev.rrule) && a <= b <= c
    requires Untruncated(ev, rule, stamp, a, b) && Untruncated(ev, rule, stamp, b, c)
    requires Untruncated(ev, rule, stamp, a, c)
    ensures var p := Parsed(rule);
            Starts(Expansion(ev, p, stamp, a, b)) + Starts(Expansion(ev, p, stamp, b, c))
              == Starts(Expansion(ev, p, stamp, a, c))
            <==> forall t :: !FallsBetween(ev, rule, stamp, a, b, c, t)
    ensures Duration(ev) > 0 ==> forall t :: !FallsBetween(ev, rule, stamp, a, b, c, t)
  {
    var p := Parsed(rule);
    var left, right := Starts(Expansion(ev, p, stamp, a, b)), Starts(Expansion(ev, p, stamp, b, c));
    var whole := Starts(Expansion(ev, p, stamp, a, c));
    forall t
      ensures t in left <==> InWindow(ev, rule, stamp, a, b, t)
      ensures t in right <==> InWindow(ev, rule, stamp, b, c, t)
      ensures t in whole <==> InWindow(ev, rule, stamp, a, c, t)
      ensures t in whole <==> t in left || t in right || FallsBetween(ev, rule, stamp, a, b, c, t)
      ensures FallsBetween(ev, rule, stamp, a, b, c, t) ==> t !in left && t !in right
    {
      UntruncatedStarts(ev, rule, stamp, a, b, t);
      UntruncatedStarts(ev, rule, stamp, b, c, t);
      UntruncatedStarts(ev, rule, stamp, a, c, t);
      SplitHit(ev, rule, stamp, a, b, c, t);
    }
    hide Starts, Expansion, InWindow;
    if forall t :: !FallsBetween(ev, rule, stamp, a, b, c, t) {
      assert left + right == whole;
    }
  }

  /** The two windows share exactly the occurrences that span the boundary. */
  lemma SharedOccurrences(ev: Event, rule: Rule, stamp: Stamp, a: int, b: int, c: int, t: int)
    requires Rising(rule, ev.dtstart) && a <= b <= c
    ensures InWindow(ev, rule, stamp, a, b, t) && InWindow(ev, rule, stamp, b, c, t)
            <==> InWindow(ev, rule, stamp, a, c, t) && t < b < t + Duration(ev)
  {
    AllHitsExact(ev, rule, stamp, a, b, t);
    AllHitsExact(ev, rule, stamp, b, c, t);
    AllHitsExact(ev, rule, stamp, a, c, t);
    hide AllHits, Excluded;
  }

  /** A series without duration loses every start that lies on a boundary: the
      window around it lists it, and neither of the two halves does. */
  lemma ZeroDurationIsLost(ev: Event, rule: Rule, stamp: Stamp, i: nat, a: int, b: int, c: int)
    requires Rising(rule, ev.dtstart) && Duration(ev) == 0
    requires a < b < c && rule(i) == Some(b) && !Excluded(ev, stamp, b)
    ensures InWindow(ev, rule, stamp, a, c, b)
    ensures !InWindow(ev, rule, stamp, a, b, b) && !InWindow(ev, rule, stamp, b, c, b)
  {
    hide AllHits, Excluded;
    AllHitsExact(ev, rule, stamp, a, c, b);
    AllHitsExact(ev, rule, stamp, a, b, b);
    AllHitsExact(ev, rule, stamp, b, c, b);
  }
}
