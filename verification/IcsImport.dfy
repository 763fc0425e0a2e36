/** Importing a calendar file (routes/calendar_routes.py): deduplication against
    the stored rows, repair of stored rows, and clamping of durations. Times are
    seconds; a day starts at every multiple of `DAY`. */
module IcsImport {
  import opened Options

  const DAY := 86400
  const HOUR := 3600

  /** A parsed DTSTART or DTEND; `utc` is the zoned time converted. */
  datatype When = Date(midnight: int) | Local(wall: int) | Zoned(wall: int, utc: int)

  datatype Text = Text(summary: string, description: string, location: string, rrule: string)

  datatype VEvent = VEvent(dtstart: Option<When>, dtend: Option<When>, uid: string, text: Text)

  /** A stored event of the target calendar; its fresh uid is left out. */
  datatype Row = Row(dtstart: int, dtend: int, allDay: bool, isUtc: bool, text: Text)

  /** `_ics_naive_dtstart`. */
  function NaiveStart(w: When): int {
    match w
    case Date(midnight) => midnight
    case Local(wall) => wall
    case Zoned(_, utc) => utc
  }

  function EnsurePositive(start: int, end: int, allDay: bool): (r: int)
    ensures r > start && (end > start ==> r == end)
  {
    if end <= start then start + (if allDay then DAY else HOUR) else end
  }

  function MidnightOf(t: int): int {
    (t / DAY) * DAY
  }

  /** The calendar date of a value, at midnight. */
  function DateOf(w: When): int {
    match w
    case Date(midnight) => MidnightOf(midnight)
    case Local(wall) => MidnightOf(wall)
    case Zoned(wall, _) => MidnightOf(wall)
  }

  /** The end before clamping. A timed start with a date as end raises, since a
      date and a datetime do not compare. */
  function RawEnd(start: When, dtend: Option<When>): Result<int, ()> {
    match start
    case Date(midnight) => Ok(if dtend.Some? then DateOf(dtend.value) else midnight + DAY)
    case _ =>
      match dtend
      case None => Ok(NaiveStart(start) + HOUR)
      case Some(Date(_)) => Err(())
      case Some(w) => Ok(NaiveStart(w))
  }

  /** The row made from a VEVENT that has a start. */
  function NewRow(e: VEvent): Result<Row, ()>
    requires e.dtstart.Some?
  {
    var w := e.dtstart.value;
    match RawEnd(w, e.dtend)
    case Err(_) => Err(())
    case Ok(end) =>
      Ok(Row(NaiveStart(w), EnsurePositive(NaiveStart(w), end, w.Date?), w.Date?, w.Zoned?, e.text))
  }

  // ---------------------------------------------------------------------
  // The loop
  // ---------------------------------------------------------------------

  predicate Same(row: Row, start: int, summary: string) {
    row.dtstart == start && row.text.summary == summary
  }

  /** The index of the first stored row with this start and summary, or |rows|. */
  function Lookup(rows: seq<Row>, start: int, summary: string): (i: nat)
    ensures i <= |rows|
    ensures i < |rows| ==> Same(rows[i], start, summary)
    ensures forall j :: 0 <= j < i ==> !Same(rows[j], start, summary)
  {
    if rows == [] || Same(rows[0], start, summary) then 0 else 1 + Lookup(rows[1..], start, summary)
  }

  function Clamped(row: Row): Row {
    row.(dtend := EnsurePositive(row.dtstart, row.dtend, row.allDay))
  }

  /** `rows` are the stored rows, with pending repairs; `added` are rows that no
      query sees before the commit. */
  datatype Progress = Progress(rows: seq<Row>, added: seq<Row>, imported: nat, skipped: nat, repaired: nat)

  function Start(rows: seq<Row>): Progress {
    Progress(rows, [], 0, 0, 0)
  }

  /** Deduplication needs a uid in the file, but compares start and summary. */
  function MatchOf(rows: seq<Row>, e: VEvent): Option<nat> {
    if e.dtstart.None? || e.uid == "" then None else
    var i := Lookup(rows, NaiveStart(e.dtstart.value), e.text.summary);
    if i < |rows| then Some(i) else None
  }

  function Take(p: Progress, e: VEvent): Result<Progress, ()> {
    if e.dtstart.None? then Ok(p.(skipped := p.skipped + 1)) else
    var found := MatchOf(p.rows, e);
    if found.Some? then
      var row := p.rows[found.value];
      var repairs := Clamped(row).dtend != row.dtend;
      Ok(p.(rows := p.rows[found.value := Clamped(row)],
            skipped := p.skipped + 1,
            repaired := p.repaired + (if repairs then 1 else 0)))
    else
      match NewRow(e)
      case Err(_) => Err(())
      case Ok(row) => Ok(p.(added := p.added + [row], imported := p.imported + 1))
  }

  function TakeAll(rows: seq<Row>, events: seq<VEvent>): Result<Progress, ()> {
    if events == [] then Ok(Start(rows)) else
    match TakeAll(rows, events[..|events| - 1])
    case Err(_) => Err(())
    case Ok(p) => Take(p, events[|events| - 1])
  }

  datatype Counts = Counts(imported: nat, skipped: nat, repaired: nat)

  /** Response and stored rows after the commit or the rollback. */
  function Import(rows: seq<Row>, events: seq<VEvent>): (Result<Counts, ()>, seq<Row>) {
    match TakeAll(rows, events)
    case Err(_) => (Err(()), rows)
    case Ok(p) => (Ok(Counts(p.imported, p.skipped, p.repaired)), p.rows + p.added)
  }

  lemma TakeAllNext(rows: seq<Row>, events: seq<VEvent>, i: nat)
    requires i < |events|
    ensures TakeAll(rows, events[..i + 1]) ==
            match TakeAll(rows, events[..i])
            case Err(_) => Err(())
            case Ok(p) => Take(p, events[i])
  {
    assert events[..i + 1][..i] == events[..i];
  }

  lemma {:induction false} ErrorStays(rows: seq<Row>, events: seq<VEvent>, i: nat)
    requires i <= |events| && TakeAll(rows, events[..i]).Err?
    ensures TakeAll(rows, events).Err?
    decreases |events| - i
  {
    if i == |events| {
      assert events[..i] == events;
    } else {
      TakeAllNext(rows, events, i);
      ErrorStays(rows, events, i + 1);
    }
  }

  class CalendarTable {
    var rows: seq<Row>

    method ImportIcs(events: seq<VEvent>) returns (response: Result<Counts, ()>)
      modifies this
      ensures (response, rows) == Import(old(rows), events)
    {
      hide TakeAll;
      var stored := rows;
      var added: seq<Row> := [];
      var imported: nat, skipped: nat, repaired: nat := 0, 0, 0;
      StartIs(rows, events);
      for i := 0 to |events|
        invariant rows == old(rows)
        invariant TakeAll(old(rows), events[..i]) == Ok(Progress(stored, added, imported, skipped, repaired))
      {
        TakeAllNext(old(rows), events, i);
        var e := events[i];
        if e.dtstart.None? {
          skipped := skipped + 1;
          continue;
        }
        if e.uid != "" {
          var at := Lookup(stored, NaiveStart(e.dtstart.value), e.text.summary);
          if at < |stored| {
            var fixedEnd := EnsurePositive(stored[at].dtstart, stored[at].dtend, stored[at].allDay);
            if fixedEnd != stored[at].dtend {
              stored := stored[at := stored[at].(dtend := fixedEnd)];
              repaired := repaired + 1;
            } else {
              assert stored[at := Clamped(stored[at])] == stored;
            }
            skipped := skipped + 1;
            continue;
          }
        }
        var row := NewRow(e);
        if row.Err? {
          ErrorStays(old(rows), events, i + 1);
          return Err(());
        }
        added := added + [row.value];
        imported := imported + 1;
      }
      assert events[..|events|] == events;
      rows := stored + added;
      response := Ok(Counts(imported, skipped, repaired));
    }
  }

  lemma StartIs(rows: seq<Row>, events: seq<VEvent>)
    ensures TakeAll(rows, events[..0]) == Ok(Start(rows))
  {
  }

  // ---------------------------------------------------------------------
  // One import
  // ---------------------------------------------------------------------

  predicate Positive(row: Row) {
    row.dtend > row.dtstart
  }

  /** Stored rows keep everything but a non-positive end, which may be clamped. */
  ghost predicate Repairs(before: seq<Row>, after: seq<Row>) {
    |after| == |before| && forall i :: 0 <= i < |before| ==> after[i] == before[i] || after[i] == Clamped(before[i])
  }

  lemma {:induction false} LookupSame(before: seq<Row>, after: seq<Row>, start: int, summary: string)
    requires Repairs(before, after)
    ensures Lookup(after, start, summary) == Lookup(before, start, summary)
  {
    var i, j := Lookup(before, start, summary), Lookup(after, start, summary);
    assert i < |before| ==> Same(after[i], start, summary);
    assert j < |after| ==> Same(before[j], start, summary);
  }

  /** Every VEVENT is counted once, repairs are among the skipped ones, and the
      stored rows stay the same rows. */
  lemma {:induction false} ImportCounts(rows: seq<Row>, events: seq<VEvent>)
    requires TakeAll(rows, events).Ok?
    ensures var p := TakeAll(rows, events).value;
            && p.imported + p.skipped == |events| && p.repaired <= p.skipped
            && |p.added| == p.imported && Repairs(rows, p.rows)
  {
    hide MatchOf, NewRow;
    if events != [] {
      ImportCounts(rows, events[..|events| - 1]);
      MatchInRange(TakeAll(rows, events[..|events| - 1]).value.rows, events[|events| - 1]);
    }
  }

  lemma MatchInRange(rows: seq<Row>, e: VEvent)
    ensures MatchOf(rows, e).Some? ==> e.dtstart.Some? && MatchOf(rows, e).value < |rows|
  {
  }

  lemma MatchSame(before: seq<Row>, after: seq<Row>, e: VEvent)
    requires Repairs(before, after)
    ensures MatchOf(after, e) == MatchOf(before, e)
  {
    if e.dtstart.Some? {
      LookupSame(before, after, NaiveStart(e.dtstart.value), e.text.summary);
    }
  }

  /** What one VEVENT of the file has led to: the stored row that it matches is
      positive, or a row made from it, positive as well, was added. */
  predicate Settled(rows: seq<Row>, p: Progress, e: VEvent) {
    e.dtstart.Some? ==>
      var m := MatchOf(rows, e);
      if m.Some? then m.value < |p.rows| && Positive(p.rows[m.value])
      else NewRow(e).Ok? && NewRow(e).value in p.added
  }

  lemma {:induction false} ImportSettles(rows: seq<Row>, events: seq<VEvent>)
    requires TakeAll(rows, events).Ok?
    ensures forall e :: e in events ==> Settled(rows, TakeAll(rows, events).value, e)
    ensures forall r :: r in TakeAll(rows, events).value.added ==> Positive(r)
  {
    hide MatchOf, NewRow, Clamped;
    if events != [] {
      var front, last := events[..|events| - 1], events[|events| - 1];
      var p, q := TakeAll(rows, front).value, TakeAll(rows, events).value;
      ImportSettles(rows, front);
      ImportCounts(rows, front);
      MatchSame(rows, p.rows, last);
      MatchInRange(rows, last);
      if last.dtstart.Some? {
        AddedArePositive(last);
      }
      if MatchOf(rows, last).Some? {
        ClampedIsPositive(p.rows[MatchOf(rows, last).value]);
      }
      forall e | e in events
        ensures Settled(rows, q, e)
      {
        assert e in front || e == last;
      }
    }
  }

  lemma AddedArePositive(e: VEvent)
    requires e.dtstart.Some?
    ensures NewRow(e).Ok? ==>
              && Positive(NewRow(e).value)
              && Same(NewRow(e).value, NaiveStart(e.dtstart.value), e.text.summary)
  {
  }

  lemma ClampedIsPositive(row: Row)
    ensures Positive(Clamped(row)) && (Positive(row) <==> Clamped(row) == row)
  {
  }

  /** After a successful import every row that was added, and every stored row
      that an event matched, is listed by the overlap filter: its end lies after
      its start. Nothing else of the stored rows has changed. */
  lemma ImportLeavesPositive(rows: seq<Row>, events: seq<VEvent>)
    requires Import(rows, events).0.Ok?
    ensures var (response, after) := Import(rows, events); var counts := response.value;
            && counts.imported + counts.skipped == |events| && counts.repaired <= counts.skipped
            && |after| == |rows| + counts.imported && Repairs(rows, after[..|rows|])
            && (forall i :: |rows| <= i < |after| ==> Positive(after[i]))
            && (forall e :: e in events && MatchOf(rows, e).Some? ==> Positive(after[MatchOf(rows, e).value]))
  {
    hide MatchOf, NewRow, Clamped, TakeAll;
    ImportCounts(rows, events);
    ImportSettles(rows, events);
    var p := TakeAll(rows, events).value;
    var after := p.rows + p.added;
    assert after[..|rows|] == p.rows;
    forall e | e in events && MatchOf(rows, e).Some?
      ensures MatchOf(rows, e).value < |rows| && Positive(after[MatchOf(rows, e).value])
    {
      MatchInRange(rows, e);
      MatchMeans(rows, e);
    }
  }

  lemma MatchMeans(rows: seq<Row>, e: VEvent)
    ensures MatchOf(rows, e).Some? ==> e.dtstart.Some? && e.uid != ""
  {
  }

  // ---------------------------------------------------------------------
  // Importing the same file again
  // ---------------------------------------------------------------------

  predicate Anonymous(e: VEvent) {
    e.dtstart.Some? && e.uid == ""
  }

  /** The rows of the events that have a start but no uid. */
  function AnonymousRows(events: seq<VEvent>): seq<Row> {
    if events == [] then [] else
    var front, e := AnonymousRows(events[..|events| - 1]), events[|events| - 1];
    if Anonymous(e) && NewRow(e).Ok? then front + [NewRow(e).value] else front
  }

  function CountAnonymous(events: seq<VEvent>): (n: nat)
    ensures n <= |events|
  {
    if events == [] then 0
    else CountAnonymous(events[..|events| - 1]) + (if Anonymous(events[|events| - 1]) then 1 else 0)
  }

  /** Rows in which the event finds nothing left to do. */
  predicate Stable(rows: seq<Row>, e: VEvent) {
    || e.dtstart.None?
    || (e.uid == "" && NewRow(e).Ok?)
    || (e.uid != "" && MatchOf(rows, e).Some? && Positive(rows[MatchOf(rows, e).value]))
  }

  lemma LookupInConcat(a: seq<Row>, b: seq<Row>, start: int, summary: string)
    ensures var i := Lookup(a + b, start, summary);
            i == if Lookup(a, start, summary) < |a| then Lookup(a, start, summary)
                 else |a| + Lookup(b, start, summary)
  {
    var i, j, k := Lookup(a + b, start, summary), Lookup(a, start, summary), Lookup(b, start, summary);
    assert i < |a + b| ==> Same((a + b)[i], start, summary);
    assert j < |a| ==> Same((a + b)[j], start, summary);
    assert k < |b| ==> Same((a + b)[|a| + k], start, summary);
  }

  lemma EventBecomesStable(rows: seq<Row>, p: Progress, e: VEvent)
    requires Repairs(rows, p.rows) && Settled(rows, p, e) && forall r :: r in p.added ==> Positive(r)
    requires Anonymous(e) ==> NewRow(e).Ok?
    ensures Stable(p.rows + p.added, e)
  {
    hide NewRow;
    if e.dtstart.Some? && e.uid != "" {
      var (start, summary) := (NaiveStart(e.dtstart.value), e.text.summary);
      LookupSame(rows, p.rows, start, summary);
      LookupInConcat(p.rows, p.added, start, summary);
      AddedArePositive(e);
      if MatchOf(rows, e).None? {
        assert NewRow(e).value in p.added;
      }
    }
  }

  lemma {:induction false} StableImport(rows: seq<Row>, events: seq<VEvent>)
    requires forall e :: e in events ==> Stable(rows, e)
    ensures TakeAll(rows, events) ==
            Ok(Progress(rows, AnonymousRows(events), CountAnonymous(events), |events| - CountAnonymous(events), 0))
  {
    hide MatchOf, NewRow;
    if events != [] {
      var front, last := events[..|events| - 1], events[|events| - 1];
      StableImport(rows, front);
      AnonymousMatchesNothing(rows, last);
      MatchInRange(rows, last);
      assert Stable(rows, last);
      MatchMeans(rows, last);
      if MatchOf(rows, last).Some? {
        var m := MatchOf(rows, last).value;
        ClampedIsPositive(rows[m]);
        assert rows[m := rows[m]] == rows;
      }
    }
  }

  lemma AnonymousMatchesNothing(rows: seq<Row>, e: VEvent)
    ensures e.uid == "" ==> MatchOf(rows, e).None?
  {
  }

  lemma {:induction false} AnonymousAreValid(rows: seq<Row>, events: seq<VEvent>)
    requires TakeAll(rows, events).Ok?
    ensures forall e :: e in events && Anonymous(e) ==> NewRow(e).Ok?
  {
    hide NewRow;
    if events != [] {
      AnonymousAreValid(rows, events[..|events| - 1]);
      assert events == events[..|events| - 1] + [events[|events| - 1]];
    }
  }

  /** Importing the same file again into the same calendar succeeds, repairs
      nothing, changes no stored row, and adds exactly the rows of the events
      that have a start but no uid, in their order. */
  lemma ReimportIsStable(rows: seq<Row>, events: seq<VEvent>)
    requires Import(rows, events).0.Ok?
    ensures var once := Import(rows, events).1;
            Import(once, events) ==
              (Ok(Counts(CountAnonymous(events), |events| - CountAnonymous(events), 0)), once + AnonymousRows(events))
  {
    hide MatchOf, NewRow, TakeAll, Stable;
    ImportCounts(rows, events);
    ImportSettles(rows, events);
    AnonymousAreValid(rows, events);
    var p := TakeAll(rows, events).value;
    forall e | e in events
      ensures Stable(p.rows + p.added, e)
    {
      EventBecomesStable(rows, p, e);
    }
    StableImport(p.rows + p.added, events);
  }

  // ---------------------------------------------------------------------
  // What deduplication sees
  // ---------------------------------------------------------------------

  /** An event that matches no stored row. */
  predicate Newcomer(rows: seq<Row>, e: VEvent) {
    e.dtstart.Some? && MatchOf(rows, e).None?
  }

  function Newcomers(rows: seq<Row>, events: seq<VEvent>): (list: seq<VEvent>)
    ensures forall e :: e in list ==> Newcomer(rows, e)
  {
    if events == [] then [] else
    var front, e := Newcomers(rows, events[..|events| - 1]), events[|events| - 1];
    if Newcomer(rows, e) then front + [e] else front
  }

  /** The rows that an import adds are those of the events that match no row that
      was stored before it, in their order. */
  lemma {:induction false} AddedAreNewcomers(rows: seq<Row>, events: seq<VEvent>)
    requires TakeAll(rows, events).Ok?
    ensures var (added, list) := (TakeAll(rows, events).value.added, Newcomers(rows, events));
            |added| == |list| && forall i :: 0 <= i < |list| ==> list[i].dtstart.Some? && NewRow(list[i]) == Ok(added[i])
  {
    hide MatchOf, NewRow;
    if events != [] {
      var front, last := events[..|events| - 1], events[|events| - 1];
      AddedAreNewcomers(rows, front);
      ImportCounts(rows, front);
      MatchSame(rows, TakeAll(rows, front).value.rows, last);
      MatchInRange(rows, last);
    }
  }

  /** Two events that deduplication takes for the same; their uids do not matter. */
  predicate SameEvent(e: VEvent, f: VEvent) {
    && e.dtstart.Some? && f.dtstart.Some?
    && NaiveStart(e.dtstart.value) == NaiveStart(f.dtstart.value) && e.text.summary == f.text.summary
  }

  predicate SameRow(r: Row, q: Row) {
    r.dtstart == q.dtstart && r.text.summary == q.text.summary
  }

  lemma {:induction false} InNewcomers(rows: seq<Row>, events: seq<VEvent>, e: VEvent)
    ensures e in Newcomers(rows, events) <==> e in events && Newcomer(rows, e)
  {
    if events != [] {
      hide Newcomer;
      InNewcomers(rows, events[..|events| - 1], e);
      assert events == events[..|events| - 1] + [events[|events| - 1]];
    }
  }

  predicate ListTwins(list: seq<VEvent>) {
    exists i, j :: 0 <= i < j < |list| && SameEvent(list[i], list[j])
  }

  /** Two events of a file that match no stored row and are taken for the same. */
  predicate Twins(rows: seq<Row>, events: seq<VEvent>) {
    exists a, b :: 0 <= a < b < |events| && SameEvent(events[a], events[b])
                   && Newcomer(rows, events[a]) && Newcomer(rows, events[b])
  }

  lemma TwinsOfList(before: seq<VEvent>, last: VEvent)
    ensures ListTwins(before + [last]) <==> ListTwins(before) || exists e :: e in before && SameEvent(e, last)
  {
    hide SameEvent;
    var list := before + [last];
    assert list[|before|] == last && forall k :: 0 <= k < |before| ==> list[k] == before[k];
    if exists e :: e in before && SameEvent(e, last) {
      var e :| e in before && SameEvent(e, last);
      var i :| 0 <= i < |before| && before[i] == e;
      assert SameEvent(list[i], list[|before|]);
    }
    if ListTwins(list) {
      var i, j :| 0 <= i < j < |list| && SameEvent(list[i], list[j]);
      assert before[i] in before;
    }
  }

  lemma TwinsOfEvents(rows: seq<Row>, front: seq<VEvent>, last: VEvent)
    ensures Twins(rows, front + [last]) <==>
            || Twins(rows, front)
            || (Newcomer(rows, last) && exists e :: e in front && Newcomer(rows, e) && SameEvent(e, last))
  {
    hide SameEvent, Newcomer;
    var events := front + [last];
    assert events[|front|] == last && forall k :: 0 <= k < |front| ==> events[k] == front[k];
    if Newcomer(rows, last) && exists e :: e in front && Newcomer(rows, e) && SameEvent(e, last) {
      var e :| e in front && Newcomer(rows, e) && SameEvent(e, last);
      var a :| 0 <= a < |front| && front[a] == e;
      assert SameEvent(events[a], events[|front|]);
    }
    if Twins(rows, events) {
      var a, b :| 0 <= a < b < |events| && SameEvent(events[a], events[b])
                  && Newcomer(rows, events[a]) && Newcomer(rows, events[b]);
      assert front[a] in front;
    }
  }

  lemma {:induction false} TwinNewcomers(rows: seq<Row>, events: seq<VEvent>)
    ensures ListTwins(Newcomers(rows, events)) <==> Twins(rows, events)
  {
    if events != [] {
      hide SameEvent, Newcomer, ListTwins, Twins;
      var front, last := events[..|events| - 1], events[|events| - 1];
      var before := Newcomers(rows, front);
      TwinNewcomers(rows, front);
      forall e
        ensures e in before <==> e in front && Newcomer(rows, e)
      {
        InNewcomers(rows, front, e);
      }
      TwinsOfList(before, last);
      TwinsOfEvents(rows, front, last);
      assert events == front + [last];
    }
  }

  /** No two of the rows that an import adds share start and summary exactly when
      no two events of the file that match no stored row do. */
  lemma NoTwinsExactly(rows: seq<Row>, events: seq<VEvent>)
    requires TakeAll(rows, events).Ok?
    ensures var added := TakeAll(rows, events).value.added;
            (exists i, j :: 0 <= i < j < |added| && SameRow(added[i], added[j])) <==> Twins(rows, events)
  {
    AddedAreNewcomers(rows, events);
    TwinNewcomers(rows, events);
    var (added, list) := (TakeAll(rows, events).value.added, Newcomers(rows, events));
    forall i | 0 <= i < |list|
      ensures Newcomer(rows, list[i]) && Same(added[i], NaiveStart(list[i].dtstart.value), list[i].text.summary)
    {
      assert list[i] in list;
      AddedArePositive(list[i]);
    }
    hide TakeAll, Newcomers, MatchOf, Twins;
    assert forall i, j :: 0 <= i < j < |list| ==> (SameEvent(list[i], list[j]) <==> SameRow(added[i], added[j]));
  }

  /** After a file has been imported, a later event with a uid is dropped exactly
      when it matched a row from before, or an event of that file that was stored
      has its start and summary, whatever the uids are. */
  lemma DroppedExactly(rows: seq<Row>, first: seq<VEvent>, f: VEvent)
    requires Import(rows, first).0.Ok? && f.dtstart.Some? && f.uid != ""
    ensures MatchOf(Import(rows, first).1, f).Some? <==>
            MatchOf(rows, f).Some? || exists e :: e in first && Newcomer(rows, e) && SameEvent(e, f)
  {
    ImportCounts(rows, first);
    AddedAreNewcomers(rows, first);
    var p := TakeAll(rows, first).value;
    var (start, summary, list) := (NaiveStart(f.dtstart.value), f.text.summary, Newcomers(rows, first));
    LookupSame(rows, p.rows, start, summary);
    LookupInConcat(p.rows, p.added, start, summary);
    forall i | 0 <= i < |list|
      ensures Same(p.added[i], start, summary) <==> SameEvent(list[i], f)
      ensures list[i] in first && Newcomer(rows, list[i])
    {
      assert list[i] in list;
      InNewcomers(rows, first, list[i]);
      AddedArePositive(list[i]);
    }
    hide TakeAll, Newcomers;
    if exists e :: e in first && Newcomer(rows, e) && SameEvent(e, f) {
      var e :| e in first && Newcomer(rows, e) && SameEvent(e, f);
      InNewcomers(rows, first, e);
      var i :| 0 <= i < |list| && list[i] == e;
      assert Same(p.added[i], start, summary);
    }
    if Lookup(p.added, start, summary) < |p.added| {
      var i := Lookup(p.added, start, summary);
      assert SameEvent(list[i], f);
    }
  }

  /** What that means for importing the event: no row for it, or its own. */
  lemma DroppedOrStored(rows: seq<Row>, f: VEvent)
    requires f.dtstart.Some? && f.uid != ""
    ensures MatchOf(rows, f).Some? ==>
              && Import(rows, [f]).0.Ok? && Import(rows, [f]).0.value.imported == 0
              && |Import(rows, [f]).1| == |rows| && Repairs(rows, Import(rows, [f]).1)
    ensures MatchOf(rows, f).None? && NewRow(f).Ok? ==>
              Import(rows, [f]) == (Ok(Counts(1, 0, 0)), rows + [NewRow(f).value])
  {
    hide NewRow, MatchOf;
    assert [f][..0] == [];
    assert TakeAll(rows, []) == Ok(Start(rows));
    assert TakeAll(rows, [f]) == Take(Start(rows), f);
    MatchInRange(rows, f);
    var none: seq<Row> := [];
    assert MatchOf(rows, f).None? && NewRow(f).Ok? ==> none + [NewRow(f).value] == [NewRow(f).value];
    if MatchOf(rows, f).Some? {
      var m := MatchOf(rows, f).value;
      assert rows[m := Clamped(rows[m])] + none == rows[m := Clamped(rows[m])];
    }
  }

  /** Two files, each with one event: the same start and summary under different
      uids, and the second event is lost. */
  lemma DifferentUidsMerge(e: VEvent, f: VEvent)
    requires NewRowOk(e) && e.uid != "" && f.uid != "" && e.uid != f.uid && SameEvent(e, f)
    ensures Import(Import([], [e]).1, [f]) == (Ok(Counts(0, 1, 0)), [NewRow(e).value])
  {
    var none: seq<Row> := [];
    assert none + [NewRow(e).value] == [NewRow(e).value] && [NewRow(e).value] + none == [NewRow(e).value];
    DroppedOrStored([], e);
    AddedArePositive(e);
    var rows := [NewRow(e).value];
    hide NewRow;
    assert Lookup(rows, NaiveStart(f.dtstart.value), f.text.summary) == 0;
    ClampedIsPositive(rows[0]);
    assert [f][..0] == [];
    assert TakeAll(rows, []) == Ok(Start(rows));
    assert TakeAll(rows, [f]) == Take(Start(rows), f);
    assert rows[0 := rows[0]] == rows;
  }

  predicate NewRowOk(e: VEvent) {
    e.dtstart.Some? && NewRow(e).Ok?
  }

  /** The import of a file fails, leaving all rows as they were, exactly when
      some event that matches no stored row has a time as start and a date as end. */
  lemma {:induction false} ImportFailsExactly(rows: seq<Row>, events: seq<VEvent>)
    ensures TakeAll(rows, events).Err? <==>
            exists e :: e in events && e.dtstart.Some? && MatchOf(rows, e).None?
                        && !e.dtstart.value.Date? && e.dtend.Some? && e.dtend.value.Date?
  {
    hide MatchOf;
    if events != [] {
      var front, last := events[..|events| - 1], events[|events| - 1];
      assert events == front + [last];
      ImportFailsExactly(rows, front);
      if TakeAll(rows, front).Ok? {
        ImportCounts(rows, front);
        MatchSame(rows, TakeAll(rows, front).value.rows, last);
      }
    }
  }

  // ---------------------------------------------------------------------
  // What is stored of the file
  // ---------------------------------------------------------------------

  /** The end that a timed event gives, on the clock that is stored. */
  ghost predicate EndsAt(e: VEvent, end: int) {
    e.dtend.Some? && (e.dtend.value == Local(end) || (e.dtend.value.Zoned? && e.dtend.value.utc == end))
  }

  /** The midnight of the day that an end falls on, by its own clock. */
  ghost predicate EndsOn(e: VEvent, day: int) {
    && e.dtend.Some? && day % 86400 == 0
    && (match e.dtend.value
        case Date(t) => day <= t < day + 86400
        case Local(t) => day <= t < day + 86400
        case Zoned(t, _) => day <= t < day + 86400)
  }

  /** A row of an event: the file's text and marks, its start, and its end if that
      is later, else a day or an hour after the start. */
  ghost predicate KeepsFile(row: Row, e: VEvent) {
    && e.dtstart.Some? && row.text == e.text
    && (match e.dtstart.value
        case Date(t) =>
          && row.allDay && !row.isUtc && row.dtstart == t
          && ((EndsOn(e, row.dtend) && row.dtend > t)
              || (row.dtend == t + 86400 && (e.dtend.None? || exists day :: EndsOn(e, day) && day <= t)))
        case Local(t) => !row.allDay && !row.isUtc && row.dtstart == t && KeepsEnd(row, e)
        case Zoned(_, t) => !row.allDay && row.isUtc && row.dtstart == t && KeepsEnd(row, e))
  }

  ghost predicate KeepsEnd(row: Row, e: VEvent) {
    || (EndsAt(e, row.dtend) && row.dtend > row.dtstart)
    || (row.dtend == row.dtstart + 3600 && (e.dtend.None? || exists end :: EndsAt(e, end) && end <= row.dtstart))
  }

  lemma NewRowKeepsFile(e: VEvent)
    requires e.dtstart.Some? && NewRow(e).Ok?
    ensures KeepsFile(NewRow(e).value, e)
  {
    var row := NewRow(e).value;
    match e.dtstart.value
    case Date(t) =>
      if e.dtend.Some? {
        assert EndsOn(e, DateOf(e.dtend.value));
      }
    case _ =>
      if e.dtend.Some? {
        assert EndsAt(e, NaiveStart(e.dtend.value));
      }
  }

  /** After an import the stored rows come first, and behind them for each event
      that matches none of them, in the order of the file, a row that keeps it. */
  lemma ImportKeepsFile(rows: seq<Row>, events: seq<VEvent>)
    requires Import(rows, events).0.Ok?
    ensures var (stored, list) := (Import(rows, events).1, Newcomers(rows, events));
            && |stored| == |rows| + |list| && Repairs(rows, stored[..|rows|])
            && forall i :: 0 <= i < |list| ==> KeepsFile(stored[|rows| + i], list[i])
  {
    hide TakeAll, Newcomers, NewRow, KeepsFile, Clamped;
    AddedAreNewcomers(rows, events);
    ImportCounts(rows, events);
    var (p, list) := (TakeAll(rows, events).value, Newcomers(rows, events));
    assert (p.rows + p.added)[..|rows|] == p.rows;
    forall i | 0 <= i < |list|
      ensures KeepsFile((p.rows + p.added)[|rows| + i], list[i])
    {
      NewRowKeepsFile(list[i]);
    }
  }

  // ---------------------------------------------------------------------
  // What the response counts
  // ---------------------------------------------------------------------

  function CountChanged(before: seq<Row>, after: seq<Row>): nat
    requires |before| == |after|
  {
    if before == [] then 0
    else CountChanged(before[..|before| - 1], after[..|after| - 1])
           + (if before[|before| - 1] == after[|after| - 1] then 0 else 1)
  }

  lemma {:induction false} ChangeOne(before: seq<Row>, after: seq<Row>, i: nat, row: Row)
    requires |before| == |after| && i < |after| && after[i] == before[i]
    ensures CountChanged(before, after[i := row]) == CountChanged(before, after) + if row == before[i] then 0 else 1
  {
    var (b, a) := (before[..|before| - 1], after[..|after| - 1]);
    if i < |b| {
      ChangeOne(b, a, i, row);
      assert after[i := row][..|a|] == a[i := row];
    } else {
      assert after[i := row][..|a|] == a;
    }
  }

  lemma {:induction false} NothingChanged(rows: seq<Row>)
    ensures CountChanged(rows, rows) == 0
  {
    if rows != [] {
      NothingChanged(rows[..|rows| - 1]);
    }
  }

  /** A stored row ends where it did if that is after its start, else a day or an
      hour after it. */
  ghost predicate EndsRightly(before: Row, after: Row) {
    && after == before.(dtend := after.dtend)
    && after.dtend == if before.dtend > before.dtstart then before.dtend
                      else before.dtstart + (if before.allDay then 86400 else 3600)
  }

  /** Some event of the file matches the stored row at `i`. */
  predicate Matched(rows: seq<Row>, events: seq<VEvent>, i: nat) {
    exists e :: e in events && MatchOf(rows, e) == Some(i)
  }

  lemma MatchedNext(rows: seq<Row>, front: seq<VEvent>, last: VEvent, i: nat)
    ensures Matched(rows, front + [last], i) <==> Matched(rows, front, i) || MatchOf(rows, last) == Some(i)
  {
    hide MatchOf;
    assert last in front + [last];
    assert forall e :: e in front ==> e in front + [last];
  }

  lemma ClampEndsRightly(before: Row, after: Row)
    ensures EndsRightly(before, Clamped(before))
    ensures EndsRightly(before, after) ==> Clamped(after) == after && after == Clamped(before)
  {
  }

  lemma NothingMatched(rows: seq<Row>)
    ensures forall i: nat :: !Matched(rows, [], i)
  {
  }

  /** An import changes only stored rows that some event matches, and those end
      rightly afterwards. */
  lemma {:induction false} MatchedRowsOnly(rows: seq<Row>, events: seq<VEvent>, i: nat)
    requires TakeAll(rows, events).Ok? && i < |rows|
    ensures var p := TakeAll(rows, events).value;
            && |p.rows| == |rows|
            && if Matched(rows, events, i) then EndsRightly(rows[i], p.rows[i]) else p.rows[i] == rows[i]
  {
    hide MatchOf, NewRow, EndsRightly, Matched, Clamped;
    if events == [] {
      NothingMatched(rows);
    } else {
      var front, last := events[..|events| - 1], events[|events| - 1];
      assert events == front + [last];
      MatchedRowsOnly(rows, front, i);
      ImportCounts(rows, front);
      var p := TakeAll(rows, front).value;
      MatchSame(rows, p.rows, last);
      MatchInRange(rows, last);
      MatchedNext(rows, front, last, i);
      ClampEndsRightly(rows[i], p.rows[i]);
    }
  }

  lemma RepairCounted(rows: seq<Row>, now: seq<Row>, m: nat)
    requires Repairs(rows, now) && m < |rows|
    ensures CountChanged(rows, now[m := Clamped(now[m])]) ==
            CountChanged(rows, now) + if Clamped(now[m]).dtend == now[m].dtend then 0 else 1
  {
    hide CountChanged;
    if now[m] == rows[m] {
      ChangeOne(rows, now, m, Clamped(now[m]));
    } else {
      assert now[m := now[m]] == now;
    }
  }

  lemma {:induction false} CountsAddUp(rows: seq<Row>, events: seq<VEvent>)
    requires TakeAll(rows, events).Ok?
    ensures var p := TakeAll(rows, events).value;
            && Repairs(rows, p.rows)
            && p.imported == |Newcomers(rows, events)| && p.skipped == |events| - p.imported
            && p.repaired == CountChanged(rows, p.rows)
  {
    hide MatchOf, NewRow, Clamped, CountChanged;
    ImportCounts(rows, events);
    if events == [] {
      NothingChanged(rows);
    } else {
      var front, last := events[..|events| - 1], events[|events| - 1];
      CountsAddUp(rows, front);
      var p := TakeAll(rows, front).value;
      MatchSame(rows, p.rows, last);
      MatchInRange(rows, last);
      if MatchOf(rows, last).Some? {
        RepairCounted(rows, p.rows, MatchOf(rows, last).value);
      }
    }
  }

  /** The response says how many rows were added, how many events added none, and
      how many stored rows were changed, all of them matched by some event. */
  lemma CountsExactly(rows: seq<Row>, events: seq<VEvent>)
    requires Import(rows, events).0.Ok?
    ensures var (response, stored) := (Import(rows, events).0.value, Import(rows, events).1);
            && |stored| >= |rows| && response.imported == |stored| - |rows| == |Newcomers(rows, events)|
            && response.skipped == |events| - response.imported
            && response.repaired == CountChanged(rows, stored[..|rows|])
            && forall i :: 0 <= i < |rows| ==>
                 if Matched(rows, events, i) then EndsRightly(rows[i], stored[i]) else stored[i] == rows[i]
  {
    hide TakeAll, Newcomers, NewRow, Clamped, Matched, EndsRightly, CountChanged;
    ImportCounts(rows, events);
    CountsAddUp(rows, events);
    var p := TakeAll(rows, events).value;
    assert (p.rows + p.added)[..|rows|] == p.rows;
    forall i | 0 <= i < |rows|
      ensures if Matched(rows, events, i) then EndsRightly(rows[i], p.rows[i]) else p.rows[i] == rows[i]
    {
      MatchedRowsOnly(rows, events, i);
    }
  }
}
