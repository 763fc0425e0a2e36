/** Recurring events and the windows in which they are listed
    (routes/calendar_routes.py). Times are integers; a parsed rule is the stream
    of its starts; `stamp` renders a start as a date or as a minute. */
module Recurrence {
  import opened Options
  import opened Text

  datatype Event = Event(
    uid: string, dtstart: int, dtend: int, allDay: bool, isUtc: bool, rrule: string, exdates: seq<string>)

  /** The n-th start, or none once the rule is exhausted. */
  type Rule = nat -> Option<int>

  /** The outcome of parsing a recurrence rule. */
  datatype Parsed = Malformed | Parsed(rule: Rule)

  type Stamp = (bool, int) -> string

  /** Starts increase strictly, have no gaps, and none lies before `dtstart`. */
  ghost predicate Rising(rule: Rule, dtstart: int) {
    && (forall i: nat, j: nat :: i < j && rule(j).Some? ==> rule(i).Some? && rule(i).value < rule(j).value)
    && (forall i: nat :: rule(i).Some? ==> dtstart <= rule(i).value)
  }

  ghost predicate Good(parsed: Parsed, dtstart: int) {
    parsed.Parsed? ==> Rising(parsed.rule, dtstart)
  }

  predicate Blank(s: string) {
    Strip(s) == ""
  }

  /** `_recurrence_exdates`: stored exclusions, without blank ones. */
  function Exdates(stored: seq<string>): seq<string> {
    if stored == [] then []
    else Exdates(stored[..|stored| - 1]) + (if Blank(stored[|stored| - 1]) then [] else [stored[|stored| - 1]])
  }

  function Duration(ev: Event): int {
    ev.dtend - ev.dtstart
  }

  predicate Overlaps(t: int, duration: int, start: int, end: int) {
    t < end && t + duration > start
  }

  predicate Excluded(ev: Event, stamp: Stamp, t: int) {
    stamp(ev.allDay, t) in Exdates(ev.exdates)
  }

  predicate Hit(ev: Event, stamp: Stamp, start: int, end: int, t: int) {
    Overlaps(t, Duration(ev), start, end) && !Excluded(ev, stamp, t)
  }

  const LIMIT := 1000

  datatype Item = Item(
    uid: string, seriesUid: string, isRecurrence: bool, truncated: bool, dtstart: int, dtend: int,
    allDay: bool, isUtc: bool)

  function PlainItem(ev: Event): Item {
    Item(ev.uid, ev.uid, false, false, ev.dtstart, ev.dtend, ev.allDay, ev.isUtc)
  }

  function OccurrenceUid(ev: Event, stamp: Stamp, t: int): string {
    ev.uid + "::" + stamp(ev.allDay, t)
  }

  function OccurrenceItem(ev: Event, stamp: Stamp, t: int, truncated: bool): Item {
    Item(OccurrenceUid(ev, stamp, t), ev.uid, true, truncated, t, t + Duration(ev), ev.allDay, ev.isUtc)
  }

  // ---------------------------------------------------------------------
  // The reference: test every start
  // ---------------------------------------------------------------------

  /** The hits among the first `n` starts. */
  function Hits(ev: Event, rule: Rule, stamp: Stamp, start: int, end: int, n: nat): seq<int> {
    if n == 0 then [] else
    var front := Hits(ev, rule, stamp, start, end, n - 1);
    if rule(n - 1).Some? && Hit(ev, stamp, start, end, rule(n - 1).value)
    then front + [rule(n - 1).value]
    else front
  }

  /** No start from here on lies before `end`. */
  function Horizon(ev: Event, end: int): nat {
    if end > ev.dtstart then end - ev.dtstart else 0
  }

  function AllHits(ev: Event, rule: Rule, stamp: Stamp, start: int, end: int): seq<int> {
    Hits(ev, rule, stamp, start, end, Horizon(ev, end))
  }

  lemma {:induction false} StartsAreSpread(rule: Rule, dtstart: int, i: nat)
    requires Rising(rule, dtstart)
    ensures rule(i).Some? ==> rule(i).value >= dtstart + i
  {
    if i > 0 && rule(i).Some? {
      StartsAreSpread(rule, dtstart, i - 1);
    }
  }

  /** Nothing is missed and nothing added, in increasing order. */
  lemma {:induction false} HitsExact(ev: Event, rule: Rule, stamp: Stamp, start: int, end: int, n: nat)
    requires Rising(rule, ev.dtstart)
    ensures var hits := Hits(ev, rule, stamp, start, end, n);
            && (forall t :: t in hits <==>
                  Hit(ev, stamp, start, end, t) && exists i: nat :: i < n && rule(i) == Some(t))
            && (forall i, j :: 0 <= i < j < |hits| ==> hits[i] < hits[j])
  {
    hide Excluded, Overlaps, Hit;
    if n > 0 {
      HitsExact(ev, rule, stamp, start, end, n - 1);
      var front, hits := Hits(ev, rule, stamp, start, end, n - 1), Hits(ev, rule, stamp, start, end, n);
      forall t | t in front
        ensures rule(n - 1).Some? ==> t < rule(n - 1).value
      {
        var i: nat :| i < n - 1 && rule(i) == Some(t);
      }
      forall t
        ensures t in hits <==> t in front || (rule(n - 1) == Some(t) && Hit(ev, stamp, start, end, t))
      {
      }
      assert forall i, j :: 0 <= i < j < |front| ==> hits[i] == front[i] && hits[j] == front[j];
      assert forall i :: 0 <= i < |front| ==> front[i] in front;
    }
  }

  /** The reference for a window: the hits of the whole infinite stream. */
  lemma AllHitsExact(ev: Event, rule: Rule, stamp: Stamp, start: int, end: int, t: int)
    requires Rising(rule, ev.dtstart)
    ensures t in AllHits(ev, rule, stamp, start, end) <==>
            Hit(ev, stamp, start, end, t) && exists i: nat :: rule(i) == Some(t)
  {
    hide Hits;
    HitsExact(ev, rule, stamp, start, end, Horizon(ev, end));
    if Hit(ev, stamp, start, end, t) && exists i: nat :: rule(i) == Some(t) {
      var i: nat :| rule(i) == Some(t);
      StartsAreSpread(rule, ev.dtstart, i);
      assert i < Horizon(ev, end);
    }
  }

  /** Once a start is missing or not before `end`, there are no more hits. */
  lemma {:induction false} HitsEnd(ev: Event, rule: Rule, stamp: Stamp, start: int, end: int, n: nat, m: nat)
    requires Rising(rule, ev.dtstart) && n <= m
    requires rule(n).Some? ==> rule(n).value >= end
    ensures Hits(ev, rule, stamp, start, end, m) == Hits(ev, rule, stamp, start, end, n)
  {
    if m > n {
      HitsEnd(ev, rule, stamp, start, end, n, m - 1);
    }
  }

  lemma {:induction false} HitsGrow(ev: Event, rule: Rule, stamp: Stamp, start: int, end: int, n: nat, m: nat)
    requires n <= m
    ensures Hits(ev, rule, stamp, start, end, n) <= Hits(ev, rule, stamp, start, end, m)
  {
    if m > n {
      HitsGrow(ev, rule, stamp, start, end, n, m - 1);
    }
  }

  /** At the end of the stream or of the window `n` starts are enough; sooner,
      they give a prefix. */
  lemma HitsAreAll(ev: Event, rule: Rule, stamp: Stamp, start: int, end: int, n: nat)
    requires Rising(rule, ev.dtstart)
    ensures Hits(ev, rule, stamp, start, end, n) <= AllHits(ev, rule, stamp, start, end)
    ensures (rule(n).Some? ==> rule(n).value >= end) ==>
              Hits(ev, rule, stamp, start, end, n) == AllHits(ev, rule, stamp, start, end)
  {
    hide Hits;
    var h := Horizon(ev, end);
    StartsAreSpread(rule, ev.dtstart, h);
    if n <= h {
      HitsGrow(ev, rule, stamp, start, end, n, h);
      if rule(n).Some? ==> rule(n).value >= end {
        HitsEnd(ev, rule, stamp, start, end, n, h);
      }
    } else {
      HitsEnd(ev, rule, stamp, start, end, h, n);
    }
  }

  // ---------------------------------------------------------------------
  // The expansion
  // ---------------------------------------------------------------------

  /** More occurrences, if only excluded ones, overlap after the last one that fits. */
  ghost predicate CutOff(ev: Event, rule: Rule, stamp: Stamp, start: int, end: int) {
    var hits := AllHits(ev, rule, stamp, start, end);
    |hits| >= LIMIT &&
    exists i: nat ::
      rule(i).Some? && rule(i).value > hits[LIMIT - 1] && Overlaps(rule(i).value, Duration(ev), start, end)
  }

  function Items(ev: Event, stamp: Stamp, starts: seq<int>, truncated: bool): (items: seq<Item>)
    ensures |items| == |starts|
    ensures forall i :: 0 <= i < |items| ==> items[i] == OccurrenceItem(ev, stamp, starts[i], truncated)
  {
    seq(|starts|, i requires 0 <= i < |starts| => OccurrenceItem(ev, stamp, starts[i], truncated))
  }

  /** What `_expand_rrule` returns. */
  ghost function Expansion(ev: Event, parsed: Parsed, stamp: Stamp, start: int, end: int): seq<Item> {
    if Blank(ev.rrule) then [PlainItem(ev)]
    else match parsed
      case Malformed => if Overlaps(ev.dtstart, Duration(ev), start, end) then [PlainItem(ev)] else []
      case Parsed(rule) =>
        Items(ev, stamp, First(AllHits(ev, rule, stamp, start, end), LIMIT), CutOff(ev, rule, stamp, start, end))
  }

  /** The loop over the starts from `start - duration` on. */
  method Scan(ev: Event, rule: Rule, stamp: Stamp, start: int, end: int)
    returns (starts: seq<int>, truncated: bool)
    requires Rising(rule, ev.dtstart)
    ensures starts == First(AllHits(ev, rule, stamp, start, end), LIMIT)
    ensures truncated <==> CutOff(ev, rule, stamp, start, end)
  {
    hide Hits, Exdates, Blank, AllHits;
    var expandStart := start - Duration(ev);
    var i: nat := 0;
    starts, truncated := [], false;
    assert Hits(ev, rule, stamp, start, end, 0) == [] by { HitsExact(ev, rule, stamp, start, end, 0); NoHits(ev, rule, stamp, start, end); }
    while rule(i).Some?
      invariant starts == Hits(ev, rule, stamp, start, end, i) && |starts| <= LIMIT
      invariant |starts| == LIMIT ==>
                  forall j: nat :: j < i && rule(j).Some? && Overlaps(rule(j).value, Duration(ev), start, end) ==>
                    rule(j).value <= starts[LIMIT - 1]
      decreases (if end > expandStart then end else expandStart) - ev.dtstart - i
    {
      StartsAreSpread(rule, ev.dtstart, i);
      HitsAreAll(ev, rule, stamp, start, end, i);
      NextHit(ev, rule, stamp, start, end, i);
      var t := rule(i).value;
      if t >= expandStart {
        if t >= end {
          break;
        }
        if t + Duration(ev) > start {
          if |starts| >= LIMIT {
            LaterThan(ev, rule, stamp, start, end, i);
            assert starts[LIMIT - 1] in starts;
            truncated := true;
            break;
          }
          if !Excluded(ev, stamp, t) {
            starts := starts + [t];
          }
        }
      }
      i := i + 1;
    }
    HitsAreAll(ev, rule, stamp, start, end, i);
  }

  lemma NoHits(ev: Event, rule: Rule, stamp: Stamp, start: int, end: int)
    ensures Hits(ev, rule, stamp, start, end, 0) == []
  {
  }

  lemma NextHit(ev: Event, rule: Rule, stamp: Stamp, start: int, end: int, n: nat)
    ensures Hits(ev, rule, stamp, start, end, n + 1) ==
            Hits(ev, rule, stamp, start, end, n) +
              if rule(n).Some? && Hit(ev, stamp, start, end, rule(n).value) then [rule(n).value] else []
  {
  }

  lemma LaterThan(ev: Event, rule: Rule, stamp: Stamp, start: int, end: int, n: nat)
    requires Rising(rule, ev.dtstart) && rule(n).Some?
    ensures forall t :: t in Hits(ev, rule, stamp, start, end, n) ==> t < rule(n).value
  {
    HitsExact(ev, rule, stamp, start, end, n);
  }

  /** Terminates for every rule, finite or not, and returns the first `LIMIT`
      hits of the whole stream. */
  method ExpandRrule(ev: Event, parsed: Parsed, stamp: Stamp, start: int, end: int) returns (results: seq<Item>)
    requires Good(parsed, ev.dtstart)
    ensures results == Expansion(ev, parsed, stamp, start, end)
  {
    hide Blank, CutOff, Hits;
    if Blank(ev.rrule) {
      return [PlainItem(ev)];
    }
    if parsed.Malformed? {
      return if ev.dtstart < end && ev.dtend > start then [PlainItem(ev)] else [];
    }
    var starts, truncated := Scan(ev, parsed.rule, stamp, start, end);
    results := [];
    for i := 0 to |starts|
      invariant results == Items(ev, stamp, starts[..i], false)
    {
      results := results + [OccurrenceItem(ev, stamp, starts[i], false)];
    }
    if truncated {
      for i := 0 to |results|
        invariant |results| == |starts|
        invariant forall j :: 0 <= j < |results| ==> results[j] == OccurrenceItem(ev, stamp, starts[j], j < i)
      {
        results := results[i := results[i].(truncated := true)];
      }
    }
    assert results == Items(ev, stamp, starts, truncated);
  }
}
