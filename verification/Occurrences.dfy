/** Deleting one occurrence of a series (routes/calendar_routes.py): compound
    uids, exclusion keys, and what the expansion loses. */
module Occurrences {
  import opened Options
  import opened Text
  import opened SortedText
  import opened Recurrence
  import opened CalendarWindows

  // ---------------------------------------------------------------------
  // Compound uids
  // ---------------------------------------------------------------------

  datatype UidError = EmptyUid | MissingBase

  function ResolveBaseUid(uid: string): Result<string, UidError> {
    if uid == "" then Err(EmptyUid)
    else
      var at := Find(uid, "::");
      if at == -1 then Ok(uid)
      else if at == 0 then Err(MissingBase)
      else Ok(uid[..at])
  }

  /** The characters of an exclusion key, by the kind of event. */
  function KeyWidth(allDay: bool): nat {
    if allDay then 10 else 16
  }

  /** The key of an occurrence uid; "" if there is no suffix. */
  function OccurrenceKey(uid: string, ev: Event): string {
    var at := Find(uid, "::");
    if at == -1 then "" else First(uid[at + 2..], KeyWidth(ev.allDay))
  }

  predicate Decodable(base: string) {
    base != "" && Find(base, "::") == -1 && base[|base| - 1] != ':'
  }

  /** The separator is found behind the base exactly for a decodable base; else
      it is found earlier. */
  lemma SeparatorPlace(base: string, suffix: string)
    requires base != ""
    ensures var at := Find(base + ("::" + suffix), "::");
            && 0 <= at <= |base|
            && (at == |base| <==> Decodable(base))
  {
    var uid := base + ("::" + suffix);
    FindFirst(base, "::");
    FindFirst(uid, "::");
    hide Find;
    assert OccursAt(uid, "::", |base|);
    forall i | 0 <= i < |base|
      ensures OccursAt(uid, "::", i) <==>
              OccursAt(base, "::", i) || (i == |base| - 1 && base[|base| - 1] == ':')
    {
      if i + 2 <= |base| {
        assert uid[i..i + 2] == base[i..i + 2];
      } else {
        assert uid[i..i + 2][0] == base[i] && uid[i..i + 2][1] == ':';
        assert uid[i..i + 2] == "::" <==> base[i] == ':';
      }
    }
    var earlier := if Find(base, "::") != -1 then Find(base, "::") else |base| - 1;
    assert OccursAt(uid, "::", earlier) <==> !Decodable(base);
  }

  /** A compound uid decodes to its base exactly when the base is not empty, has
      no "::" and does not end in ':'. */
  lemma CompoundUidDecodes(base: string, suffix: string)
    ensures ResolveBaseUid(base + "::" + suffix) == Ok(base) <==> Decodable(base)
  {
    var uid := base + ("::" + suffix);
    assert base + "::" + suffix == uid;
    if base == "" {
      assert OccursAt(uid, "::", 0);
      FindIs(uid, "::", 0);
    } else {
      SeparatorPlace(base, suffix);
      hide Find;
      assert uid[..|base|] == base;
    }
  }

  /** A datetime in the years 1 to 9999, as seconds from the first midnight. */
  predicate Instant(t: int) {
    0 <= t < 3652059 * 86400
  }

  /** Renderings are not blank, fit the width of a key, and tell two times apart
      exactly when these lie in different days or minutes. */
  ghost predicate Renders(stamp: Stamp) {
    && (forall allDay, t :: Instant(t) ==> |stamp(allDay, t)| <= KeyWidth(allDay) && !Blank(stamp(allDay, t)))
    && (forall allDay, t, u :: Instant(t) && Instant(u) ==>
          (stamp(allDay, t) == stamp(allDay, u) <==> t / Unit(allDay) == u / Unit(allDay)))
  }

  function Unit(allDay: bool): nat {
    if allDay then 86400 else 60
  }

  /** Decoding the uid of an occurrence gives back the series and the very key
      that the expansion compares with. */
  lemma UidRoundTrip(ev: Event, stamp: Stamp, t: int)
    requires Decodable(ev.uid) && Renders(stamp) && Instant(t)
    ensures ResolveBaseUid(OccurrenceUid(ev, stamp, t)) == Ok(ev.uid)
    ensures OccurrenceKey(OccurrenceUid(ev, stamp, t), ev) == stamp(ev.allDay, t)
    ensures Find(OccurrenceUid(ev, stamp, t), "::") == |ev.uid|
  {
    var suffix := stamp(ev.allDay, t);
    var uid := ev.uid + ("::" + suffix);
    CompoundUidDecodes(ev.uid, suffix);
    SeparatorPlace(ev.uid, suffix);
    hide Find, Blank;
    assert OccurrenceUid(ev, stamp, t) == uid;
    assert uid[|ev.uid| + 2..] == suffix;
  }

  // ---------------------------------------------------------------------
  // Exclusions
  // ---------------------------------------------------------------------

  /** The list with the key, sorted. */
  function WithKey(keys: seq<string>, key: string): seq<string> {
    Sort(if key in keys then keys else keys + [key])
  }

  function Exclude(ev: Event, key: string): Event {
    ev.(exdates := WithKey(Exdates(ev.exdates), key))
  }

  lemma {:induction false} ExdatesExact(stored: seq<string>, k: string)
    ensures k in Exdates(stored) <==> k in stored && !Blank(k)
  {
    hide Blank;
    if stored != [] {
      ExdatesExact(stored[..|stored| - 1], k);
      assert stored == stored[..|stored| - 1] + [stored[|stored| - 1]];
    }
  }

  lemma {:induction false} ExdatesSame(stored: seq<string>)
    requires forall k :: k in stored ==> !Blank(k)
    ensures Exdates(stored) == stored
  {
    hide Blank;
    if stored != [] {
      ExdatesSame(stored[..|stored| - 1]);
      assert stored == stored[..|stored| - 1] + [stored[|stored| - 1]];
    }
  }

  /** Reading back what a deletion stores gives exactly the sorted list. */
  lemma ExcludeReadsBack(ev: Event, key: string)
    requires !Blank(key)
    ensures Exdates(Exclude(ev, key).exdates) == Exclude(ev, key).exdates == WithKey(Exdates(ev.exdates), key)
    ensures forall k :: k in Exdates(Exclude(ev, key).exdates) <==> k in Exdates(ev.exdates) || k == key
  {
    hide Blank, Exdates, Sort;
    var keys := Exdates(ev.exdates);
    SortSorts(if key in keys then keys else keys + [key]);
    forall k
      ensures k in Exclude(ev, key).exdates <==> k in keys || k == key
      ensures k in keys ==> !Blank(k)
    {
      ExdatesExact(ev.exdates, k);
    }
    ExdatesSame(Exclude(ev, key).exdates);
  }

  lemma DeletionIsIdempotent(ev: Event, key: string)
    requires !Blank(key)
    ensures Exclude(Exclude(ev, key), key) == Exclude(ev, key)
  {
    hide Blank, Exdates, Sort;
    var keys := Exdates(ev.exdates);
    ExcludeReadsBack(ev, key);
    var once := WithKey(keys, key);
    SortSorts(if key in keys then keys else keys + [key]);
    SortSorts(once);
    SortedIsUnique(Sort(once), once);
  }

  lemma DeletionsCommute(ev: Event, k: string, l: string)
    requires !Blank(k) && !Blank(l)
    ensures Exclude(Exclude(ev, k), l) == Exclude(Exclude(ev, l), k)
  {
    hide Blank, Exdates, Sort;
    var keys := Exdates(ev.exdates);
    ExcludeReadsBack(ev, k);
    ExcludeReadsBack(ev, l);
    if k != l {
      TwoKeys(keys, k, l);
      TwoKeys(keys, l, k);
      assert multiset(keys) + Missing(keys, k) + Missing(keys, l) == multiset(keys) + Missing(keys, l) + Missing(keys, k);
      SortOfSame(WithKey(keys, k) + (if l in keys then [] else [l]), WithKey(keys, l) + (if k in keys then [] else [k]));
    }
  }

  function Missing(keys: seq<string>, k: string): multiset<string> {
    if k in keys then multiset{} else multiset{k}
  }

  lemma TwoKeys(keys: seq<string>, k: string, l: string)
    requires k != l
    ensures var first := WithKey(keys, k) + (if l in keys then [] else [l]);
            && WithKey(WithKey(keys, k), l) == Sort(first)
            && multiset(first) == multiset(keys) + Missing(keys, k) + Missing(keys, l)
  {
    var base := if k in keys then keys else keys + [k];
    SortSorts(base);
    hide Sort;
    assert multiset(base) == multiset(keys) + Missing(keys, k);
    assert l in WithKey(keys, k) <==> l in keys;
    assert WithKey(keys, k) + [] == WithKey(keys, k);
  }

  // ---------------------------------------------------------------------
  // The expansion afterwards
  // ---------------------------------------------------------------------

  function Without(starts: seq<int>, ev: Event, stamp: Stamp, key: string): seq<int> {
    if starts == [] then [] else
    var front := Without(starts[..|starts| - 1], ev, stamp, key);
    var last := starts[|starts| - 1];
    if stamp(ev.allDay, last) == key then front else front + [last]
  }

  lemma {:induction false} HitsAfterDeletion(
    ev: Event, rule: Rule, stamp: Stamp, start: int, end: int, key: string, n: nat)
    requires !Blank(key)
    ensures Hits(Exclude(ev, key), rule, stamp, start, end, n) ==
            Without(Hits(ev, rule, stamp, start, end, n), ev, stamp, key)
  {
    hide Blank, Exdates, Sort;
    ExcludeReadsBack(ev, key);
    if n > 0 {
      HitsAfterDeletion(ev, rule, stamp, start, end, key, n - 1);
      var front, hits := Hits(ev, rule, stamp, start, end, n - 1), Hits(ev, rule, stamp, start, end, n);
      assert hits == front || hits[..|hits| - 1] == front;
    }
  }

  /** The items except those with uid `gone`. */
  function WithoutUid(items: seq<Item>, gone: string): seq<Item> {
    if items == [] then [] else
    var front := WithoutUid(items[..|items| - 1], gone);
    if items[|items| - 1].uid == gone then front else front + [items[|items| - 1]]
  }

  lemma {:induction false} ItemsWithout(ev: Event, stamp: Stamp, starts: seq<int>, key: string, truncated: bool)
    ensures Items(Exclude(ev, key), stamp, Without(starts, ev, stamp, key), truncated) ==
            WithoutUid(Items(ev, stamp, starts, truncated), ev.uid + "::" + key)
    ensures |Without(starts, ev, stamp, key)| <= |starts|
  {
    hide Exdates, Sort;
    if starts != [] {
      var front, last := starts[..|starts| - 1], starts[|starts| - 1];
      var items := Items(ev, stamp, starts, truncated);
      ItemsWithout(ev, stamp, front, key, truncated);
      assert items[..|items| - 1] == Items(ev, stamp, front, truncated);
      SameSuffix(ev.uid + "::", stamp(ev.allDay, last), key);
    }
  }

  lemma SameSuffix(p: string, a: string, b: string)
    ensures p + a == p + b <==> a == b
  {
    assert (p + a)[|p|..] == a && (p + b)[|p|..] == b;
  }

  /** A window whose expansion is complete stays complete. */
  lemma StaysComplete(ev: Event, rule: Rule, stamp: Stamp, start: int, end: int, key: string)
    requires Rising(rule, ev.dtstart) && !Blank(key) && !CutOff(ev, rule, stamp, start, end)
    ensures !CutOff(Exclude(ev, key), rule, stamp, start, end)
    ensures |AllHits(ev, rule, stamp, start, end)| <= LIMIT
  {
    hide Blank, Hits;
    var hits, left := AllHits(ev, rule, stamp, start, end), AllHits(Exclude(ev, key), rule, stamp, start, end);
    HitsAfterDeletion(ev, rule, stamp, start, end, key, Horizon(ev, end));
    ItemsWithout(ev, stamp, hits, key, false);
    WithoutSome(hits, ev, stamp, key);
    UntruncatedIsAll(ev, rule, stamp, start, end);
  }

  lemma {:induction false} WithoutSome(starts: seq<int>, ev: Event, stamp: Stamp, key: string)
    ensures |Without(starts, ev, stamp, key)| == |starts| ==> Without(starts, ev, stamp, key) == starts
    ensures |Without(starts, ev, stamp, key)| <= |starts|
  {
    if starts != [] {
      WithoutSome(starts[..|starts| - 1], ev, stamp, key);
    }
  }

  /** In every window whose expansion was complete, the new expansion is the old
      one without the items of the deleted uid, and complete as well. */
  lemma DeletionRemovesExactly(ev: Event, rule: Rule, stamp: Stamp, start: int, end: int, key: string)
    requires Rising(rule, ev.dtstart) && !Blank(ev.rrule) && !Blank(key)
    requires !CutOff(ev, rule, stamp, start, end)
    ensures Expansion(Exclude(ev, key), Parsed(rule), stamp, start, end) ==
            WithoutUid(Expansion(ev, Parsed(rule), stamp, start, end), ev.uid + "::" + key)
    ensures !CutOff(Exclude(ev, key), rule, stamp, start, end)
  {
    hide Blank, Hits, Sort, CutOff, Exdates;
    var hits := AllHits(ev, rule, stamp, start, end);
    HitsAfterDeletion(ev, rule, stamp, start, end, key, Horizon(ev, end));
    StaysComplete(ev, rule, stamp, start, end, key);
    ItemsWithout(ev, stamp, hits, key, false);
  }

  lemma {:induction false} WithoutJoined(front: seq<int>, back: seq<int>, ev: Event, stamp: Stamp, key: string)
    ensures Without(front + back, ev, stamp, key) == Without(front, ev, stamp, key) + Without(back, ev, stamp, key)
    decreases |back|
  {
    if back == [] {
      assert front + back == front;
    } else {
      WithoutJoined(front, back[..|back| - 1], ev, stamp, key);
      assert (front + back)[..|front + back| - 1] == front + back[..|back| - 1];
    }
  }

  /** The old starts that were shown and are not deleted come first among the new ones. */
  lemma ShownStay(hits: seq<int>, ev: Event, stamp: Stamp, key: string)
    ensures Without(First(hits, LIMIT), ev, stamp, key) <= First(Without(hits, ev, stamp, key), LIMIT)
  {
    var shown, rest := First(hits, LIMIT), if LIMIT < |hits| then hits[LIMIT..] else [];
    assert hits == shown + rest;
    WithoutJoined(shown, rest, ev, stamp, key);
    WithoutSome(shown, ev, stamp, key);
  }

  lemma ItemsStart(ev: Event, stamp: Stamp, front: seq<int>, starts: seq<int>, truncated: bool)
    requires front <= starts
    ensures Items(ev, stamp, front, truncated) <= Items(ev, stamp, starts, truncated)
  {
  }

  lemma {:induction false} NoneLeft(starts: seq<int>, ev: Event, stamp: Stamp, key: string)
    ensures forall i :: 0 <= i < |Without(starts, ev, stamp, key)| ==>
              stamp(ev.allDay, Without(starts, ev, stamp, key)[i]) != key
  {
    if starts != [] {
      NoneLeft(starts[..|starts| - 1], ev, stamp, key);
    }
  }

  /** In every window, complete or cut off, the new expansion shows the first
      starts, up to the limit, of the old ones without the deleted key. So the
      items that were shown stay, in their order and at the beginning, except
      those of the deleted uid; what the limit had cut off follows, and the flag
      can only go. */
  lemma DeletionInEveryWindow(ev: Event, rule: Rule, stamp: Stamp, start: int, end: int, key: string)
    requires Rising(rule, ev.dtstart) && !Blank(ev.rrule) && !Blank(key)
    ensures var hits := AllHits(ev, rule, stamp, start, end); var left := Without(hits, ev, stamp, key);
            var cut := CutOff(Exclude(ev, key), rule, stamp, start, end);
            var now := Expansion(Exclude(ev, key), Parsed(rule), stamp, start, end);
            && now == Items(Exclude(ev, key), stamp, First(left, LIMIT), cut)
            && WithoutUid(Items(ev, stamp, First(hits, LIMIT), cut), ev.uid + "::" + key) <= now
            && (cut ==> CutOff(ev, rule, stamp, start, end) && |now| == LIMIT)
  {
    hide Blank, Hits, Sort, CutOff, Exdates;
    var hits, excluded := AllHits(ev, rule, stamp, start, end), Exclude(ev, key);
    var cut := CutOff(excluded, rule, stamp, start, end);
    HitsAfterDeletion(ev, rule, stamp, start, end, key, Horizon(ev, end));
    var left := Without(hits, ev, stamp, key);
    assert AllHits(excluded, rule, stamp, start, end) == left;
    ShownStay(hits, ev, stamp, key);
    ItemsWithout(ev, stamp, First(hits, LIMIT), key, cut);
    ItemsStart(excluded, stamp, Without(First(hits, LIMIT), ev, stamp, key), First(left, LIMIT), cut);
    if !CutOff(ev, rule, stamp, start, end) {
      StaysComplete(ev, rule, stamp, start, end, key);
    }
    UntruncatedIsAll(excluded, rule, stamp, start, end);
  }

  lemma UidGone(ev: Event, rule: Rule, stamp: Stamp, start: int, end: int, key: string)
    requires Rising(rule, ev.dtstart) && !Blank(ev.rrule) && !Blank(key)
    ensures var now := Expansion(Exclude(ev, key), Parsed(rule), stamp, start, end);
            forall i :: 0 <= i < |now| ==> now[i].uid != ev.uid + "::" + key
  {
    var hits := AllHits(ev, rule, stamp, start, end);
    DeletionInEveryWindow(ev, rule, stamp, start, end, key);
    NoneLeft(hits, ev, stamp, key);
    hide Blank, Hits, Sort, CutOff, Exdates, AllHits, Expansion, Without;
    var shown := First(Without(hits, ev, stamp, key), LIMIT);
    forall i | 0 <= i < |shown|
      ensures OccurrenceUid(ev, stamp, shown[i]) != ev.uid + "::" + key
    {
      SameSuffix(ev.uid + "::", stamp(ev.allDay, shown[i]), key);
    }
  }

  /** The items that go with the occurrence at `t` are those of its minute or
      day, so it goes alone exactly when no other start shares that. */
  lemma RemovedTogether(ev: Event, stamp: Stamp, t: int, u: int)
    requires Renders(stamp) && Instant(t) && Instant(u)
    ensures OccurrenceUid(ev, stamp, u) == OccurrenceUid(ev, stamp, t) <==> t / Unit(ev.allDay) == u / Unit(ev.allDay)
  {
    SameSuffix(ev.uid + "::", stamp(ev.allDay, t), stamp(ev.allDay, u));
    hide Blank;
  }

  // ---------------------------------------------------------------------
  // The route
  // ---------------------------------------------------------------------

  datatype Outcome = BadUid(error: UidError) | NotFound | BadOccurrence | OccurrenceGone(key: string) | SeriesGone

  type Events = map<string, Event>

  /** `events` are the caller's; the calendar is not a CalDAV one. */
  function DeleteFrom(events: Events, uid: string, scope: string): (Outcome, Events) {
    match ResolveBaseUid(uid)
    case Err(e) => (BadUid(e), events)
    case Ok(base) =>
      if base !in events then (NotFound, events) else
      var ev := events[base];
      if (scope == "occurrence" || scope == "instance") && Find(uid, "::") != -1 && ev.rrule != "" then
        var key := OccurrenceKey(uid, ev);
        if key == "" then (BadOccurrence, events)
        else (OccurrenceGone(key), events[base := Exclude(ev, key)])
      else (SeriesGone, events - {base})
  }

  class Calendar {
    var events: Events

    method DeleteEvent(uid: string, scope: string) returns (outcome: Outcome)
      modifies this
      ensures (outcome, events) == DeleteFrom(old(events), uid, scope)
    {
      hide Find, Exdates, Sort;
      var base := ResolveBaseUid(uid);
      if base.Err? {
        return BadUid(base.error);
      }
      if base.value !in events {
        return NotFound;
      }
      var ev := events[base.value];
      var isOccurrence := (scope == "occurrence" || scope == "instance") && Find(uid, "::") != -1 && ev.rrule != "";
      if isOccurrence {
        var key := OccurrenceKey(uid, ev);
        if key == "" {
          return BadOccurrence;
        }
        var exdates := Exdates(ev.exdates);
        if key !in exdates {
          exdates := exdates + [key];
        }
        events := events[base.value := ev.(exdates := Sort(exdates))];
        return OccurrenceGone(key);
      }
      events := events - {base.value};
      return SeriesGone;
    }
  }

  /** Deleting an occurrence by the uid that an expansion gave it excludes its
      key in its own series and touches no other event. */
  lemma DeleteByUid(events: Events, base: string, stamp: Stamp, t: int, scope: string)
    requires scope == "occurrence" || scope == "instance"
    requires base in events && events[base].uid == base && events[base].rrule != ""
    requires Decodable(base) && Renders(stamp) && Instant(t)
    ensures var ev := events[base];
            DeleteFrom(events, OccurrenceUid(ev, stamp, t), scope) ==
              (OccurrenceGone(stamp(ev.allDay, t)), events[base := Exclude(ev, stamp(ev.allDay, t))])
  {
    hide Find, Exdates, Sort, Exclude;
    var ev := events[base];
    UidRoundTrip(ev, stamp, t);
    assert stamp(ev.allDay, t) != "" by { BlankNothing(stamp(ev.allDay, t)); }
    hide Blank;
  }

  /** By its own uid an event goes as a whole, whatever the scope; and by the uid of
      an occurrence too if the scope is another one or the event does not recur. */
  lemma SeriesGoes(events: Events, base: string, stamp: Stamp, t: int, scope: string)
    requires base in events && events[base].uid == base && Decodable(base)
    ensures DeleteFrom(events, base, scope) == (SeriesGone, events - {base})
    ensures (scope != "occurrence" && scope != "instance") || events[base].rrule == "" ==>
              DeleteFrom(events, OccurrenceUid(events[base], stamp, t), scope) == (SeriesGone, events - {base})
  {
    CompoundUidDecodes(base, stamp(events[base].allDay, t));
    hide Find, Exclude, OccurrenceKey;
  }

  lemma BlankNothing(s: string)
    requires !Blank(s)
    ensures s != ""
  {
  }

  /** From the listed item to the next listing: deleting it by its uid removes
      exactly the items with that uid. In a complete window the rest is as it was;
      in one that was cut off the rest comes first and what was cut off follows. */
  lemma DeletedOccurrenceDisappears(
    events: Events, base: string, rule: Rule, stamp: Stamp, t: int, scope: string, start: int, end: int)
    requires scope == "occurrence" || scope == "instance"
    requires base in events && events[base].uid == base && !Blank(events[base].rrule)
    requires Decodable(base) && Renders(stamp) && Instant(t) && Rising(rule, events[base].dtstart)
    ensures var ev := events[base]; var uid := OccurrenceUid(ev, stamp, t);
            var after := DeleteFrom(events, uid, scope).1;
            && after.Keys == events.Keys
            && (forall other :: other in events && other != base ==> after[other] == events[other])
            && (var now := Expansion(after[base], Parsed(rule), stamp, start, end);
                var hits := AllHits(ev, rule, stamp, start, end);
                && (!CutOff(ev, rule, stamp, start, end) ==>
                      now == WithoutUid(Expansion(ev, Parsed(rule), stamp, start, end), uid))
                && WithoutUid(Items(ev, stamp, First(hits, LIMIT), CutOff(after[base], rule, stamp, start, end)), uid) <= now
                && (forall i :: 0 <= i < |now| ==> now[i].uid != uid))
  {
    BlankEmpty();
    hide Find, Exdates, Sort, Exclude, Expansion, CutOff, Blank, DeleteFrom, Items, WithoutUid, AllHits;
    var ev := events[base];
    var key := stamp(ev.allDay, t);
    DeleteByUid(events, base, stamp, t, scope);
    assert !Blank(key);
    DeletionInEveryWindow(ev, rule, stamp, start, end, key);
    UidGone(ev, rule, stamp, start, end, key);
    if !CutOff(ev, rule, stamp, start, end) {
      DeletionRemovesExactly(ev, rule, stamp, start, end, key);
    }
  }

  lemma UndecodablePlace(base: string, suffix: string)
    requires !Decodable(base)
    ensures var at := Find(base + ("::" + suffix), "::");
            && 0 <= at <= |base| && (at < |base| || base == "")
            && (base + ("::" + suffix))[..at] == base[..at]
  {
    if base == "" {
      assert OccursAt(base + ("::" + suffix), "::", 0);
      FindIs(base + ("::" + suffix), "::", 0);
    } else {
      SeparatorPlace(base, suffix);
      hide Find, Decodable;
    }
  }

  /** What a deletion by a uid with a separator at `at` does. */
  lemma SeparatedDeletion(events: Events, uid: string, scope: string, at: nat)
    requires Find(uid, "::") == at <= |uid| - 2
    ensures var hit := uid[..at]; var (outcome, after) := DeleteFrom(events, uid, scope);
            if at == 0 || hit !in events then after == events && (outcome.BadUid? || outcome == NotFound)
            else if (scope == "occurrence" || scope == "instance") && events[hit].rrule != ""
            then var key := First(uid[at + 2..], KeyWidth(events[hit].allDay));
                 after == if key == "" then events else events[hit := Exclude(events[hit], key)]
            else after == events - {hit} && outcome == SeriesGone
  {
    hide Exdates, Sort, Exclude, Find;
  }

  /** The uid of an occurrence of an event that is not decodable stands for the
      event whose uid comes before the first separator, a shorter one. That event
      is the only one that can change: it loses the occurrence with the rest of
      the suffix as key, or, for the series, is removed. Without such an event, or
      with nothing before the separator, nothing changes. */
  lemma UndecodableHitsAnother(events: Events, base: string, stamp: Stamp, t: int, scope: string)
    requires base in events && events[base].uid == base && !Decodable(base)
    ensures var uid := OccurrenceUid(events[base], stamp, t);
            var at := Find(uid, "::");
            && 0 <= at <= |base| && (at < |base| || base == "")
            && (var hit := base[..at];
                var (outcome, after) := DeleteFrom(events, uid, scope);
                && (forall other :: other != hit ==> (other in after <==> other in events)
                                                     && (other in events ==> after[other] == events[other]))
                && base in after && after[base] == events[base]
                && (at == 0 || hit !in events ==> after == events && (outcome.BadUid? || outcome == NotFound))
                && (at > 0 && hit in events ==>
                      if (scope == "occurrence" || scope == "instance") && events[hit].rrule != ""
                      then var key := First(uid[at + 2..], KeyWidth(events[hit].allDay));
                           after == if key == "" then events else events[hit := Exclude(events[hit], key)]
                      else after == events - {hit} && outcome == SeriesGone))
  {
    hide Exdates, Sort, Exclude, Find, Decodable, DeleteFrom;
    var suffix := stamp(events[base].allDay, t);
    var uid := base + ("::" + suffix);
    assert OccurrenceUid(events[base], stamp, t) == uid;
    UndecodablePlace(base, suffix);
    SeparatedDeletion(events, uid, scope, Find(uid, "::"));
    assert Find(uid, "::") < |base| ==> base[..Find(uid, "::")] != base;
  }
}
