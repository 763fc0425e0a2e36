/** The text that shows the start of an item, and that sorting a listing by this
    text puts it in the order of time (routes/calendar_routes.py). */
module StartText {
  import opened SortedText
  import opened Recurrence
  import opened Occurrences
  import opened CalendarWindows
  import opened CivilTime

  function Clock(second: nat): (s: string)
    ensures |s| == 9
  {
    RenderMinute(second / 60) + ":" + Pad(second % 60, 2)
  }

  /** `strftime("%Y-%m-%d")` of an all-day start, else `isoformat()`, with a Z for UTC. */
  function ShownStart(item: Item): string {
    if !Instant(item.dtstart) then "" else
    var day := RenderDay(CivilOf(item.dtstart / 86400));
    if item.allDay then day
    else (day + Clock(item.dtstart % 86400)) + (if item.isUtc then "Z" else "")
  }

  /** The place in time: by the second, all-day items at the beginning of their day,
      and for the same second all-day ones before local ones before those in UTC. */
  function Position(item: Item): int {
    if item.allDay then item.dtstart / 86400 * 86400 * 3
    else item.dtstart * 3 + (if item.isUtc then 2 else 1)
  }

  // ---------------------------------------------------------------------
  // Texts of the same length in the order of numbers
  // ---------------------------------------------------------------------

  predicate Ordered(a: string, b: string, i: int, j: int) {
    |a| == |b| && (LexLe(a, b) <==> i <= j) && (a == b <==> i == j)
  }

  lemma {:induction false} LexJoined(a: string, b: string, c: string, d: string)
    requires |a| == |b|
    ensures LexLe(a + c, b + d) <==> if a == b then LexLe(c, d) else LexLe(a, b)
    ensures a + c == b + d <==> a == b && c == d
  {
    if a == "" {
      assert a + c == c && b + d == d;
    } else {
      assert (a + c)[1..] == a[1..] + c && (b + d)[1..] == b[1..] + d;
      assert a == [a[0]] + a[1..] && b == [b[0]] + b[1..];
      LexJoined(a[1..], b[1..], c, d);
      assert (a + c)[..|a|] == a && (b + d)[..|b|] == b && (a + c)[|a|..] == c && (b + d)[|b|..] == d;
    }
  }

  lemma OrderedThen(a: string, b: string, i: int, j: int, c: string, d: string, k: nat, l: nat, n: nat)
    requires Ordered(a, b, i, j) && Ordered(c, d, k, l) && k < n && l < n
    ensures Ordered(a + c, b + d, i * n + k, j * n + l)
  {
    LexJoined(a, b, c, d);
    Digits(i, j, k, l, n);
    hide LexLe;
  }

  lemma Digits(i: int, j: int, k: nat, l: nat, n: nat)
    requires k < n && l < n
    ensures i * n + k <= j * n + l <==> i < j || (i == j && k <= l)
    ensures i * n + k == j * n + l <==> i == j && k == l
  {
    if i < j {
      assert i * n + n <= j * n by { Grows(i + 1, j, n); }
    } else if j < i {
      assert j * n + n <= i * n by { Grows(j + 1, i, n); }
    }
  }

  lemma Grows(i: int, j: int, n: nat)
    requires i <= j
    ensures i * n <= j * n
  {
  }

  lemma {:induction false} PadInOrder(i: nat, j: nat, k: nat)
    requires i < Limit(k) && j < Limit(k)
    ensures Ordered(Pad(i, k), Pad(j, k), i, j)
  {
    if k > 0 {
      PadInOrder(i / 10, j / 10, k - 1);
      DigitInOrder(i % 10, j % 10);
      OrderedThen(Pad(i / 10, k - 1), Pad(j / 10, k - 1), i / 10, j / 10, [Digit(i % 10)], [Digit(j % 10)], i % 10, j % 10, 10);
    }
  }

  lemma DigitInOrder(i: nat, j: nat)
    requires i < 10 && j < 10
    ensures Ordered([Digit(i)], [Digit(j)], i, j)
  {
    LexTotal([], []);
    assert [Digit(i)][1..] == [] && [Digit(j)][1..] == [];
  }

  /** With the same text behind. */
  lemma OrderedPlus(a: string, b: string, i: int, j: int, c: string)
    requires Ordered(a, b, i, j)
    ensures Ordered(a + c, b + c, i, j)
  {
    LexJoined(a, b, c, c);
    LexTotal(c, c);
    hide LexLe;
  }

  // ---------------------------------------------------------------------
  // Dates and times of day
  // ---------------------------------------------------------------------

  function DateCode(c: Civil): nat {
    (c.year * 100 + c.month) * 100 + c.day
  }

  lemma DateTextInOrder(a: Civil, b: Civil)
    requires a.year < 10000 && a.month < 100 && a.day < 100
    requires b.year < 10000 && b.month < 100 && b.day < 100
    ensures Ordered(RenderDay(a), RenderDay(b), DateCode(a), DateCode(b))
  {
    assert Limit(2) == 100 && Limit(4) == 10000;
    PadInOrder(a.year, b.year, 4);
    PadInOrder(a.month, b.month, 2);
    PadInOrder(a.day, b.day, 2);
    hide Ordered;
    OrderedPlus(Pad(a.year, 4), Pad(b.year, 4), a.year, b.year, "-");
    OrderedThen(Pad(a.year, 4) + "-", Pad(b.year, 4) + "-", a.year, b.year, Pad(a.month, 2), Pad(b.month, 2), a.month, b.month, 100);
    var (p, q) := (Pad(a.year, 4) + "-" + Pad(a.month, 2), Pad(b.year, 4) + "-" + Pad(b.month, 2));
    OrderedPlus(p, q, a.year * 100 + a.month, b.year * 100 + b.month, "-");
    OrderedThen(p + "-", q + "-", a.year * 100 + a.month, b.year * 100 + b.month, Pad(a.day, 2), Pad(b.day, 2), a.day, b.day, 100);
  }

  lemma TwoDigits(i: nat, j: nat)
    requires i < 100 && j < 100
    ensures Ordered(Pad(i, 2), Pad(j, 2), i, j)
  {
    hide Ordered, Pad;
    assert Limit(2) == 100;
    PadInOrder(i, j, 2);
  }

  lemma MinuteInOrder(m: nat, n: nat)
    requires m < 1440 && n < 1440
    ensures Ordered(RenderMinute(m), RenderMinute(n), m, n)
  {
    hide Ordered, Pad;
    TwoDigits(m / 60, n / 60);
    TwoDigits(m % 60, n % 60);
    SameText("T");
    OrderedThen("T", "T", 0, 0, Pad(m / 60, 2), Pad(n / 60, 2), m / 60, n / 60, 100);
    var (s, t) := ("T" + Pad(m / 60, 2), "T" + Pad(n / 60, 2));
    OrderedPlus(s, t, m / 60, n / 60, ":");
    OrderedThen(s + ":", t + ":", m / 60, n / 60, Pad(m % 60, 2), Pad(n % 60, 2), m % 60, n % 60, 60);
  }

  lemma ClockInOrder(s: nat, t: nat)
    requires s < 86400 && t < 86400
    ensures Ordered(Clock(s), Clock(t), s, t)
  {
    hide Ordered, Pad, RenderMinute;
    var (m, n) := (s / 60, t / 60);
    MinuteInOrder(m, n);
    TwoDigits(s % 60, t % 60);
    OrderedPlus(RenderMinute(m), RenderMinute(n), m, n, ":");
    OrderedThen(RenderMinute(m) + ":", RenderMinute(n) + ":", m, n, Pad(s % 60, 2), Pad(t % 60, 2), s % 60, t % 60, 60);
  }

  lemma SameText(s: string)
    ensures Ordered(s, s, 0, 0)
  {
    LexTotal(s, s);
  }

  lemma {:induction false} MonthStartGrows(y: nat, m: nat, n: nat)
    requires m <= n
    ensures MonthStart(y, m) <= MonthStart(y, n)
  {
    if m < n {
      MonthStartGrows(y, m, n - 1);
    }
  }

  /** A day lies within its month, and its month within its year. */
  lemma DayBounds(n: nat)
    requires n < 3652059
    ensures var c := CivilOf(n);
            && 1 <= c.year && 1 <= c.month <= 12 && 1 <= c.day <= 31
            && YearStart(c.year) + MonthStart(c.year, c.month) <= n
            && n < YearStart(c.year) + MonthStart(c.year, c.month + 1)
            && n < YearStart(c.year + 1)
  {
    CivilRoundTrip(n);
    hide YearStart;
    var (y, rest) := YearOf(1, n);
    assert YearStart(y + 1) == YearStart(y) + YearLength(y) by { NextYear(y); }
    assert YearStart(1) == 0 by { FirstYear(); }
  }

  lemma NextYear(y: nat)
    requires y >= 1
    ensures YearStart(y + 1) == YearStart(y) + YearLength(y)
  {
  }

  lemma FirstYear()
    ensures YearStart(1) == 0
  {
  }

  lemma LaterYear(m: nat, n: nat)
    requires m < n < 3652059
    ensures CivilOf(m).year <= CivilOf(n).year
  {
    hide CivilOf, MonthStart, YearStart;
    DayBounds(m);
    DayBounds(n);
    if CivilOf(n).year < CivilOf(m).year {
      YearStartGrows(CivilOf(n).year + 1, CivilOf(m).year);
    }
  }

  lemma LaterMonth(m: nat, n: nat)
    requires m < n < 3652059 && CivilOf(m).year == CivilOf(n).year
    ensures CivilOf(m).month <= CivilOf(n).month
  {
    hide CivilOf, MonthStart, YearStart;
    DayBounds(m);
    DayBounds(n);
    if CivilOf(n).month < CivilOf(m).month {
      MonthStartGrows(CivilOf(n).year, CivilOf(n).month + 1, CivilOf(m).month);
    }
  }

  lemma LaterDay(m: nat, n: nat)
    requires m < n < 3652059 && CivilOf(m).year == CivilOf(n).year && CivilOf(m).month == CivilOf(n).month
    ensures CivilOf(m).day < CivilOf(n).day
  {
    hide CivilOf, MonthStart, YearStart;
    CivilRoundTrip(m);
    CivilRoundTrip(n);
  }

  lemma CodeGrows(a: Civil, b: Civil)
    requires a.month < 100 && a.day < 100
    requires a.year < b.year || (a.year == b.year && (a.month < b.month || (a.month == b.month && a.day < b.day)))
    ensures DateCode(a) < DateCode(b)
  {
  }

  /** Later days have later dates. */
  lemma DatesInOrder(m: nat, n: nat)
    requires m < n < 3652059
    ensures DateCode(CivilOf(m)) < DateCode(CivilOf(n))
  {
    hide CivilOf, DayNumber, DateCode;
    CivilRoundTrip(m);
    LaterYear(m, n);
    if CivilOf(m).year == CivilOf(n).year {
      LaterMonth(m, n);
      if CivilOf(m).month == CivilOf(n).month {
        LaterDay(m, n);
      }
    }
    CodeGrows(CivilOf(m), CivilOf(n));
  }

  lemma DayTextInOrder(m: nat, n: nat)
    requires m < 3652059 && n < 3652059
    ensures Ordered(RenderDay(CivilOf(m)), RenderDay(CivilOf(n)), m, n)
  {
    hide CivilOf, RenderDay, LexLe, DateCode;
    CivilRoundTrip(m);
    CivilRoundTrip(n);
    DateTextInOrder(CivilOf(m), CivilOf(n));
    if m < n {
      DatesInOrder(m, n);
    } else if n < m {
      DatesInOrder(n, m);
    }
  }

  // ---------------------------------------------------------------------
  // Starts
  // ---------------------------------------------------------------------

  lemma SecondInOrder(t: int, u: int)
    requires Instant(t) && Instant(u)
    ensures Ordered(RenderDay(CivilOf(t / 86400)) + Clock(t % 86400), RenderDay(CivilOf(u / 86400)) + Clock(u % 86400), t, u)
  {
    hide Ordered, CivilOf, RenderDay, Clock;
    DayTextInOrder(t / 86400, u / 86400);
    ClockInOrder(t % 86400, u % 86400);
    OrderedThen(RenderDay(CivilOf(t / 86400)), RenderDay(CivilOf(u / 86400)), t / 86400, u / 86400,
                Clock(t % 86400), Clock(u % 86400), t % 86400, u % 86400, 86400);
  }

  lemma ZoneInOrder(a: bool, b: bool)
    ensures LexLe(if a then "Z" else "", if b then "Z" else "") <==> (a ==> b)
  {
  }

  lemma TimedInOrder(a: Item, b: Item)
    requires Instant(a.dtstart) && Instant(b.dtstart) && !a.allDay && !b.allDay
    ensures LexLe(ShownStart(a), ShownStart(b)) <==> Position(a) <= Position(b)
  {
    SecondInOrder(a.dtstart, b.dtstart);
    ZoneInOrder(a.isUtc, b.isUtc);
    var (s, t) := (RenderDay(CivilOf(a.dtstart / 86400)) + Clock(a.dtstart % 86400),
                   RenderDay(CivilOf(b.dtstart / 86400)) + Clock(b.dtstart % 86400));
    LexJoined(s, t, if a.isUtc then "Z" else "", if b.isUtc then "Z" else "");
    hide LexLe, CivilOf, RenderDay, Clock;
  }

  /** The rest of a shown start behind its date. */
  function Behind(item: Item): string {
    if item.allDay then "" else Clock(item.dtstart % 86400) + (if item.isUtc then "Z" else "")
  }

  lemma ShownParts(item: Item)
    requires Instant(item.dtstart)
    ensures ShownStart(item) == RenderDay(CivilOf(item.dtstart / 86400)) + Behind(item)
    ensures item.allDay <==> Behind(item) == ""
  {
    hide RenderDay, CivilOf;
    var (day, clock) := (RenderDay(CivilOf(item.dtstart / 86400)), Clock(item.dtstart % 86400));
    hide Clock;
    var zone := if item.isUtc then "Z" else "";
    assert (day + clock) + zone == day + (clock + zone);
  }

  lemma AllDayInOrder(a: Item, b: Item)
    requires Instant(a.dtstart) && Instant(b.dtstart) && (a.allDay || b.allDay)
    ensures LexLe(ShownStart(a), ShownStart(b)) <==> Position(a) <= Position(b)
  {
    var (m, n) := (a.dtstart / 86400, b.dtstart / 86400);
    ShownParts(a);
    ShownParts(b);
    DayTextInOrder(m, n);
    LexJoined(RenderDay(CivilOf(m)), RenderDay(CivilOf(n)), Behind(a), Behind(b));
    assert LexLe(Behind(a), Behind(b)) <==> a.allDay;
    hide LexLe, CivilOf, RenderDay, Behind, ShownStart;
    PositionParts(a);
    PositionParts(b);
  }

  /** A position lies in the range of its day, at its beginning for an all-day item. */
  lemma PositionParts(item: Item)
    ensures var day := item.dtstart / 86400 * 259200;
            day <= Position(item) < day + 259200 && (item.allDay <==> Position(item) == day)
  {
  }

  /** The texts of two starts are in the order of their places in time. */
  lemma ShownInOrder(a: Item, b: Item)
    requires Instant(a.dtstart) && Instant(b.dtstart)
    ensures LexLe(ShownStart(a), ShownStart(b)) <==> Position(a) <= Position(b)
  {
    hide LexLe, ShownStart, Position;
    if a.allDay || b.allDay {
      AllDayInOrder(a, b);
    } else {
      TimedInOrder(a, b);
    }
  }

  /** So a response sorted by these texts is in the order of time. */
  lemma ResponseIsChronological(
    rows: seq<Row>, owner: string, calendar: string, stamp: Stamp, start: int, end: int, i: nat, j: nat)
    requires var listed := Listed(rows, owner, calendar, stamp, start, end);
             (forall item :: item in listed ==> Instant(item.dtstart)) && i < j < |SortBy(listed, ShownStart)|
    ensures var response := SortBy(Listed(rows, owner, calendar, stamp, start, end), ShownStart);
            && Position(response[i]) <= Position(response[j])
            && (if response[i].allDay then response[i].dtstart / 86400 <= response[j].dtstart / 86400
                else response[i].dtstart <= response[j].dtstart)
  {
    var listed := Listed(rows, owner, calendar, stamp, start, end);
    var response := SortBy(listed, ShownStart);
    SortBySorts(listed, ShownStart);
    hide Listed, SortBy, ShownStart, Having, LexLe;
    assert response[i] in listed && response[j] in listed;
    ShownInOrder(response[i], response[j]);
  }
}
