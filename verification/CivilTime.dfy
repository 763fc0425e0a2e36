/** The two formats in which a start is rendered, "%Y-%m-%d" and
    "%Y-%m-%dT%H:%M", for the datetimes of the years 1 to 9999
    (routes/calendar_routes.py). */
module CivilTime {
  import opened Text
  import opened Recurrence
  import opened Occurrences

  // ---------------------------------------------------------------------
  // The calendar
  // ---------------------------------------------------------------------

  predicate Leap(y: nat) {
    y % 4 == 0 && (y % 100 != 0 || y % 400 == 0)
  }

  function YearLength(y: nat): nat {
    if Leap(y) then 366 else 365
  }

  function MonthLength(y: nat, m: nat): nat {
    if m == 2 then (if Leap(y) then 29 else 28)
    else if m == 4 || m == 6 || m == 9 || m == 11 then 30
    else 31
  }

  /** The days before year `y`, counted from the first day of year 1. */
  function YearStart(y: nat): nat {
    if y <= 1 then 0 else YearStart(y - 1) + YearLength(y - 1)
  }

  function MonthStart(y: nat, m: nat): nat {
    if m <= 1 then 0 else MonthStart(y, m - 1) + MonthLength(y, m - 1)
  }

  /** The year of the day `n` days into year `y`, and the day of that year. */
  function YearOf(y: nat, n: nat): (r: (nat, nat))
    requires y >= 1
    ensures r.0 >= y && r.1 < YearLength(r.0)
    ensures YearStart(r.0) + r.1 == YearStart(y) + n
    decreases n
  {
    if n < YearLength(y) then (y, n) else YearOf(y + 1, n - YearLength(y))
  }

  /** The month of the day `n` days into month `m`, and the day of that month. */
  function MonthOf(y: nat, m: nat, n: nat): (r: (nat, nat))
    requires 1 <= m <= 12 && MonthStart(y, m) + n < YearLength(y)
    ensures m <= r.0 <= 12 && r.1 < MonthLength(y, r.0)
    ensures MonthStart(y, r.0) + r.1 == MonthStart(y, m) + n
    decreases 12 - m
  {
    MonthsFillYear(y);
    if n < MonthLength(y, m) then (m, n) else MonthOf(y, m + 1, n - MonthLength(y, m))
  }

  lemma MonthsFillYear(y: nat)
    ensures MonthStart(y, 12) + MonthLength(y, 12) == YearLength(y)
  {
    assert MonthStart(y, 2) == 31;
    assert MonthStart(y, 3) == 31 + MonthLength(y, 2);
    assert MonthStart(y, 5) == MonthStart(y, 3) + 31 + 30;
    assert MonthStart(y, 7) == MonthStart(y, 5) + 31 + 30;
    assert MonthStart(y, 9) == MonthStart(y, 7) + 31 + 31;
    assert MonthStart(y, 11) == MonthStart(y, 9) + 30 + 31;
    assert MonthStart(y, 12) == MonthStart(y, 11) + 30;
  }

  datatype Civil = Civil(year: nat, month: nat, day: nat)

  function CivilOf(n: nat): Civil {
    var (y, rest) := YearOf(1, n);
    var (m, d) := MonthOf(y, 1, rest);
    Civil(y, m, d + 1)
  }

  function DayNumber(c: Civil): int {
    YearStart(c.year) + MonthStart(c.year, c.month) + c.day - 1
  }

  function Fours(n: nat): nat {
    n / 4
  }

  function Hundreds(n: nat): nat {
    n / 100
  }

  function FourHundreds(n: nat): nat {
    n / 400
  }

  lemma NextFours(n: nat)
    ensures Fours(n + 1) == Fours(n) + if (n + 1) % 4 == 0 then 1 else 0
  {
  }

  lemma NextHundreds(n: nat)
    ensures Hundreds(n + 1) == Hundreds(n) + if (n + 1) % 100 == 0 then 1 else 0
  {
  }

  lemma NextFourHundreds(n: nat)
    ensures FourHundreds(n + 1) == FourHundreds(n) + if (n + 1) % 400 == 0 then 1 else 0
  {
  }

  lemma CenturiesByFour(n: nat)
    requires n % 100 == 0
    ensures n % 4 == 0
  {
    var k := n / 100;
    assert n == 4 * (25 * k);
  }

  lemma FourCenturies(n: nat)
    requires n % 400 == 0
    ensures n % 100 == 0
  {
    var k := n / 400;
    assert n == 100 * (4 * k);
  }

  /** A leap year is a multiple of 4, not of 100, or of 400. */
  lemma LeapCounts(n: nat)
    ensures Fours(n + 1) - Hundreds(n + 1) + FourHundreds(n + 1) ==
            Fours(n) - Hundreds(n) + FourHundreds(n) + if Leap(n + 1) then 1 else 0
  {
    hide Fours, Hundreds, FourHundreds;
    NextFours(n);
    NextHundreds(n);
    NextFourHundreds(n);
    if (n + 1) % 100 == 0 {
      CenturiesByFour(n + 1);
    }
    if (n + 1) % 400 == 0 {
      FourCenturies(n + 1);
    }
  }

  lemma {:induction false} YearStartClosed(y: nat)
    ensures YearStart(y + 1) == 365 * y + Fours(y) - Hundreds(y) + FourHundreds(y)
  {
    if y > 0 {
      YearStartClosed(y - 1);
      LeapCounts(y - 1);
      hide Fours, Hundreds, FourHundreds, Leap;
    }
  }

  lemma {:induction false} YearStartGrows(y: nat, z: nat)
    requires y <= z
    ensures YearStart(y) <= YearStart(z)
  {
    if y < z {
      YearStartGrows(y, z - 1);
    }
  }

  /** The date of a day, with its fields in range, gives the day back. */
  lemma CivilRoundTrip(n: nat)
    requires n < 3652059
    ensures DayNumber(CivilOf(n)) == n
    ensures 1 <= CivilOf(n).year <= 9999 && 1 <= CivilOf(n).month <= 12 && 1 <= CivilOf(n).day <= 31
  {
    YearStartClosed(9999);
    if CivilOf(n).year >= 10000 {
      YearStartGrows(10000, CivilOf(n).year);
    }
  }

  // ---------------------------------------------------------------------
  // Rendering
  // ---------------------------------------------------------------------

  function Digit(d: nat): char
    requires d < 10
  {
    ('0' as int + d) as char
  }

  /** The last `k` decimal digits. */
  function Pad(n: nat, k: nat): (s: string)
    ensures |s| == k
  {
    if k == 0 then "" else Pad(n / 10, k - 1) + [Digit(n % 10)]
  }

  function Limit(k: nat): nat {
    if k == 0 then 1 else 10 * Limit(k - 1)
  }

  lemma {:induction false} PadTellsApart(n: nat, m: nat, k: nat)
    requires n < Limit(k) && m < Limit(k)
    ensures Pad(n, k) == Pad(m, k) <==> n == m
  {
    if k > 0 {
      PadTellsApart(n / 10, m / 10, k - 1);
      var (a, b) := (Pad(n, k), Pad(m, k));
      assert a[..k - 1] == Pad(n / 10, k - 1) && b[..k - 1] == Pad(m / 10, k - 1);
      assert a[k - 1] == Digit(n % 10) && b[k - 1] == Digit(m % 10);
    }
  }

  function RenderDay(c: Civil): (s: string)
    ensures |s| == 10
  {
    Pad(c.year, 4) + "-" + Pad(c.month, 2) + "-" + Pad(c.day, 2)
  }

  function RenderMinute(minute: nat): (s: string)
    ensures |s| == 6
  {
    "T" + Pad(minute / 60, 2) + ":" + Pad(minute % 60, 2)
  }

  /** `strftime` with a year of four digits. */
  function Strftime(allDay: bool, t: int): string {
    if !Instant(t) then ""
    else if allDay then RenderDay(CivilOf(t / 86400))
    else RenderDay(CivilOf(t / 86400)) + RenderMinute(t % 86400 / 60)
  }

  lemma RenderDayTellsApart(a: Civil, b: Civil)
    requires a.year < 10000 && a.month < 100 && a.day < 100
    requires b.year < 10000 && b.month < 100 && b.day < 100
    ensures RenderDay(a) == RenderDay(b) <==> a == b
  {
    var (s, u) := (RenderDay(a), RenderDay(b));
    assert Limit(2) == 100 && Limit(4) == 10000;
    assert s[..4] == Pad(a.year, 4) && s[5..7] == Pad(a.month, 2) && s[8..] == Pad(a.day, 2);
    assert u[..4] == Pad(b.year, 4) && u[5..7] == Pad(b.month, 2) && u[8..] == Pad(b.day, 2);
    PadTellsApart(a.year, b.year, 4);
    PadTellsApart(a.month, b.month, 2);
    PadTellsApart(a.day, b.day, 2);
  }

  lemma RenderMinuteTellsApart(a: nat, b: nat)
    requires a < 1440 && b < 1440
    ensures RenderMinute(a) == RenderMinute(b) <==> a == b
  {
    var (s, u) := (RenderMinute(a), RenderMinute(b));
    assert Limit(2) == 100;
    assert s[1..3] == Pad(a / 60, 2) && s[4..] == Pad(a % 60, 2);
    assert u[1..3] == Pad(b / 60, 2) && u[4..] == Pad(b % 60, 2);
    PadTellsApart(a / 60, b / 60, 2);
    PadTellsApart(a % 60, b % 60, 2);
  }

  lemma SameDay(t: int, u: int)
    requires Instant(t) && Instant(u)
    ensures RenderDay(CivilOf(t / 86400)) == RenderDay(CivilOf(u / 86400)) <==> t / 86400 == u / 86400
  {
    hide RenderDay, CivilOf, DayNumber;
    CivilRoundTrip(t / 86400);
    CivilRoundTrip(u / 86400);
    RenderDayTellsApart(CivilOf(t / 86400), CivilOf(u / 86400));
  }

  lemma SplitMinute(t: nat)
    ensures t / 60 == t / 86400 * 1440 + t % 86400 / 60 && t % 86400 / 60 < 1440
  {
  }

  lemma StrftimeTellsApart(allDay: bool, t: int, u: int)
    requires Instant(t) && Instant(u)
    ensures Strftime(allDay, t) == Strftime(allDay, u) <==> t / Unit(allDay) == u / Unit(allDay)
  {
    hide RenderDay, RenderMinute, CivilOf;
    SameDay(t, u);
    if !allDay {
      SplitMinute(t);
      SplitMinute(u);
      RenderMinuteTellsApart(t % 86400 / 60, u % 86400 / 60);
      var (s, v) := (Strftime(false, t), Strftime(false, u));
      assert s[..10] == RenderDay(CivilOf(t / 86400)) && s[10..] == RenderMinute(t % 86400 / 60);
      assert v[..10] == RenderDay(CivilOf(u / 86400)) && v[10..] == RenderMinute(u % 86400 / 60);
    }
  }

  lemma DigitIsInk(d: nat)
    requires d < 10
    ensures !IsSpace(Digit(d))
  {
  }

  lemma InkIsNotBlank(s: string)
    requires s != "" && !IsSpace(s[0])
    ensures !Blank(s)
  {
    StripShape(s);
    hide IsSpace, Strip;
  }

  lemma StrftimeIsNotBlank(allDay: bool, t: int)
    requires Instant(t)
    ensures |Strftime(allDay, t)| == KeyWidth(allDay) && !Blank(Strftime(allDay, t))
  {
    var c := CivilOf(t / 86400);
    var s := Strftime(allDay, t);
    assert s[0] == Pad(c.year, 4)[0] == Pad(c.year / 10 / 10 / 10, 1)[0];
    DigitIsInk(c.year / 10 / 10 / 10 % 10);
    hide IsSpace, Blank, CivilOf;
    InkIsNotBlank(s);
  }

  /** The formats in use fit the width of a key, are not blank, and tell two
      datetimes apart exactly by their minute or day. */
  lemma StrftimeRenders()
    ensures Renders(Strftime)
  {
    hide Strftime, Blank;
    forall allDay, t | Instant(t)
      ensures |Strftime(allDay, t)| <= KeyWidth(allDay) && !Blank(Strftime(allDay, t))
    {
      StrftimeIsNotBlank(allDay, t);
    }
    forall allDay, t, u | Instant(t) && Instant(u)
      ensures Strftime(allDay, t) == Strftime(allDay, u) <==> t / Unit(allDay) == u / Unit(allDay)
    {
      StrftimeTellsApart(allDay, t, u);
    }
  }
}
