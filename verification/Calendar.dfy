// Calendar days, their ISO text (section 5.1 of RFC 3339: fixed-width fields
// sort as text) and the ten-year retention date.
module Calendar {
  import opened Prelude
  import Text

  const RETENTION_YEARS := 10
  const MAX_YEAR := 9999

  datatype Day = Day(year: int, month: int, day: int)

  predicate Leap(year: int) {
    year % 4 == 0 && (year % 100 != 0 || year % 400 == 0)
  }

  function DaysIn(year: int, month: int): int {
    if month == 2 then (if Leap(year) then 29 else 28)
    else if month == 4 || month == 6 || month == 9 || month == 11 then 30
    else 31
  }

  predicate ValidDay(d: Day) {
    1 <= d.year <= MAX_YEAR && 1 <= d.month <= 12 && 1 <= d.day <= DaysIn(d.year, d.month)
  }

  type Date = d: Day | ValidDay(d) witness Day(1, 1, 1)

  predicate Before(a: Date, b: Date) {
    a.year < b.year || (a.year == b.year && (a.month < b.month || (a.month == b.month && a.day < b.day)))
  }

  // Thirty days have April, June, September and November; the first and the last day.
  lemma MonthLengths(year: int, month: int)
    requires 1 <= month <= 12
    ensures DaysIn(year, month) ==
      [31, if Leap(year) then 29 else 28, 31, 30, 31, 30, 31, 31, 30, 31, 30, 31][month - 1]
    ensures ValidDay(Day(1, 1, 1)) && ValidDay(Day(9999, 12, 31))
  {
  }

  // The days of the months before this one.
  function DaysBeforeMonth(year: int, month: nat): int {
    if month <= 1 then 0 else DaysBeforeMonth(year, month - 1) + DaysIn(year, month - 1)
  }

  // The days of the years 1 to n.
  function DaysOfYears(n: nat): int {
    if n == 0 then 0 else DaysOfYears(n - 1) + DaysBeforeMonth(n, 13)
  }

  lemma {:induction false} YearLength(year: int)
    ensures DaysBeforeMonth(year, 13) == if Leap(year) then 366 else 365
  {
    assert DaysBeforeMonth(year, 3) == DaysBeforeMonth(year, 2) + DaysIn(year, 2);
    assert DaysBeforeMonth(year, 5) == DaysBeforeMonth(year, 4) + 30;
    assert DaysBeforeMonth(year, 7) == DaysBeforeMonth(year, 6) + 30;
    assert DaysBeforeMonth(year, 9) == DaysBeforeMonth(year, 8) + 31;
    assert DaysBeforeMonth(year, 11) == DaysBeforeMonth(year, 10) + 31;
    assert DaysBeforeMonth(year, 13) == DaysBeforeMonth(year, 12) + 31;
  }

  lemma NextQuotient(n: nat, k: int)
    requires n > 0 && k in {4, 100, 400}
    ensures n / k == (n - 1) / k + if n % k == 0 then 1 else 0
  {
  }

  lemma HundredsAreFours(n: nat)
    requires n % 100 == 0
    ensures n % 4 == 0
  {
    var e := 25 * (n / 100);
    assert n == 4 * e;
    assert n / 4 == e;
  }

  lemma FourHundredsAreHundreds(n: nat)
    requires n % 400 == 0
    ensures n % 100 == 0
  {
    var e := 4 * (n / 400);
    assert n == 100 * e;
    assert n / 100 == e;
  }

  lemma LeapByRemainders(n: nat)
    ensures (if Leap(n) then 1 else 0) ==
      (if n % 4 == 0 then 1 else 0) - (if n % 100 == 0 then 1 else 0) + (if n % 400 == 0 then 1 else 0)
  {
    if n % 400 == 0 {
      FourHundredsAreHundreds(n);
    }
    if n % 100 == 0 {
      HundredsAreFours(n);
    }
  }

  // The Gregorian count of days.
  lemma {:induction false} GregorianCount(n: nat)
    ensures DaysOfYears(n) == 365 * n + n / 4 - n / 100 + n / 400
  {
    if n > 0 {
      GregorianCount(n - 1);
      YearLength(n);
      LeapByRemainders(n);
      NextQuotient(n, 4);
      NextQuotient(n, 100);
      NextQuotient(n, 400);
    }
  }

  // ------------------------------------------------ ISO text

  function Pad2(n: nat): string
    requires n < 100
  {
    [Text.Digit(n / 10), Text.Digit(n % 10)]
  }

  function Pad4(n: nat): string
    requires n < 10000
  {
    Pad2(n / 100) + Pad2(n % 100)
  }

  function Iso(d: Date): string {
    Pad4(d.year) + ("-" + (Pad2(d.month) + ("-" + Pad2(d.day))))
  }

  lemma Pad2Order(m: nat, n: nat)
    requires m < 100 && n < 100
    ensures Pad2(m) == Pad2(n) <==> m == n
    ensures Text.Less(Pad2(m), Pad2(n)) <==> m < n
  {
    var a, b := Pad2(m), Pad2(n);
    assert a[0] == Text.Digit(m / 10) && a[1] == Text.Digit(m % 10);
    assert b[0] == Text.Digit(n / 10) && b[1] == Text.Digit(n % 10);
    assert a[1..] == [a[1]] && b[1..] == [b[1]];
    assert a[1..][1..] == [] && b[1..][1..] == [];
    assert Text.Less(a[1..], b[1..]) <==> a[1] < b[1];
  }

  lemma Pad4Order(m: nat, n: nat)
    requires m < 10000 && n < 10000
    ensures Pad4(m) == Pad4(n) <==> m == n
    ensures Text.Less(Pad4(m), Pad4(n)) <==> m < n
  {
    Pad2Order(m / 100, n / 100);
    Pad2Order(m % 100, n % 100);
    Text.LessByPrefix(Pad2(m / 100), Pad2(n / 100), Pad2(m % 100), Pad2(n % 100));
    assert Pad4(m)[..2] == Pad2(m / 100) && Pad4(n)[..2] == Pad2(n / 100);
    assert Pad4(m)[2..] == Pad2(m % 100) && Pad4(n)[2..] == Pad2(n % 100);
  }

  // One field of the text at a time.
  lemma {:induction false} FieldOrder(a: string, b: string, u: string, v: string)
    requires |a| == |b|
    ensures a + u == b + v <==> a == b && u == v
    ensures Text.Less(a + u, b + v) <==> if a == b then Text.Less(u, v) else Text.Less(a, b)
  {
    Text.LessByPrefix(a, b, u, v);
    assert (a + u)[..|a|] == a && (b + v)[..|b|] == b;
    assert (a + u)[|a|..] == u && (b + v)[|b|..] == v;
  }

  // Dates order as their ISO texts do, and equal texts are equal dates.
  lemma IsoOrder(a: Date, b: Date)
    ensures Iso(a) == Iso(b) <==> a == b
    ensures Text.Less(Iso(a), Iso(b)) <==> Before(a, b)
  {
    Pad4Order(a.year, b.year);
    Pad2Order(a.month, b.month);
    Pad2Order(a.day, b.day);
    var ad, bd := Pad2(a.day), Pad2(b.day);
    FieldOrder("-", "-", ad, bd);
    FieldOrder(Pad2(a.month), Pad2(b.month), "-" + ad, "-" + bd);
    var am, bm := Pad2(a.month) + ("-" + ad), Pad2(b.month) + ("-" + bd);
    FieldOrder("-", "-", am, bm);
    FieldOrder(Pad4(a.year), Pad4(b.year), "-" + am, "-" + bm);
  }

  lemma IsoExample()
    ensures Iso(Day(2026, 1, 5)) == "2026-01-05"
  {
  }

  // ------------------------------------------------ timestamps

  // A stored timestamp: an ISO date followed by whatever time of day it carries.
  datatype Stamp = Stamp(day: Date, rest: string)

  function StampText(s: Stamp): string {
    Iso(s.day) + s.rest
  }

  // The latest timestamp as text is one of the latest day.
  lemma StampOrder(a: Stamp, b: Stamp)
    requires Text.AtMost(StampText(a), StampText(b))
    ensures !Before(b.day, a.day)
  {
    IsoOrder(b.day, a.day);
    FieldOrder(Iso(b.day), Iso(a.day), b.rest, a.rest);
  }

  // ------------------------------------------------ the retention date

  // start.replace(year + 10), a 29 February falling back to the 28th; None where
  // the year leaves the calendar and the code raises.
  function RetentionFrom(start: Date): (r: Option<Date>)
    ensures r.Some? <==> start.year + RETENTION_YEARS <= MAX_YEAR
  {
    var year := start.year + RETENTION_YEARS;
    if year > MAX_YEAR then None
    else if start.day <= DaysIn(year, start.month) then Some(Day(year, start.month, start.day))
    else Some(Day(year, start.month, 28))
  }

  // Later starts never give earlier retention dates, leap days included.
  lemma RetentionMonotone(a: Date, b: Date)
    requires !Before(b, a) && RetentionFrom(b).Some?
    ensures RetentionFrom(a).Some? && !Before(RetentionFrom(b).value, RetentionFrom(a).value)
  {
  }

  // The period is ten years, short of one day exactly for a 29 February.
  lemma RetentionIsTenYears(a: Date)
    requires RetentionFrom(a).Some?
    ensures
      var r := RetentionFrom(a).value;
      && r.year == a.year + 10 && r.month == a.month
      && (if a.month == 2 && a.day == 29 then r.day == 28 else r.day == a.day)
  {
  }
}
