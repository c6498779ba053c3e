/** Proleptic Gregorian dates as Python's `datetime.date` treats them:
    years 1 through 9999, the ordinal day number of `toordinal()`, the
    weekday of `weekday()` and day arithmetic with `timedelta(days=n)`,
    which fails when it leaves the representable range. */
module Dates {
  import opened Wrappers

  datatype Date = Date(year: int, month: int, day: int)

  const MinYear := 1
  const MaxYear := 9999
  const FirstDate := Date(MinYear, 1, 1)
  const LastDate := Date(MaxYear, 12, 31)

  predicate IsLeapYear(y: int) {
    y % 4 == 0 && (y % 100 != 0 || y % 400 == 0)
  }

  function DaysInMonth(y: int, m: int): (n: int)
    requires 1 <= m <= 12
    ensures 28 <= n <= 31
    ensures n == 29 <==> m == 2 && IsLeapYear(y)
  {
    if m == 2 then (if IsLeapYear(y) then 29 else 28)
    else if m == 4 || m == 6 || m == 9 || m == 11 then 30
    else 31
  }

  function DaysInYear(y: int): int {
    if IsLeapYear(y) then 366 else 365
  }

  /** A date that exists: what the `date` constructor accepts. */
  predicate ValidDate(d: Date) {
    MinYear <= d.year <= MaxYear && 1 <= d.month <= 12 && 1 <= d.day <= DaysInMonth(d.year, d.month)
  }

  /** Python's `a < b` on dates: by year, then month, then day. */
  predicate Before(a: Date, b: Date) {
    a.year < b.year
    || (a.year == b.year && (a.month < b.month || (a.month == b.month && a.day < b.day)))
  }

  predicate AtOrBefore(a: Date, b: Date) {
    a == b || Before(a, b)
  }

  /** Days in the years before `y` (Python's `_days_before_year`). */
  function DaysBeforeYear(y: int): int
    requires y >= 1
  {
    var p := y - 1;
    p * 365 + p / 4 - p / 100 + p / 400
  }

  /** Days in the months of year `y` before month `m`; month 13 stands for
      the whole year (Python's `_days_before_month`). */
  function DaysBeforeMonth(y: int, m: int): int
    requires 1 <= m <= 13
  {
    var table := [0, 31, 59, 90, 120, 151, 181, 212, 243, 273, 304, 334, 365];
    table[m - 1] + (if m > 2 && IsLeapYear(y) then 1 else 0)
  }

  /** Python's `date.toordinal()`: 0001-01-01 is day 1. */
  function Ordinal(d: Date): int
    requires d.year >= 1 && 1 <= d.month <= 12
  {
    DaysBeforeYear(d.year) + DaysBeforeMonth(d.year, d.month) + d.day
  }

  const MaxOrdinal := Ordinal(LastDate)

  /** Python's `date.weekday()`: Monday is 0, Sunday is 6. */
  function Weekday(d: Date): (r: int)
    requires d.year >= 1 && 1 <= d.month <= 12
    ensures 0 <= r < 7
  {
    (Ordinal(d) + 6) % 7
  }

  lemma YearStep(y: int)
    requires y >= 1
    ensures DaysBeforeYear(y + 1) == DaysBeforeYear(y) + DaysInYear(y)
  {
    var p := y - 1;
    assert (p + 1) / 4 == p / 4 + (if y % 4 == 0 then 1 else 0);
    assert (p + 1) / 100 == p / 100 + (if y % 100 == 0 then 1 else 0);
    assert (p + 1) / 400 == p / 400 + (if y % 400 == 0 then 1 else 0);
  }

  lemma MonthStep(y: int, m: int)
    requires 1 <= m <= 12
    ensures DaysBeforeMonth(y, m + 1) == DaysBeforeMonth(y, m) + DaysInMonth(y, m)
  {
  }

  lemma {:induction false} MonthMonotone(y: int, m1: int, m2: int)
    requires 1 <= m1 <= m2 <= 13
    ensures DaysBeforeMonth(y, m1) <= DaysBeforeMonth(y, m2)
    decreases m2 - m1
  {
    if m1 < m2 {
      MonthStep(y, m1);
      MonthMonotone(y, m1 + 1, m2);
    }
  }

  lemma {:induction false} YearMonotone(y1: int, y2: int)
    requires 1 <= y1 <= y2
    ensures DaysBeforeYear(y1) + 365 * (y2 - y1) <= DaysBeforeYear(y2)
    decreases y2 - y1
  {
    if y1 < y2 {
      YearStep(y1);
      YearMonotone(y1 + 1, y2);
    }
  }

  /** The ordinal numbering is faithful to the calendar order, so comparing
      dates and comparing day numbers agree. */
  lemma OrdinalOrder(a: Date, b: Date)
    requires ValidDate(a) && ValidDate(b)
    ensures Before(a, b) <==> Ordinal(a) < Ordinal(b)
    ensures a == b <==> Ordinal(a) == Ordinal(b)
  {
    if Before(a, b) {
      OrdinalBefore(a, b);
    } else if Before(b, a) {
      OrdinalBefore(b, a);
    }
  }

  lemma OrdinalBefore(a: Date, b: Date)
    requires ValidDate(a) && ValidDate(b) && Before(a, b)
    ensures Ordinal(a) < Ordinal(b)
  {
    if a.year < b.year {
      MonthStep(a.year, a.month);
      MonthMonotone(a.year, a.month + 1, 13);
      YearStep(a.year);
      YearMonotone(a.year + 1, b.year);
    } else if a.month < b.month {
      MonthStep(a.year, a.month);
      MonthMonotone(a.year, a.month + 1, b.month);
    }
  }

  /** The day after `d`, rolling over months and years; past 9999-12-31
      it leaves the valid range. */
  function NextDay(d: Date): (r: Date)
    requires ValidDate(d)
    ensures r.year >= 1 && 1 <= r.month <= 12
    ensures Ordinal(r) == Ordinal(d) + 1
    ensures ValidDate(r) <==> d != LastDate
  {
    if d.day < DaysInMonth(d.year, d.month) then Date(d.year, d.month, d.day + 1)
    else if d.month < 12 then
      MonthStep(d.year, d.month);
      Date(d.year, d.month + 1, 1)
    else
      MonthStep(d.year, 12);
      YearStep(d.year);
      Date(d.year + 1, 1, 1)
  }

  /** 0001-01-01 was a Monday, and each next day is the next weekday, so
      the week days cycle Monday to Sunday. */
  lemma WeekdayCycle(d: Date)
    requires ValidDate(d)
    ensures Weekday(FirstDate) == 0
    ensures Weekday(NextDay(d)) == (Weekday(d) + 1) % 7
  {
    var o, n := Ordinal(d), Ordinal(NextDay(d));
    assert n == o + 1;
    DayNumberStep(o);
    assert Weekday(NextDay(d)) == (n + 6) % 7;
    assert Weekday(d) == (o + 6) % 7;
  }

  lemma DayNumberStep(o: int)
    ensures (o + 1 + 6) % 7 == ((o + 6) % 7 + 1) % 7
  {
  }

  /** The day before `d`, rolling back over months and years. */
  function PrevDay(d: Date): (r: Date)
    requires ValidDate(d) && d != FirstDate
    ensures ValidDate(r)
    ensures Ordinal(r) + 1 == Ordinal(d)
    ensures NextDay(r) == d
  {
    if d.day > 1 then Date(d.year, d.month, d.day - 1)
    else if d.month > 1 then
      var r := Date(d.year, d.month - 1, DaysInMonth(d.year, d.month - 1));
      assert NextDay(r) == d;
      r
    else
      var r := Date(d.year - 1, 12, 31);
      assert NextDay(r) == d;
      r
  }

  /** Python's `d + timedelta(days=n)`: the date `n` days later, or None
      (an `OverflowError`) when that is past 9999-12-31. */
  function AddDays(d: Date, n: nat): (r: Option<Date>)
    requires ValidDate(d)
    ensures r.Some? <==> Ordinal(d) + n <= MaxOrdinal
    ensures r.Some? ==> ValidDate(r.value) && Ordinal(r.value) == Ordinal(d) + n
    decreases n
  {
    OrdinalOrder(d, LastDate);
    if n == 0 then Some(d)
    else if d == LastDate then None
    else AddDays(NextDay(d), n - 1)
  }

  /** Python's `d - timedelta(days=n)`: the date `n` days earlier, or None
      (an `OverflowError`) when that is before 0001-01-01. */
  function SubtractDays(d: Date, n: nat): (r: Option<Date>)
    requires ValidDate(d)
    ensures r.Some? <==> n < Ordinal(d)
    ensures r.Some? ==> ValidDate(r.value) && Ordinal(r.value) + n == Ordinal(d)
    decreases n
  {
    OrdinalOrder(FirstDate, d);
    if n == 0 then Some(d)
    else if d == FirstDate then None
    else SubtractDays(PrevDay(d), n - 1)
  }
}
