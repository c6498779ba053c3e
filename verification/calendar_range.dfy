/** The range computation of the `calendar` command: the option check,
    the current week (Monday to Sunday) and the current month, and the
    selection of the records whose date falls in a range. */
module CalendarRange {
  import opened Wrappers
  import opened Dates
  import opened Events

  datatype RangeOption = WholeCalendar | ThisWeek | ThisMonth

  /** The option check: no option, the empty text or `-a` lists the whole
      calendar, `-w` the current week, `-m` the current month, and any
      other text is refused. */
  function ParseOption(option: Option<string>): (r: Result<RangeOption, Error>)
    ensures r.Failure? <==>
      option.Some? && option.value != "" && option.value != "-a" && option.value != "-w" && option.value != "-m"
    ensures r.Failure? ==> r.error == Usage
    ensures r == Success(ThisWeek) <==> option == Some("-w")
    ensures r == Success(ThisMonth) <==> option == Some("-m")
  {
    match option
    case None => Success(WholeCalendar)
    case Some(o) =>
      if o == "" || o == "-a" then Success(WholeCalendar)
      else if o == "-w" then Success(ThisWeek)
      else if o == "-m" then Success(ThisMonth)
      else Failure(Usage)
  }

  /** Inclusive date range membership. */
  predicate InRange(d: Date, start: Date, end: Date) {
    AtOrBefore(start, d) && AtOrBefore(d, end)
  }

  lemma OrdinalPositive(d: Date)
    requires ValidDate(d)
    ensures Ordinal(d) >= 1
  {
    OrdinalOrder(FirstDate, d);
  }

  /** `today - timedelta(days=today.weekday())` and that plus six days: the
      Monday of the current week and the Sunday after it. Only in the last
      days of year 9999 can the Sunday be out of range. */
  function WeekRange(today: Date): (r: Result<(Date, Date), Error>)
    requires ValidDate(today)
    ensures r.Success? ==>
      var (start, end) := r.value;
      && ValidDate(start) && ValidDate(end)
      && Weekday(start) == 0
      && AtOrBefore(start, today) && Ordinal(today) - Ordinal(start) <= 6
      && Ordinal(end) == Ordinal(start) + 6
      && Ordinal(start) == Ordinal(today) - Weekday(today)
    ensures r.Failure? ==> r.error == DateOverflow && today.year == MaxYear && today.month == 12
    ensures r.Failure? <==> Ordinal(today) - Weekday(today) + 6 > MaxOrdinal
  {
    var w := Weekday(today);
    MondayStart(today);
    var start := SubtractDays(today, w).value;
    OrdinalOrder(start, today);
    match AddDays(start, 6)
    case None =>
      WeekEndOverflow(today, start);
      Failure(DateOverflow)
    case Some(end) => Success((start, end))
  }

  lemma DayNumberMonday(o: int)
    requires o >= 1
    ensures (o + 6) % 7 < o
    ensures (o - (o + 6) % 7 + 6) % 7 == 0
  {
    var w := (o + 6) % 7;
    assert o + 6 == 7 * ((o + 6) / 7) + w;
  }

  /** A date that many days before day number `o` as `o`'s weekday is a
      Monday. */
  lemma MondayOfOrdinal(d: Date, o: int)
    requires ValidDate(d) && o >= 1 && Ordinal(d) == o - (o + 6) % 7
    ensures Weekday(d) == 0
  {
    DayNumberMonday(o);
  }

  /** Stepping back by the weekday stays in range and lands on a Monday. */
  lemma MondayStart(today: Date)
    requires ValidDate(today)
    ensures SubtractDays(today, Weekday(today)).Some?
    ensures Weekday(SubtractDays(today, Weekday(today)).value) == 0
  {
    OrdinalPositive(today);
    var o := Ordinal(today);
    DayNumberMonday(o);
    var w := Weekday(today);
    assert w == (o + 6) % 7;
    var r := SubtractDays(today, w);
    assert r.Some?;
    var start := r.value;
    assert Ordinal(start) == o - w;
    MondayOfOrdinal(start, o);
  }

  lemma WeekEndOverflow(today: Date, start: Date)
    requires ValidDate(today) && ValidDate(start)
    requires Ordinal(start) <= Ordinal(today)
    requires Ordinal(start) + 6 > MaxOrdinal
    ensures today.year == MaxYear && today.month == 12
  {
    var dec1 := Date(MaxYear, 12, 1);
    assert Ordinal(dec1) + 30 == MaxOrdinal;
    OrdinalOrder(today, dec1);
  }

  /** `d` lies in the Monday-to-Sunday week of `today`, by day number. */
  predicate InWeekOf(d: Date, today: Date)
    requires ValidDate(d) && ValidDate(today)
  {
    var monday := Ordinal(today) - Weekday(today);
    monday <= Ordinal(d) <= monday + 6
  }

  predicate InMonthOf(d: Date, today: Date) {
    d.year == today.year && d.month == today.month
  }

  /** A week range holds exactly the dates of the week of `today`. */
  lemma WeekRangeExact(today: Date)
    requires ValidDate(today) && WeekRange(today).Success?
    ensures forall d :: ValidDate(d) ==>
      (InRange(d, WeekRange(today).value.0, WeekRange(today).value.1) <==> InWeekOf(d, today))
  {
    var (start, end) := WeekRange(today).value;
    forall d | ValidDate(d)
      ensures InRange(d, start, end) <==> InWeekOf(d, today)
    {
      OrdinalOrder(start, d);
      OrdinalOrder(d, end);
    }
  }

  /** The first and last day of the current month. The last day is the day
      before the first of the next month, and for December it is the 31st. */
  function MonthRange(today: Date): (r: (Date, Date))
    requires ValidDate(today)
    ensures ValidDate(r.0) && ValidDate(r.1)
    ensures r.0 == Date(today.year, today.month, 1)
    ensures r.1.year == today.year && r.1.month == today.month
    ensures r.1.day == DaysInMonth(today.year, today.month)
    ensures forall d :: ValidDate(d) ==> (InRange(d, r.0, r.1) <==> InMonthOf(d, today))
  {
    var first := Date(today.year, today.month, 1);
    if today.month < 12 then (first, PrevDay(Date(today.year, today.month + 1, 1)))
    else (first, Date(today.year, 12, 31))
  }

  /** `today.replace(day=1, month=today.month+1) - timedelta(days=1)` as
      written: in December the month becomes 13 and `replace` raises, so
      the monthly calendar fails for the whole of December. In every other
      month it agrees with `MonthRange`. */
  function MonthRangeAsWritten(today: Date): (r: Result<(Date, Date), Error>)
    requires ValidDate(today)
    ensures r.Failure? <==> today.month == 12
    ensures r.Failure? ==> r.error == MonthOutOfRange
    ensures r.Success? ==> r.value == MonthRange(today)
  {
    if today.month + 1 > 12 then Failure(MonthOutOfRange)
    else Success((Date(today.year, today.month, 1), PrevDay(Date(today.year, today.month + 1, 1))))
  }

  /** The records whose date lies in the range, in store order. */
  function EventsWithin(store: Store, start: Date, end: Date): (r: Store)
    ensures |r| <= |store|
    ensures forall e :: e in r <==> e in store && InRange(e.date, start, end)
    ensures forall e :: multiset(r)[e] == if InRange(e.date, start, end) then multiset(store)[e] else 0
    decreases |store|
  {
    if |store| == 0 then []
    else
      var rest := EventsWithin(store[1..], start, end);
      assert store == [store[0]] + store[1..];
      assert multiset(store) == multiset{store[0]} + multiset(store[1..]);
      if InRange(store[0].date, start, end) then
        assert multiset([store[0]] + rest) == multiset{store[0]} + multiset(rest);
        [store[0]] + rest
      else rest
  }
}
