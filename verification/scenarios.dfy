/** Concrete runs of the validators and handlers, including one witness
    for each place where the script as written departs from what it
    evidently means to do. */
module Scenarios {
  import opened Wrappers
  import opened Text
  import opened Dates
  import opened Validators
  import opened Events
  import opened UpdateTokens
  import opened CalendarRange
  import opened Handlers

  // ---------------------------------------------------------------------
  // Validators

  /** Text that spells a time in compact form validates to its canonical
      form. */
  lemma CompactValidates(s: string, t: Time)
    requires ValidTime(t) && s == CompactTime(t)
    ensures ValidateTime(s) == Some(FormatTime(t))
  {
    ParseCompact(t);
  }

  lemma NineAm()
    ensures ValidateTime("9:00AM") == Some("9:00 AM")
  {
    var t := Time(9, 0, AM);
    assert NatToString(9) == "9";
    assert MinuteText(0) == "00";
    assert CompactTime(t) == "9:00AM";
    assert FormatTime(t) == "9:00 AM";
    CompactValidates("9:00AM", t);
  }

  lemma HalfPastTen()
    ensures ValidateTime("10:30AM") == Some("10:30 AM")
  {
    var t := Time(10, 30, AM);
    assert NatToString(10) == "10";
    assert MinuteText(30) == "30";
    assert CompactTime(t) == "10:30AM";
    assert FormatTime(t) == "10:30 AM";
    CompactValidates("10:30AM", t);
  }

  lemma FivePastOne()
    ensures ValidateTime("1:05PM") == Some("1:05 PM")
  {
    var t := Time(1, 5, PM);
    assert NatToString(1) == "1";
    assert MinuteText(5) == "05";
    assert CompactTime(t) == "1:05PM";
    assert FormatTime(t) == "1:05 PM";
    CompactValidates("1:05PM", t);
  }

  /** The period may be written in lower case ... */
  lemma LowerCasePeriod()
    ensures ValidateTime("1:05pm") == Some("1:05 PM")
  {
    FivePastOne();
    var lower, upper := "1:05pm", "1:05PM";
    assert UpperChar('p') == 'P' && UpperChar('m') == 'M';
    assert forall i :: 0 <= i < 6 ==> Upper(lower)[i] == upper[i];
    assert Upper(lower) == upper;
    ValidateTimeIgnoresCase(lower, upper);
  }

  /** ... and a leading zero on the hour is accepted and dropped. */
  lemma LeadingZeroHour()
    ensures ValidateTime("01:05pm") == Some("1:05 PM")
  {
    LowerCasePeriod();
    var s := "01:05pm";
    assert s == "0" + "1:05pm";
    ValidateTimeLeadingZero("1:05pm");
  }

  /** Hour 13, hour 0 and a space before the period are refused. */
  lemma TimesRefused()
    ensures ValidateTime("13:00AM") == None
    ensures ValidateTime("0:30PM") == None
    ensures ValidateTime("9:05 PM") == None
  {
    var a := "13:00AM";
    assert a[..2] == "13";
    TwoDigits("13");
    var b := "0:30PM";
    assert b[..1] == "0";
    OneDigit("0");
    var c := "9:05 PM";
    assert !IsDigit(c[1]);
  }

  /** Three fields free of separators, matching their patterns, validate
      to the date they spell. */
  lemma FieldsValidate(s: string, m: string, d: string, y: string, sep1: char, sep2: char, date: Date)
    requires sep1 == '/' || sep1 == '-'
    requires sep2 == '/' || sep2 == '-'
    requires '/' !in m && '/' !in d && '/' !in y && '-' !in m && '-' !in d && '-' !in y
    requires s == m + [sep1] + d + [sep2] + y
    requires MonthPattern(m) && DayPattern(d) && YearPattern(y)
    requires MonthField(m).value == date.month && DayField(d).value == date.day
    requires DigitsValue(y) == date.year
    ensures ValidateDate(s) == if ValidDate(date) then Some(date) else None
  {
    ValidateDateOfFields(m, d, y, sep1, sep2);
  }

  /** `01?10/2030` with either separator first. */
  lemma January10Text(s: string, sep: char)
    requires sep == '/' || sep == '-'
    requires s == "01" + [sep] + "10" + ['/'] + "2030"
    ensures ValidateDate(s) == Some(Date(2030, 1, 10))
  {
    TwoDigits("01");
    TwoDigits("10");
    FourDigits("2030");
    assert MonthField("01").value == 1;
    assert DayField("10").value == 10;
    ValidateDateOfFields("01", "10", "2030", sep, '/');
  }

  lemma January10()
    ensures ValidateDate("01/10/2030") == Some(Date(2030, 1, 10))
  {
    var s := "01/10/2030";
    assert s == "01" + ['/'] + "10" + ['/'] + "2030";
    January10Text(s, '/');
  }

  lemma LeapDayText(s: string, y: string, year: int)
    requires s == "02" + ['/'] + "29" + ['/'] + y
    requires YearPattern(y) && DigitsValue(y) == year && MinYear <= year <= MaxYear
    ensures ValidateDate(s) == if IsLeapYear(year) then Some(Date(year, 2, 29)) else None
  {
    TwoDigits("02");
    TwoDigits("29");
    assert MonthField("02").value == 2;
    assert DayField("29").value == 29;
    ValidateDateOfFields("02", "29", y, '/', '/');
    assert ValidDate(Date(year, 2, 29)) <==> DaysInMonth(year, 2) == 29;
  }

  /** February 29 exists in 2024 ... */
  lemma February29Leap()
    ensures ValidateDate("02/29/2024") == Some(Date(2024, 2, 29))
  {
    FourDigits("2024");
    var s := "02/29/2024";
    assert s == "02" + ['/'] + "29" + ['/'] + "2024";
    LeapDayText(s, "2024", 2024);
  }

  /** ... and not in 2023. */
  lemma February29Common()
    ensures ValidateDate("02/29/2023") == None
  {
    FourDigits("2023");
    var s := "02/29/2023";
    assert s == "02" + ['/'] + "29" + ['/'] + "2023";
    LeapDayText(s, "2023", 2023);
  }

  /** Month 13 does not match the month pattern. */
  lemma Month13()
    ensures ValidateDate("13/01/2024") == None
  {
    var s := "13/01/2024";
    assert s == "13" + ['/'] + "01" + ['/'] + "2024";
    ValidateDateOfFields("13", "01", "2024", '/', '/');
  }

  // ---------------------------------------------------------------------
  // Handlers

  const Today := Date(2026, 10, 10)
  const Standup := Event("Standup", Date(2030, 1, 10), "9:00 AM", "Alice")
  const Retro := Event("Retro", Date(2030, 1, 11), "4:00 PM", "Bob")

  /** Adding "Standup" to an empty calendar stores exactly that record. */
  lemma AddStandup()
    ensures AddEvent([], ["Standup", "01/10/2030", "9:00AM", "Alice"], Today) == Outcome([Standup], Success(Added(Standup)))
  {
    January10();
    NineAm();
  }

  /** "Standup", "standup" and "STANDUP" are one name ignoring case. */
  lemma StandupName(a: string, b: string)
    requires a == "Standup" || a == "standup" || a == "STANDUP"
    requires b == "Standup" || b == "standup" || b == "STANDUP"
    ensures SameIgnoringCase(a, b)
  {
    assert Lower("Standup") == "standup";
    assert Lower("standup") == "standup";
    assert Lower("STANDUP") == "standup";
  }

  /** Adding "standup" once "Standup" is on record is refused as a
      duplicate, whatever the case. */
  lemma AddDuplicate()
    ensures AddEvent([Standup], ["standup", "01/10/2030", "9:00AM", "Alice"], Today) == Outcome([Standup], Failure(DuplicateName))
  {
    January10();
    NineAm();
    var args := ["standup", "01/10/2030", "9:00AM", "Alice"];
    assert args[1] == "01/10/2030" && args[2] == "9:00AM";
    assert !Before(Date(2030, 1, 10), Today);
    StandupName(Standup.name, args[0]);
    assert Find([Standup], args[0]) == Some(0);
  }

  /** A single `key=value` token names `key` and carries `value`. */
  lemma SingleToken(k: string, v: string, key: string)
    requires '=' !in k && '=' !in v
    ensures LastValue([k + "=" + v], key) == if key == k then Some(v) else None
  {
    TokenParts(k, v);
    var t := k + "=" + v;
    assert t[|k|] == '=';
    var none: seq<string> := [];
    assert [t][..0] == none;
  }

  /** The record an update of one `key=value` token is meant to produce. */
  lemma ExpectedOfOne(e: Event, k: string, v: string)
    requires '=' !in k && '=' !in v
    ensures Expected(e, [k + "=" + v]) == Event(
      if k == "name" && v != "" then v else e.name,
      if k == "date" && ValidateDate(v).Some? then ValidateDate(v).value else e.date,
      if k == "time" && ValidateTime(v).Some? then ValidateTime(v).value else e.time,
      if k == "contact" && v != "" then v else e.contact)
  {
    SingleToken(k, v, "name");
    SingleToken(k, v, "date");
    SingleToken(k, v, "time");
    SingleToken(k, v, "contact");
  }

  /** An update of a one-record store by its own name and one well-formed
      token that keeps the name free. */
  lemma UpdateSingle(e: Event, name: string, tok: string)
    requires SameIgnoringCase(e.name, name) && WellFormedToken(tok)
    ensures UpdateEvent([e], [name, tok]) == Outcome([Expected(e, [tok])], Success(Updated(Expected(e, [tok]))))
  {
    var args := [name, tok];
    assert args[1..] == [tok];
    assert Find([e], name) == Some(0);
    assert AllWellFormed(args[1..]);
    var x := Expected(e, [tok]);
    assert !NameTakenByOther([e], 0, x.name);
    var r := UpdateEvent([e], args);
    assert r.reply.Success?;
    assert |r.store| == 1 && r.store[0] == x;
    assert r.store == [x];
  }

  /** Updating only the time changes the time and nothing else. */
  lemma UpdateTimeOnly()
    ensures UpdateEvent([Standup], ["Standup", "time=10:30AM"]) == Outcome([Standup.(time := "10:30 AM")], Success(Updated(Standup.(time := "10:30 AM"))))
  {
    var tok := "time=10:30AM";
    assert tok == "time" + "=" + "10:30AM";
    HalfPastTen();
    TokenParts("time", "10:30AM");
    ExpectedOfOne(Standup, "time", "10:30AM");
    UpdateSingle(Standup, "Standup", tok);
  }

  /** The same update as written, on a one-record store. */
  lemma UpdateAsWrittenSingle(e: Event, name: string, tok: string)
    requires SameIgnoringCase(e.name, name) && WellFormedToken(tok)
    ensures UpdateAsWritten([e], [name, tok]) ==
      Outcome(WriteAsWritten([e], name, Expected(e, [tok])), Success(Updated(Expected(e, [tok]))))
  {
    var args := [name, tok];
    assert args[1..] == [tok];
    assert Find([e], name) == Some(0);
    assert AllWellFormed(args[1..]);
    var r := UpdateAsWritten([e], args);
    assert r.reply.Success?;
  }

  /** The row write as written on a one-record store: the record is hit
      only when its name is exactly `key`, and then its time column takes
      the contact. */
  lemma WriteOne(e: Event, key: string, x: Event)
    ensures WriteAsWritten([e], key, x) ==
      if e.name == key then [Event(x.name, x.date, x.contact, e.contact)] else [e]
  {
  }

  /** As written, updating the time of "Standup" writes its contact into
      the time column and leaves the new time nowhere. */
  lemma UpdateAsWrittenOverwritesTime()
    ensures UpdateAsWritten([Standup], ["Standup", "time=10:30AM"]).reply == Success(Updated(Standup.(time := "10:30 AM")))
    ensures UpdateAsWritten([Standup], ["Standup", "time=10:30AM"]).store == [Standup.(time := "Alice")]
  {
    var tok := "time=10:30AM";
    assert tok == "time" + "=" + "10:30AM";
    HalfPastTen();
    TokenParts("time", "10:30AM");
    ExpectedOfOne(Standup, "time", "10:30AM");
    UpdateAsWrittenSingle(Standup, "Standup", tok);
    WriteOne(Standup, "Standup", Standup.(time := "10:30 AM"));
  }

  /** As written, an update typed as "standup" is reported as done but
      changes no row; the corrected update changes the record. */
  lemma UpdateAsWrittenIgnoresCase()
    ensures UpdateAsWritten([Standup], ["standup", "contact=Bob"]).reply.Success?
    ensures UpdateAsWritten([Standup], ["standup", "contact=Bob"]).store == [Standup]
    ensures UpdateEvent([Standup], ["standup", "contact=Bob"]).store == [Standup.(contact := "Bob")]
  {
    var tok := "contact=Bob";
    assert tok == "contact" + "=" + "Bob";
    TokenParts("contact", "Bob");
    ExpectedOfOne(Standup, "contact", "Bob");
    StandupName(Standup.name, "standup");
    UpdateAsWrittenSingle(Standup, "standup", tok);
    WriteOne(Standup, "standup", Standup.(contact := "Bob"));
    UpdateSingle(Standup, "standup", tok);
  }

  /** The rename token of the next scenarios and the record it is meant
      to produce from "Retro". */
  lemma RenameToken(tok: string)
    requires tok == "name=STANDUP"
    ensures WellFormedToken(tok) && Expected(Retro, [tok]) == Retro.(name := "STANDUP")
  {
    assert tok == "name" + "=" + "STANDUP";
    TokenParts("name", "STANDUP");
    ExpectedOfOne(Retro, "name", "STANDUP");
  }

  /** Before the rename, the two names differ. */
  lemma TwoRecordsUnique()
    ensures Unique([Standup, Retro])
  {
    assert |Lower(Standup.name)| != |Lower(Retro.name)|;
  }

  /** As written, renaming "Retro" to "STANDUP" leaves two records of one
      name ... */
  lemma UpdateAsWrittenDuplicatesName()
    ensures UpdateAsWritten([Standup, Retro], ["Retro", "name=STANDUP"]).reply.Success?
    ensures !Unique(UpdateAsWritten([Standup, Retro], ["Retro", "name=STANDUP"]).store)
  {
    var store := [Standup, Retro];
    var args := ["Retro", "name=STANDUP"];
    assert args[1..] == [args[1]];
    RenameToken(args[1]);
    TwoRecordsUnique();
    assert Find(store, "Retro") == Some(1);
    StandupName(Standup.name, "STANDUP");
    RenameClashAsWritten(store, 1, 0, args);
  }

  /** ... and the corrected update refuses it. */
  lemma UpdateRefusesDuplicateName()
    ensures UpdateEvent([Standup, Retro], ["Retro", "name=STANDUP"]).reply == Failure(DuplicateName)
  {
    var store := [Standup, Retro];
    var args := ["Retro", "name=STANDUP"];
    assert args[1..] == [args[1]];
    RenameToken(args[1]);
    TwoRecordsUnique();
    assert Find(store, "Retro") == Some(1);
    StandupName(Standup.name, "STANDUP");
    assert Find(store, args[0]) == Some(1) && store[1] == Retro;
    assert AllWellFormed(args[1..]);
    assert NameTakenByOther(store, 1, Expected(store[1], args[1..]).name);
  }

  /** As written, deleting "standup" reports success and removes nothing,
      because only the lookup ignores case; the corrected delete removes
      the record. */
  lemma DeleteAsWrittenIgnoresCase()
    ensures DeleteAsWritten([Standup], "standup") == Outcome([Standup], Success(Deleted("standup")))
    ensures DeleteEvent([Standup], "standup") == Outcome([], Success(Deleted("standup")))
  {
    StandupName(Standup.name, "standup");
    assert Find([Standup], "standup") == Some(0);
    assert RemoveNamed([Standup], "standup") == [Standup] by {
      var none: seq<Event> := [];
      assert [Standup][1..] == none;
    }
  }

  /** Deleting a name that is not on record is refused and keeps the store. */
  lemma DeleteMissing()
    ensures DeleteEvent([Standup], "Retro") == Outcome([Standup], Failure(NotFound))
  {
    assert |Lower(Standup.name)| != |Lower("Retro")|;
    assert Find([Standup], "Retro") == None;
  }

  /** As written, the monthly calendar fails in December; the corrected
      range is December 1 to 31. */
  lemma DecemberMonth()
    ensures MonthRangeAsWritten(Date(2026, 12, 10)) == Failure(MonthOutOfRange)
    ensures MonthRange(Date(2026, 12, 10)) == (Date(2026, 12, 1), Date(2026, 12, 31))
  {
  }

  const Party := Event("Party", Date(2026, 12, 24), "7:00 PM", "Carol")

  /** As written, `.calendar -m` on 2026-12-10 is an error even with a
      December event on record; the corrected calendar lists it. */
  lemma DecemberListing()
    ensures ShowCalendarAsWritten([Party], Some("-m"), Date(2026, 12, 10)) == Outcome([Party], Failure(MonthOutOfRange))
    ensures ShowCalendar([Party], Some("-m"), Date(2026, 12, 10)) == Outcome([Party], Success(Listed([Party])))
  {
    var today := Date(2026, 12, 10);
    assert ParseOption(Some("-m")) == Success(ThisMonth);
    var (start, end) := MonthRange(today);
    assert InRange(Party.date, start, end);
    var none: seq<Event> := [];
    assert [Party][1..] == none;
    assert EventsWithin([Party], start, end) == [Party];
  }

  /** Day numbers in October 2026. */
  lemma October2026(d: Date)
    requires d.year == 2026 && d.month == 10
    ensures Ordinal(d) == 739889 + d.day
  {
    assert DaysBeforeYear(2026) == 739616;
    assert !IsLeapYear(2026);
    assert DaysBeforeMonth(2026, 10) == 273;
  }

  /** Saturday 2026-10-10 lies in the week from Monday 10-05 to Sunday 10-11. */
  lemma WeekExample()
    ensures WeekRange(Today) == Success((Date(2026, 10, 5), Date(2026, 10, 11)))
  {
    October2026(Today);
    October2026(Date(2026, 10, 5));
    October2026(Date(2026, 10, 11));
    assert Weekday(Today) == 5;
    var r := WeekRange(Today);
    assert r.Success?;
    var (start, end) := r.value;
    OrdinalOrder(start, Date(2026, 10, 5));
    OrdinalOrder(end, Date(2026, 10, 11));
  }
}
