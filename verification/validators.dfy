/** The two input validators of the bot: `validate_time_format`, which
    reads `H:MM` or `HH:MM` followed by `AM`/`PM` in any case and returns
    the canonical text `H:MM AM|PM`, and `validate_date_format`, which
    reads `MM/DD/YYYY` with `-` and `/` interchangeable and returns the
    date when it exists. Both return None for anything else. */
module Validators {
  import opened Wrappers
  import opened Text
  import opened Dates

  datatype Period = AM | PM

  datatype Time = Time(hour: int, minute: int, period: Period)

  predicate ValidTime(t: Time) {
    1 <= t.hour <= 12 && 0 <= t.minute <= 59
  }

  function PeriodText(p: Period): string {
    match p
    case AM => "AM"
    case PM => "PM"
  }

  // ---------------------------------------------------------------------
  // Time

  /** The full match of `(\d{1}|\d{2}):(\d{2})(AM|PM)` ignoring case, read
      by position from the end: one or two digits, `:`, two digits and a
      two-letter period. */
  predicate MatchesTimePattern(s: string) {
    var n := |s|;
    && (n == 6 || n == 7)
    && AllDigits(s[..n - 5])
    && s[n - 5] == ':'
    && AllDigits(s[n - 4..n - 2])
    && (Upper(s[n - 2..]) == "AM" || Upper(s[n - 2..]) == "PM")
  }

  function PatternHour(s: string): nat
    requires MatchesTimePattern(s)
  {
    DigitsValue(s[..|s| - 5])
  }

  function PatternMinute(s: string): nat
    requires MatchesTimePattern(s)
  {
    DigitsValue(s[|s| - 4..|s| - 2])
  }

  function PatternPeriod(s: string): Period
    requires MatchesTimePattern(s)
  {
    if Upper(s[|s| - 2..]) == "AM" then AM else PM
  }

  function ReadPeriod(a: char, b: char): Option<Period> {
    if UpperChar(b) != 'M' then None
    else if UpperChar(a) == 'A' then Some(AM)
    else if UpperChar(a) == 'P' then Some(PM)
    else None
  }

  lemma ReadPeriodMatches(x: string)
    requires |x| == 2
    ensures ReadPeriod(x[0], x[1]) == Some(AM) <==> Upper(x) == "AM"
    ensures ReadPeriod(x[0], x[1]) == Some(PM) <==> Upper(x) == "PM"
    ensures ReadPeriod(x[0], x[1]).Some? <==> Upper(x) == "AM" || Upper(x) == "PM"
  {
    assert Upper(x) == [UpperChar(x[0]), UpperChar(x[1])];
  }

  /** The matching and range check of `validate_time_format`, scanning left
      to right: a digit, an optional second hour digit, `:`, two minute
      digits, a period and nothing else; then hour 1..12 and minute 0..59. */
  function ParseTime(s: string): (r: Option<Time>)
    ensures r.Some? <==> MatchesTimePattern(s) && 1 <= PatternHour(s) <= 12 && PatternMinute(s) <= 59
    ensures r.Some? ==> r.value == Time(PatternHour(s), PatternMinute(s), PatternPeriod(s))
  {
    if |s| == 0 || !IsDigit(s[0]) then None
    else
      var hourLen := if |s| > 1 && IsDigit(s[1]) then 2 else 1;
      var rest := s[hourLen..];
      if |rest| != 5 || rest[0] != ':' || !IsDigit(rest[1]) || !IsDigit(rest[2]) then None
      else
        var period := ReadPeriod(rest[3], rest[4]);
        var hour := DigitsValue(s[..hourLen]);
        var minute := DigitsValue(rest[1..3]);
        assert s[..hourLen] == s[..|s| - 5] && rest[1..3] == s[|s| - 4..|s| - 2];
        ReadPeriodMatches(s[|s| - 2..]);
        assert rest[3..] == s[|s| - 2..];
        if period.None? || hour <= 0 || hour >= 13 || minute < 0 || minute > 59 then None
        else Some(Time(hour, minute, period.value))
  }

  /** Two-digit minute text: a `0` in front of single digits. */
  function MinuteText(m: nat): (r: string)
    requires m < 100
    ensures |r| == 2 && AllDigits(r) && DigitsValue(r) == m
  {
    if m < 10 then
      var r := "0" + NatToString(m);
      assert r[..1] == "0";
      r
    else NatToString(m)
  }

  /** The canonical text the validator returns: `<hour>:<MM> <AM|PM>`. */
  function FormatTime(t: Time): string
    requires ValidTime(t)
  {
    NatToString(t.hour) + ":" + MinuteText(t.minute) + " " + PeriodText(t.period)
  }

  /** Canonical time text: an hour of one or two digits with no leading
      zero and value 1..12, `:`, two minute digits of value 0..59, a space
      and an upper-case period. */
  predicate CanonicalTimeText(r: string) {
    var n := |r|;
    && (n == 7 || n == 8)
    && AllDigits(r[..n - 6]) && r[0] != '0' && 1 <= DigitsValue(r[..n - 6]) <= 12
    && r[n - 6] == ':'
    && AllDigits(r[n - 5..n - 3]) && DigitsValue(r[n - 5..n - 3]) <= 59
    && r[n - 3] == ' '
    && (r[n - 2..] == "AM" || r[n - 2..] == "PM")
  }

  /** `validate_time_format`: the canonical text of an accepted time. */
  function ValidateTime(s: string): (r: Option<string>)
    ensures r.Some? <==> MatchesTimePattern(s) && 1 <= PatternHour(s) <= 12 && PatternMinute(s) <= 59
    ensures r.Some? ==> CanonicalTimeText(r.value)
    ensures r.Some? ==> r.value == FormatTime(Time(PatternHour(s), PatternMinute(s), PatternPeriod(s)))
  {
    match ParseTime(s)
    case None => None
    case Some(t) =>
      var r := FormatTime(t);
      var h := NatToString(t.hour);
      assert r[..|r| - 6] == h;
      assert r[|r| - 5..|r| - 3] == MinuteText(t.minute);
      Some(r)
  }

  /** The canonical text without its space. */
  function CompactTime(t: Time): string
    requires ValidTime(t)
  {
    NatToString(t.hour) + ":" + MinuteText(t.minute) + PeriodText(t.period)
  }

  lemma RemoveSpaceOfFormat(t: Time)
    requires ValidTime(t)
    ensures RemoveChar(FormatTime(t), ' ') == CompactTime(t)
  {
    var h, m, p := NatToString(t.hour), MinuteText(t.minute), PeriodText(t.period);
    var front := h + ":" + m;
    assert FormatTime(t) == front + (" " + p);
    RemoveCharAppend(front, " " + p, ' ');
    RemoveCharAbsent(front, ' ');
    RemoveCharAbsent(p, ' ');
    assert (" " + p)[1..] == p;
  }

  lemma ParseCompact(t: Time)
    requires ValidTime(t)
    ensures ParseTime(CompactTime(t)) == Some(t)
  {
    var h, m, p := NatToString(t.hour), MinuteText(t.minute), PeriodText(t.period);
    var c := CompactTime(t);
    var n := |c|;
    assert c[..n - 5] == h;
    assert c[n - 5] == ':';
    assert c[n - 4..n - 2] == m;
    assert c[n - 2..] == p;
    assert Upper(p) == p;
    assert MatchesTimePattern(c);
  }

  /** Canonical text with its space removed reads back as the same time. */
  lemma FormatTimeRoundTrip(t: Time)
    requires ValidTime(t)
    ensures ParseTime(RemoveChar(FormatTime(t), ' ')) == Some(t)
  {
    RemoveSpaceOfFormat(t);
    ParseCompact(t);
  }

  /** Normalisation is idempotent: validating the canonical text with its
      space removed gives the same canonical text back. */
  lemma ValidateTimeIdempotent(s: string)
    requires ValidateTime(s).Some?
    ensures ValidateTime(RemoveChar(ValidateTime(s).value, ' ')) == ValidateTime(s)
  {
    FormatTimeRoundTrip(ParseTime(s).value);
  }

  lemma UpperKeepsDigits(s: string)
    requires AllDigits(s)
    ensures Upper(s) == s
  {
  }

  lemma UpperDigitsAlike(s: string)
    ensures AllDigits(Upper(s)) <==> AllDigits(s)
  {
    forall i | 0 <= i < |s|
      ensures IsDigit(Upper(s)[i]) <==> IsDigit(s[i])
    {
    }
  }

  /** The period is matched ignoring case: inputs that differ only in the
      case of their letters validate alike. */
  lemma ValidateTimeIgnoresCase(s1: string, s2: string)
    requires Upper(s1) == Upper(s2)
    ensures ValidateTime(s1) == ValidateTime(s2)
  {
    ParseTimeUpper(s1);
    ParseTimeUpper(s2);
  }

  lemma ParseTimeUpper(s: string)
    ensures ParseTime(Upper(s)) == ParseTime(s)
  {
    var u := Upper(s);
    var n := |s|;
    if n == 6 || n == 7 {
      assert u[..n - 5] == Upper(s[..n - 5]);
      assert u[n - 4..n - 2] == Upper(s[n - 4..n - 2]);
      assert u[n - 2..] == Upper(s[n - 2..]);
      assert Upper(u[n - 2..]) == Upper(s[n - 2..]);
      UpperDigitsAlike(s[..n - 5]);
      UpperDigitsAlike(s[n - 4..n - 2]);
      if AllDigits(s[..n - 5]) {
        UpperKeepsDigits(s[..n - 5]);
      }
      if AllDigits(s[n - 4..n - 2]) {
        UpperKeepsDigits(s[n - 4..n - 2]);
      }
    }
  }

  /** A leading zero on a one-digit hour changes nothing: `09:05pm` and
      `9:05pm` validate alike. */
  lemma ValidateTimeLeadingZero(s: string)
    requires |s| == 6 && IsDigit(s[0])
    ensures ValidateTime("0" + s) == ValidateTime(s)
  {
    var z := "0" + s;
    assert z[..2] == "0" + s[..1];
    assert z[7 - 5] == s[6 - 5];
    assert z[7 - 4..7 - 2] == s[6 - 4..6 - 2];
    assert z[7 - 2..] == s[6 - 2..];
    assert AllDigits(z[..2]);
    TwoDigits(z[..2]);
    OneDigit(s[..1]);
    assert MatchesTimePattern(z) <==> MatchesTimePattern(s);
    if MatchesTimePattern(s) {
      assert PatternHour(z) == PatternHour(s);
      assert PatternMinute(z) == PatternMinute(s);
      assert PatternPeriod(z) == PatternPeriod(s);
    }
    assert ParseTime(z) == ParseTime(s);
  }

  // ---------------------------------------------------------------------
  // Date

  lemma OneDigit(p: string)
    requires |p| == 1 && AllDigits(p)
    ensures DigitsValue(p) == DigitValue(p[0])
  {
    assert p[..0] == "";
  }

  lemma TwoDigits(p: string)
    requires |p| == 2 && AllDigits(p)
    ensures DigitsValue(p) == 10 * DigitValue(p[0]) + DigitValue(p[1])
  {
    OneDigit(p[..1]);
  }

  lemma FourDigits(p: string)
    requires |p| == 4 && AllDigits(p)
    ensures DigitsValue(p) == 1000 * DigitValue(p[0]) + 100 * DigitValue(p[1]) + 10 * DigitValue(p[2]) + DigitValue(p[3])
  {
    assert p[..3][..2] == p[..2];
    TwoDigits(p[..2]);
  }

  /** `strptime`'s `%m`: the regular expression `1[0-2]|0[1-9]|[1-9]`. */
  predicate MonthPattern(p: string) {
    || (|p| == 2 && p[0] == '1' && '0' <= p[1] <= '2')
    || (|p| == 2 && p[0] == '0' && '1' <= p[1] <= '9')
    || (|p| == 1 && '1' <= p[0] <= '9')
  }

  /** `strptime`'s `%d`: the regular expression `3[01]|[12]\d|0[1-9]|[1-9]| [1-9]`. */
  predicate DayPattern(p: string) {
    || (|p| == 2 && p[0] == '3' && (p[1] == '0' || p[1] == '1'))
    || (|p| == 2 && (p[0] == '1' || p[0] == '2') && IsDigit(p[1]))
    || (|p| == 2 && p[0] == '0' && '1' <= p[1] <= '9')
    || (|p| == 1 && '1' <= p[0] <= '9')
    || (|p| == 2 && p[0] == ' ' && '1' <= p[1] <= '9')
  }

  /** `strptime`'s `%Y`: exactly four digits. */
  predicate YearPattern(p: string) {
    |p| == 4 && AllDigits(p)
  }

  /** The month field read as one or two digits of value 1..12. */
  function MonthField(p: string): (r: Option<int>)
    ensures r.Some? <==> MonthPattern(p)
    ensures r.Some? ==> AllDigits(p) && r.value == DigitsValue(p)
  {
    if |p| == 1 && AllDigits(p) then OneDigit(p);
      if 1 <= DigitsValue(p) <= 12 then Some(DigitsValue(p)) else None
    else if |p| == 2 && AllDigits(p) then TwoDigits(p);
      if 1 <= DigitsValue(p) <= 12 then Some(DigitsValue(p)) else None
    else None
  }

  /** The day field read as one or two digits of value 1..31, or a space
      and one non-zero digit. */
  function DayField(p: string): (r: Option<int>)
    ensures r.Some? <==> DayPattern(p)
    ensures r.Some? && p[0] != ' ' ==> AllDigits(p) && r.value == DigitsValue(p)
    ensures r.Some? && p[0] == ' ' ==> r.value == DigitValue(p[1])
  {
    var q := if |p| == 2 && p[0] == ' ' then p[1..] else p;
    if |q| == 1 && AllDigits(q) then OneDigit(q);
      if 1 <= DigitsValue(q) <= 31 then Some(DigitsValue(q)) else None
    else if |q| == 2 && AllDigits(q) then TwoDigits(q);
      if 1 <= DigitsValue(q) <= 31 then Some(DigitsValue(q)) else None
    else None
  }

  function YearField(p: string): (r: Option<int>)
    ensures r.Some? <==> YearPattern(p)
  {
    if YearPattern(p) then Some(DigitsValue(p)) else None
  }

  /** The three `/`-separated fields of the input once every `-` became `/`. */
  function DateFields(s: string): seq<string> {
    Split(ReplaceChar(s, '-', '/'), '/')
  }

  /** `validate_date_format`: after replacing `-` by `/`, the input must be
      month, day and four-digit year fields separated by `/`, naming a date
      that exists. */
  function ValidateDate(s: string): (r: Option<Date>)
    ensures r.Some? ==> ValidDate(r.value)
    ensures r.Some? ==> var f := DateFields(s);
      |f| == 3 && MonthPattern(f[0]) && DayPattern(f[1]) && YearPattern(f[2])
  {
    var fields := DateFields(s);
    if |fields| != 3 then None
    else
      match (MonthField(fields[0]), DayField(fields[1]), YearField(fields[2]))
      case (Some(m), Some(d), Some(y)) =>
        var date := Date(y, m, d);
        if ValidDate(date) then Some(date) else None
      case _ => None
  }

  /** `strftime('%m/%d/%Y')` with the separator of choice: two-digit month
      and day, four-digit year. */
  function FormatDate(d: Date, sep: char): string
    requires ValidDate(d)
  {
    PaddedDigits(d.month, 2) + [sep] + PaddedDigits(d.day, 2) + [sep] + PaddedDigits(d.year, 4)
  }

  /** The reading of `%m/%d/%Y`: three fields free of both separators,
      joined by any mix of `/` and `-`, validate exactly when each field
      matches its pattern and the date they spell exists, and then to that
      date. */
  lemma ValidateDateOfFields(m: string, d: string, y: string, sep1: char, sep2: char)
    requires sep1 == '/' || sep1 == '-'
    requires sep2 == '/' || sep2 == '-'
    requires '/' !in m && '/' !in d && '/' !in y && '-' !in m && '-' !in d && '-' !in y
    ensures !(MonthPattern(m) && DayPattern(d) && YearPattern(y)) ==>
      ValidateDate(m + [sep1] + d + [sep2] + y) == None
    ensures MonthPattern(m) && DayPattern(d) && YearPattern(y) ==>
      var date := Date(DigitsValue(y), MonthField(m).value, DayField(d).value);
      ValidateDate(m + [sep1] + d + [sep2] + y) == if ValidDate(date) then Some(date) else None
  {
    DateFieldsOf(m, d, y, sep1, sep2);
  }

  lemma DateFieldsOf(m: string, d: string, y: string, sep1: char, sep2: char)
    requires sep1 == '/' || sep1 == '-'
    requires sep2 == '/' || sep2 == '-'
    requires '/' !in m && '/' !in d && '/' !in y && '-' !in m && '-' !in d && '-' !in y
    ensures DateFields(m + [sep1] + d + [sep2] + y) == [m, d, y]
  {
    var s := m + [sep1] + d + [sep2] + y;
    var t := m + ['/'] + d + ['/'] + y;
    assert ReplaceChar(s, '-', '/') == t;
    assert Join([m, d, y], '/') == t by {
      assert [m, d, y][1..] == [d, y];
      assert [d, y][1..] == [y];
      assert Join([y], '/') == y;
      assert Join([d, y], '/') == d + ['/'] + y;
    }
    SplitJoin([m, d, y], '/');
  }

  /** A month written with two digits matches `%m` and reads back. */
  lemma PaddedMonth(n: int)
    requires 1 <= n <= 12
    ensures MonthPattern(PaddedDigits(n, 2)) && MonthField(PaddedDigits(n, 2)) == Some(n)
  {
    var p := PaddedDigits(n, 2);
    assert Pow10(2) == 100;
    TwoDigits(p);
  }

  /** A day written with two digits matches `%d` and reads back. */
  lemma PaddedDay(n: int)
    requires 1 <= n <= 31
    ensures DayPattern(PaddedDigits(n, 2)) && DayField(PaddedDigits(n, 2)) == Some(n)
  {
    var p := PaddedDigits(n, 2);
    assert Pow10(2) == 100;
    TwoDigits(p);
  }

  /** Formatting a date and validating the text gives the date back, with
      either separator: the calendar's bounds are text the validator reads. */
  lemma FormatDateRoundTrip(d: Date, sep: char)
    requires ValidDate(d)
    requires sep == '/' || sep == '-'
    ensures ValidateDate(FormatDate(d, sep)) == Some(d)
  {
    var m, dd, y := PaddedDigits(d.month, 2), PaddedDigits(d.day, 2), PaddedDigits(d.year, 4);
    PaddedMonth(d.month);
    PaddedDay(d.day);
    assert Pow10(4) == 10000;
    ValidateDateOfFields(m, dd, y, sep, sep);
  }

  /** February 29 validates exactly in leap years. */
  lemma LeapDay(y: int)
    requires MinYear <= y <= MaxYear
    ensures ValidateDate("02/29/" + PaddedDigits(y, 4)).Some? <==> IsLeapYear(y)
  {
    assert Pow10(4) == 10000;
    assert "02/29/" + PaddedDigits(y, 4) == "02" + ['/'] + "29" + ['/'] + PaddedDigits(y, 4);
    ValidateDateOfFields("02", "29", PaddedDigits(y, 4), '/', '/');
  }

  /** `-` and `/` are interchangeable: turning every `/` into `-` changes
      nothing. */
  lemma ValidateDateSeparators(s: string)
    ensures ValidateDate(ReplaceChar(s, '/', '-')) == ValidateDate(s)
  {
    assert ReplaceChar(ReplaceChar(s, '/', '-'), '-', '/') == ReplaceChar(s, '-', '/');
  }
}
