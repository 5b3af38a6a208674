/** Calendar dates as Python's `datetime.date` treats them: proleptic
    Gregorian, years 1 to 9999, compared field by field, with the weekday
    derived from the day number (`toordinal`, 0001-01-01 being day 1, a
    Monday). Also the two `strptime` formats the application reads dates
    with: `%Y-%m-%d` for the `fecha` query parameter and `%Y%m%d` for the
    GTFS calendar files. */
module Dates {
  import opened Wrappers
  import opened Text

  datatype Date = Date(year: int, month: int, day: int)

  predicate IsLeapYear(y: int) {
    y % 4 == 0 && (y % 100 != 0 || y % 400 == 0)
  }

  function DaysInMonth(y: int, m: int): (n: int)
    requires 1 <= m <= 12
    ensures 28 <= n <= 31
  {
    if m == 2 && IsLeapYear(y) then 29
    else [31, 28, 31, 30, 31, 30, 31, 31, 30, 31, 30, 31][m - 1]
  }

  function DaysInYear(y: int): int {
    if IsLeapYear(y) then 366 else 365
  }

  /** A date `datetime.date` accepts. */
  predicate Valid(d: Date) {
    1 <= d.year <= 9999 && 1 <= d.month <= 12 && 1 <= d.day <= DaysInMonth(d.year, d.month)
  }

  /** `a <= b` on dates. */
  predicate Le(a: Date, b: Date) {
    || a.year < b.year
    || (a.year == b.year && (a.month < b.month || (a.month == b.month && a.day <= b.day)))
  }

  function DaysBeforeYear(y: int): int
    requires y >= 1
  {
    var p := y - 1;
    p * 365 + p / 4 - p / 100 + p / 400
  }

  function DaysBeforeMonth(y: int, m: int): int
    requires 1 <= m <= 12
  {
    [0, 31, 59, 90, 120, 151, 181, 212, 243, 273, 304, 334][m - 1]
    + (if m > 2 && IsLeapYear(y) then 1 else 0)
  }

  /** The day number of a date, 0001-01-01 being day 1. */
  function Ordinal(d: Date): int
    requires Valid(d)
  {
    DaysBeforeYear(d.year) + DaysBeforeMonth(d.year, d.month) + d.day
  }

  /** `date.weekday()`: Monday is 0 and Sunday is 6. */
  function Weekday(d: Date): (w: int)
    requires Valid(d)
    ensures 0 <= w < 7
  {
    (Ordinal(d) + 6) % 7
  }

  /** The day after `d`, rolling over month and year ends. */
  function NextDay(d: Date): (e: Date)
    requires Valid(d) && d != Date(9999, 12, 31)
    ensures Valid(e) && Le(d, e) && d != e
  {
    if d.day < DaysInMonth(d.year, d.month) then Date(d.year, d.month, d.day + 1)
    else if d.month < 12 then Date(d.year, d.month + 1, 1)
    else Date(d.year + 1, 1, 1)
  }

  lemma DaysBeforeYearStep(y: int)
    requires y >= 1
    ensures DaysBeforeYear(y + 1) == DaysBeforeYear(y) + DaysInYear(y)
  {
    var p := y - 1;
    DivStep(p);
    var c4 := if y % 4 == 0 then 1 else 0;
    var c100 := if y % 100 == 0 then 1 else 0;
    var c400 := if y % 400 == 0 then 1 else 0;
    assert DaysBeforeYear(y + 1) == DaysBeforeYear(y) + 365 + c4 - c100 + c400;
    if y % 400 == 0 {
      DivisibleBy400(y);
    } else if y % 100 == 0 {
      DivisibleBy100(y);
    }
  }

  lemma DivisibleBy400(y: int)
    requires y % 400 == 0
    ensures y % 100 == 0 && y % 4 == 0
  {
    var k := y / 400;
    assert y == 400 * k;
    assert y / 100 == 4 * k;
    assert y / 4 == 100 * k;
  }

  lemma DivisibleBy100(y: int)
    requires y % 100 == 0
    ensures y % 4 == 0
  {
    var k := y / 100;
    assert y == 100 * k;
    assert y / 4 == 25 * k;
  }

  /** Counting one more year adds one to a quotient exactly at a multiple. */
  lemma DivStep(p: nat)
    ensures (p + 1) / 4 == p / 4 + (if (p + 1) % 4 == 0 then 1 else 0)
    ensures (p + 1) / 100 == p / 100 + (if (p + 1) % 100 == 0 then 1 else 0)
    ensures (p + 1) / 400 == p / 400 + (if (p + 1) % 400 == 0 then 1 else 0)
  {
  }

  /** The day after has the next day number. */
  lemma NextDayOrdinal(d: Date)
    requires Valid(d) && d != Date(9999, 12, 31)
    ensures Ordinal(NextDay(d)) == Ordinal(d) + 1
  {
    if d.day == DaysInMonth(d.year, d.month) && d.month == 12 {
      DaysBeforeYearStep(d.year);
    }
  }

  /** Consecutive days have consecutive weekdays, Sunday wrapping to Monday. */
  lemma WeekdayOfNextDay(d: Date)
    requires Valid(d) && d != Date(9999, 12, 31)
    ensures Weekday(NextDay(d)) == (Weekday(d) + 1) % 7
  {
    NextDayOrdinal(d);
    WeekdayStep(Ordinal(d));
  }

  lemma WeekdayStep(n: int)
    ensures (n + 1 + 6) % 7 == ((n + 6) % 7 + 1) % 7
  {
  }

  /** 2024-03-04 is a Monday. */
  lemma WeekdayExample()
    ensures Valid(Date(2024, 3, 4)) && Weekday(Date(2024, 3, 4)) == 0
  {
    assert DaysBeforeYear(2024) == 738885;
    assert Ordinal(Date(2024, 3, 4)) == 738949;
  }

  /** A day's number stays below the first day of the next month. */
  lemma OrdinalWithinYear(d: Date)
    requires Valid(d)
    ensures DaysBeforeYear(d.year) < Ordinal(d) <= DaysBeforeYear(d.year) + DaysInYear(d.year)
  {
  }

  lemma DaysBeforeYearMonotone(a: int, b: int)
    requires 1 <= a <= b
    ensures DaysBeforeYear(a) + 365 * (b - a) <= DaysBeforeYear(b)
    decreases b - a
  {
    if a < b {
      DaysBeforeYearMonotone(a, b - 1);
      DaysBeforeYearStep(b - 1);
    }
  }

  /** Every day of an earlier year comes before every day of a later one. */
  lemma EarlierYearFirst(a: Date, b: Date)
    requires Valid(a) && Valid(b) && a.year < b.year
    ensures Ordinal(a) < Ordinal(b)
  {
    OrdinalWithinYear(a);
    OrdinalWithinYear(b);
    DaysBeforeYearStep(a.year);
    DaysBeforeYearMonotone(a.year + 1, b.year);
  }

  /** Within a year, day numbers follow month and day. */
  lemma SameYearOrder(a: Date, b: Date)
    requires Valid(a) && Valid(b) && a.year == b.year
    ensures Le(a, b) <==> Ordinal(a) <= Ordinal(b)
  {
    if a.month < b.month {
      MonthsBefore(a.year, a.month, b.month);
    } else if b.month < a.month {
      MonthsBefore(a.year, b.month, a.month);
    }
  }

  /** A whole month lies between the start of a month and that of any later one. */
  lemma MonthsBefore(y: int, m: int, n: int)
    requires 1 <= m < n <= 12
    ensures DaysBeforeMonth(y, m) + DaysInMonth(y, m) <= DaysBeforeMonth(y, n)
  {
  }

  /** Comparing dates field by field agrees with comparing their day numbers. */
  lemma LeIffOrdinalLe(a: Date, b: Date)
    requires Valid(a) && Valid(b)
    ensures Le(a, b) <==> Ordinal(a) <= Ordinal(b)
  {
    if a.year < b.year {
      EarlierYearFirst(a, b);
    } else if b.year < a.year {
      EarlierYearFirst(b, a);
    } else {
      SameYearOrder(a, b);
    }
  }

  // ---------------------------------------------------------------------
  // strptime

  /** Does `lit` occur in `s` at position `i`? */
  predicate HasAt(s: string, i: nat, lit: string) {
    i + |lit| <= |s| && s[i..i + |lit|] == lit
  }

  /** The lengths matched at `i` by the alternatives of CPython's `%m`
      pattern, `1[0-2]|0[1-9]|[1-9]`, in the order the pattern tries them. */
  function MonthMatches(s: string, i: nat): (ls: seq<nat>)
    ensures forall k :: 0 <= k < |ls| ==> 1 <= ls[k] <= 2 && i + ls[k] <= |s| && AllDigits(s[i..i + ls[k]])
  {
    (if i + 1 < |s| && s[i] == '1' && '0' <= s[i + 1] <= '2' then [2] else [])
    + (if i + 1 < |s| && s[i] == '0' && '1' <= s[i + 1] <= '9' then [2] else [])
    + (if i < |s| && '1' <= s[i] <= '9' then [1] else [])
  }

  /** A day field as `%d` may match it: one digit, two digits, or a blank and a digit. */
  predicate DayText(t: string) {
    (|t| == 1 && IsDigit(t[0])) || (|t| == 2 && (t[0] == ' ' || IsDigit(t[0])) && IsDigit(t[1]))
  }

  /** The length matched at `k` by the first alternative of CPython's `%d`
      pattern, `3[01]|[12]\d|0[1-9]|[1-9]| [1-9]`, that matches there. */
  function DayMatch(s: string, k: nat): (r: Option<nat>)
    ensures r.Some? ==> k + r.value <= |s| && DayText(s[k..k + r.value])
  {
    if k + 1 < |s| && s[k] == '3' && (s[k + 1] == '0' || s[k + 1] == '1') then Some(2)
    else if k + 1 < |s| && (s[k] == '1' || s[k] == '2') && IsDigit(s[k + 1]) then Some(2)
    else if k + 1 < |s| && s[k] == '0' && '1' <= s[k + 1] <= '9' then Some(2)
    else if k < |s| && '1' <= s[k] <= '9' then Some(1)
    else if k + 1 < |s| && s[k] == ' ' && '1' <= s[k + 1] <= '9' then Some(2)
    else None
  }

  /** Where the month and day fields were found. */
  datatype Fields = Fields(monthStart: nat, monthLen: nat, dayStart: nat, dayLen: nat)

  predicate FieldsIn(s: string, f: Fields) {
    && f.monthStart + f.monthLen <= f.dayStart
    && f.dayStart + f.dayLen <= |s|
    && AllDigits(s[f.monthStart..f.monthStart + f.monthLen])
    && DayText(s[f.dayStart..f.dayStart + f.dayLen])
  }

  /** The first match, in backtracking order, of month, separator and day
      from position `i`: each month alternative in turn, the separator after
      it, then the first day alternative that matches. */
  function MatchMonthDay(s: string, sep: string, i: nat, cands: seq<nat>): (r: Option<Fields>)
    requires forall k :: 0 <= k < |cands| ==> i + cands[k] <= |s| && AllDigits(s[i..i + cands[k]])
    ensures r.Some? ==> FieldsIn(s, r.value) && r.value.monthStart == i
    decreases |cands|
  {
    if cands == [] then None
    else
      var j := i + cands[0];
      if HasAt(s, j, sep) && DayMatch(s, j + |sep|).Some? then
        Some(Fields(i, cands[0], j + |sep|, DayMatch(s, j + |sep|).value))
      else MatchMonthDay(s, sep, i, cands[1..])
  }

  /** `int()` of the matched day text; `int` skips the leading blank. */
  function DayTextValue(t: string): nat
    requires DayText(t)
  {
    if t[0] == ' ' then DigitValue(t[1]) else DigitsValue(t)
  }

  /** `datetime.strptime(s, fmt).date()` for the formats `%Y<sep>%m<sep>%d`:
      `None` where Python raises `ValueError`. Digits are ASCII digits only,
      while Python's `\d` also takes other decimal digits. The pattern is
      matched from the start; text left over after the day field, or a date
      that does not exist, is an error. */
  function Strptime(s: string, sep: string): (r: Option<Date>)
    ensures r.Some? ==> Valid(r.value)
  {
    if |s| < 4 || !AllDigits(s[..4]) || !HasAt(s, 4, sep) then None
    else
      var i := 4 + |sep|;
      match MatchMonthDay(s, sep, i, MonthMatches(s, i))
      case None => None
      case Some(f) =>
        if f.dayStart + f.dayLen != |s| then None
        else
          var d := Date(DigitsValue(s[..4]),
                        DigitsValue(s[i..i + f.monthLen]),
                        DayTextValue(s[f.dayStart..f.dayStart + f.dayLen]));
          if Valid(d) then Some(d) else None
  }

  /** The `fecha` format of the schedule endpoint. */
  function ParseIsoDate(s: string): Option<Date> {
    Strptime(s, "-")
  }

  /** The date format of `calendar.txt` and `calendar_dates.txt`. */
  function ParseCompactDate(s: string): Option<Date> {
    Strptime(s, "")
  }

  function Pad2(n: nat): (t: string)
    requires n < 100
    ensures |t| == 2 && AllDigits(t)
  {
    [DigitChar(n / 10), DigitChar(n % 10)]
  }

  function Pad4(n: nat): (t: string)
    requires n < 10000
    ensures |t| == 4 && AllDigits(t)
  {
    Pad2(n / 100) + Pad2(n % 100)
  }

  /** The text `%Y<sep>%m<sep>%d` writes: each field zero-padded. */
  function FieldsText(y: nat, m: nat, dd: nat, sep: string): (s: string)
    requires y < 10000 && m < 100 && dd < 100
    ensures |s| == 8 + 2 * |sep|
  {
    Pad4(y) + sep + Pad2(m) + sep + Pad2(dd)
  }

  /** `date.strftime` with `%Y<sep>%m<sep>%d`. */
  function FormatDate(d: Date, sep: string): (s: string)
    requires Valid(d)
  {
    FieldsText(d.year, d.month, d.day, sep)
  }

  lemma Pad2Value(n: nat)
    requires n < 100
    ensures DigitsValue(Pad2(n)) == n
  {
    var t := Pad2(n);
    assert [t[0]] == [] + [t[0]];
    DigitsValueSnoc([], t[0]);
    assert t == [t[0]] + [t[1]];
    DigitsValueSnoc([t[0]], t[1]);
  }

  /** Two more digits scale the value by a hundred. */
  lemma DigitsValueAppend2(x: string, y: string)
    requires AllDigits(x) && AllDigits(y) && |y| == 2
    ensures DigitsValue(x + y) == DigitsValue(x) * 100 + DigitsValue(y)
  {
    assert x + y == (x + [y[0]]) + [y[1]];
    DigitsValueSnoc(x, y[0]);
    DigitsValueSnoc(x + [y[0]], y[1]);
    assert y == ([] + [y[0]]) + [y[1]];
    DigitsValueSnoc([], y[0]);
    DigitsValueSnoc([y[0]], y[1]);
  }

  lemma Pad4Value(n: nat)
    requires n < 10000
    ensures DigitsValue(Pad4(n)) == n
  {
    Pad2Value(n / 100);
    Pad2Value(n % 100);
    DigitsValueAppend2(Pad2(n / 100), Pad2(n % 100));
  }

  /** A zero-padded month from 01 to 12 matches `%m` on both of its digits first. */
  lemma PaddedMonthMatch(s: string, i: nat, m: nat)
    requires 1 <= m <= 12 && i + 2 <= |s| && s[i..i + 2] == Pad2(m)
    ensures MonthMatches(s, i) != [] && MonthMatches(s, i)[0] == 2
  {
    assert s[i] == DigitChar(m / 10) && s[i + 1] == DigitChar(m % 10);
    if m >= 10 {
      assert s[i] == '1' && '0' <= s[i + 1] <= '2';
    } else {
      assert s[i] == '0' && '1' <= s[i + 1] <= '9';
    }
  }

  /** A zero-padded day from 01 to 31 matches `%d` on both of its digits. */
  lemma PaddedDayMatch(s: string, k: nat, dd: nat)
    requires 1 <= dd <= 31 && k + 2 <= |s| && s[k..k + 2] == Pad2(dd)
    ensures DayMatch(s, k) == Some(2)
  {
    assert s[k] == DigitChar(dd / 10) && s[k + 1] == DigitChar(dd % 10);
    if dd >= 30 {
      assert s[k] == '3' && (s[k + 1] == '0' || s[k + 1] == '1');
    } else if dd >= 10 {
      assert s[k] != '3' && (s[k] == '1' || s[k] == '2');
    } else {
      assert s[k] == '0' && '1' <= s[k + 1] <= '9';
    }
  }

  /** The pieces of zero-padded text, by position. */
  lemma FieldsTextSlices(y: nat, m: nat, dd: nat, sep: string)
    requires y < 10000 && m < 100 && dd < 100
    ensures var s := FieldsText(y, m, dd, sep);
            var i := 4 + |sep|;
            var k := i + 2 + |sep|;
            && s[..4] == Pad4(y) && HasAt(s, 4, sep)
            && s[i..i + 2] == Pad2(m) && HasAt(s, i + 2, sep) && s[k..] == Pad2(dd)
  {
    var s := FieldsText(y, m, dd, sep);
    var i := 4 + |sep|;
    var k := i + 2 + |sep|;
    var a := Pad4(y) + sep;
    var b := a + Pad2(m);
    var c := b + sep;
    assert s == c + Pad2(dd);
    assert s[..4] == Pad4(y) by {
      assert s[..4] == a[..4];
    }
    assert HasAt(s, 4, sep) by {
      assert s[4..i] == a[4..];
    }
    assert s[i..i + 2] == Pad2(m) by {
      assert s[i..i + 2] == b[i..];
    }
    assert HasAt(s, i + 2, sep) by {
      assert s[i + 2..k] == c[i + 2..];
    }
  }

  /** Where `%m<sep>%d` finds a zero-padded month and day that end the text. */
  lemma PaddedFieldsMatch(s: string, sep: string, i: nat, m: nat, dd: nat)
    requires 1 <= m <= 12 && 1 <= dd <= 31 && i + 4 + |sep| == |s|
    requires s[i..i + 2] == Pad2(m) && HasAt(s, i + 2, sep) && s[i + 2 + |sep|..] == Pad2(dd)
    ensures MatchMonthDay(s, sep, i, MonthMatches(s, i)) == Some(Fields(i, 2, i + 2 + |sep|, 2))
  {
    var k := i + 2 + |sep|;
    assert s[k..k + 2] == s[k..];
    PaddedMonthMatch(s, i, m);
    PaddedDayMatch(s, k, dd);
  }

  /** Reading zero-padded fields: the date they spell when it exists, and
      an error when it does not (a 29th of February outside a leap year, a
      31st of a 30-day month, year 0). */
  lemma StrptimePadded(y: nat, m: nat, dd: nat, sep: string)
    requires y < 10000 && 1 <= m <= 12 && 1 <= dd <= 31
    requires sep == "-" || sep == ""
    ensures Strptime(FieldsText(y, m, dd, sep), sep) == if Valid(Date(y, m, dd)) then Some(Date(y, m, dd)) else None
  {
    var s := FieldsText(y, m, dd, sep);
    var i := 4 + |sep|;
    var k := i + 2 + |sep|;
    FieldsTextSlices(y, m, dd, sep);
    PaddedFieldsMatch(s, sep, i, m, dd);
    assert IsDigit(s[k]) by {
      assert s[k] == Pad2(dd)[0];
    }
    assert AllDigits(s[..4]);
    StrptimeOfFields(s, sep, Fields(i, 2, k, 2));
    assert DigitsValue(s[..4]) == y by {
      Pad4Value(y);
    }
    assert DigitsValue(s[i..i + 2]) == m by {
      Pad2Value(m);
    }
    assert DigitsValue(s[k..]) == dd by {
      Pad2Value(dd);
    }
  }

  /** What `strptime` makes of text whose month and day fields it found at `f`. */
  lemma StrptimeOfFields(s: string, sep: string, f: Fields)
    requires |s| >= 4 && AllDigits(s[..4]) && HasAt(s, 4, sep)
    requires f.monthStart == 4 + |sep| && f.monthLen == 2 && f.dayLen == 2 && f.dayStart + 2 == |s|
    requires MatchMonthDay(s, sep, 4 + |sep|, MonthMatches(s, 4 + |sep|)) == Some(f)
    requires IsDigit(s[f.dayStart])
    ensures var d := Date(DigitsValue(s[..4]), DigitsValue(s[f.monthStart..f.monthStart + 2]), DigitsValue(s[f.dayStart..]));
            Strptime(s, sep) == if Valid(d) then Some(d) else None
  {
    assert s[f.dayStart..] == s[f.dayStart..f.dayStart + f.dayLen];
  }

  /** Reading back a formatted date gives the date, in both formats. */
  lemma StrptimeRoundTrip(d: Date, sep: string)
    requires Valid(d)
    requires sep == "-" || sep == ""
    ensures Strptime(FormatDate(d, sep), sep) == Some(d)
  {
    StrptimePadded(d.year, d.month, d.day, sep);
  }

  /** `strptime` also accepts a one-digit month and a one-digit day. */
  lemma StrptimeUnpadded(y: nat, m: nat, dd: nat)
    requires 1 <= y < 10000 && 1 <= m <= 9 && 1 <= dd <= 9
    ensures ParseIsoDate(Pad4(y) + "-" + [DigitChar(m)] + "-" + [DigitChar(dd)]) == Some(Date(y, m, dd))
  {
    var s := Pad4(y) + "-" + [DigitChar(m)] + "-" + [DigitChar(dd)];
    assert s[..4] == Pad4(y);
    assert HasAt(s, 4, "-");
    assert s[5] == DigitChar(m) && s[6] == '-';
    assert MonthMatches(s, 5) == [1];
    assert HasAt(s, 6, "-");
    assert s[7] == DigitChar(dd) && |s| == 8;
    assert DayMatch(s, 7) == Some(1);
    assert MatchMonthDay(s, "-", 5, [1]) == Some(Fields(5, 1, 7, 1));
    assert s[5..6] == [] + [DigitChar(m)];
    assert s[7..8] == [] + [DigitChar(dd)];
    DigitsValueSnoc([], DigitChar(m));
    DigitsValueSnoc([], DigitChar(dd));
    Pad4Value(y);
  }
}
