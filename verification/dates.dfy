/** Calendar dates as the database's DATE column, Python's `datetime.date` and
    the frontend's `yyyy-mm-dd` strings see them, and the `yyyy-mm` month key
    that the summary query groups by (SQL Server `CONVERT(CHAR(7), date, 120)`:
    style 120 writes the ISO form and CHAR(7) keeps its first seven characters). */
module Dates {
  import opened Base
  import opened Text

  datatype Date = Date(year: int, month: int, day: int)

  predicate IsLeapYear(y: int) {
    y % 4 == 0 && (y % 100 != 0 || y % 400 == 0)
  }

  function DaysInMonth(y: int, m: int): (r: int) {
    if m == 2 then (if IsLeapYear(y) then 29 else 28)
    else if m == 4 || m == 6 || m == 9 || m == 11 then 30
    else 31
  }

  /** A day of the Gregorian calendar between 0001-01-01 and 9999-12-31, the
      range shared by SQL Server DATE and Python `datetime.date`. */
  predicate ValidDate(d: Date) {
    1 <= d.year <= 9999 && 1 <= d.month <= 12 && 1 <= d.day <= DaysInMonth(d.year, d.month)
  }

  type CalendarDate = d: Date | ValidDate(d) witness Date(2000, 1, 1)

  /** `a` is a strictly earlier day than `b`. */
  predicate Earlier(a: Date, b: Date) {
    a.year < b.year || (a.year == b.year && (a.month < b.month || (a.month == b.month && a.day < b.day)))
  }

  lemma Pow10Values()
    ensures Pow10(2) == 100 && Pow10(4) == 10000
  {
    assert Pow10(1) == 10;
    assert Pow10(3) == 1000;
  }

  function YearField(d: CalendarDate): (s: string)
    ensures |s| == 4 && AllDigits(s) && DigitsValue(s) == d.year
  {
    Pow10Values();
    Padded(d.year, 4)
  }

  function MonthField(d: CalendarDate): (s: string)
    ensures |s| == 2 && AllDigits(s) && DigitsValue(s) == d.month
  {
    Pow10Values();
    Padded(d.month, 2)
  }

  function DayField(d: CalendarDate): (s: string)
    ensures |s| == 2 && AllDigits(s) && DigitsValue(s) == d.day
  {
    Pow10Values();
    Padded(d.day, 2)
  }

  /** The ISO 8601 calendar form `yyyy-mm-dd`, which is how Python prints a
      date, how the API transports it and what SQL Server style 120 writes. */
  function IsoDate(d: CalendarDate): (s: string)
    ensures |s| == 10 && s[4] == '-' && s[7] == '-'
  {
    YearField(d) + "-" + MonthField(d) + "-" + DayField(d)
  }

  /** Reading a `yyyy-mm-dd` string; None for any other shape or for a day
      that does not exist. */
  function ParseIsoDate(s: string): (r: Option<CalendarDate>)
    ensures r.Some? ==> |s| == 10
  {
    if |s| == 10 && s[4] == '-' && s[7] == '-'
       && AllDigits(s[..4]) && AllDigits(s[5..7]) && AllDigits(s[8..]) then
      var d := Date(DigitsValue(s[..4]), DigitsValue(s[5..7]), DigitsValue(s[8..]));
      if ValidDate(d) then Some(d) else None
    else None
  }

  /** Printing a date and reading it back gives the date. */
  lemma IsoDateRoundTrip(d: CalendarDate)
    ensures ParseIsoDate(IsoDate(d)) == Some(d)
  {
    var s := IsoDate(d);
    assert s[..4] == YearField(d);
    assert s[5..7] == MonthField(d);
    assert s[8..] == DayField(d);
  }

  /** A string that reads as a date is that date's only spelling. */
  lemma IsoDateCanonical(s: string)
    requires ParseIsoDate(s).Some?
    ensures IsoDate(ParseIsoDate(s).value) == s
  {
    var d := ParseIsoDate(s).value;
    PaddedOfDigits(s[..4]);
    PaddedOfDigits(s[5..7]);
    PaddedOfDigits(s[8..]);
    Pow10Values();
    assert YearField(d) == s[..4];
    assert MonthField(d) == s[5..7];
    assert DayField(d) == s[8..];
    assert s == s[..4] + "-" + s[5..7] + "-" + s[8..];
  }

  /** The month a summary row belongs to: the first seven characters of the
      ISO form. */
  function MonthKey(d: CalendarDate): (r: string) {
    IsoDate(d)[..7]
  }

  lemma MonthKeyFields(d: CalendarDate)
    ensures MonthKey(d) == YearField(d) + "-" + MonthField(d)
  {
  }

  /** Two dates share a month key exactly when they fall in the same calendar
      month, so grouping by the key groups by calendar month. */
  lemma MonthKeySame(a: CalendarDate, b: CalendarDate)
    ensures MonthKey(a) == MonthKey(b) <==> a.year == b.year && a.month == b.month
  {
    MonthKeyFields(a);
    MonthKeyFields(b);
    Pow10Values();
    PaddedInjective(a.year, b.year, 4);
    PaddedInjective(a.month, b.month, 2);
    if MonthKey(a) == MonthKey(b) {
      assert MonthKey(a)[..4] == YearField(a) && MonthKey(b)[..4] == YearField(b);
      assert MonthKey(a)[5..] == MonthField(a) && MonthKey(b)[5..] == MonthField(b);
    }
  }

  /** Ordering month keys as strings orders them chronologically. */
  lemma MonthKeyLess(a: CalendarDate, b: CalendarDate)
    ensures LexLess(MonthKey(a), MonthKey(b)) <==> a.year < b.year || (a.year == b.year && a.month < b.month)
  {
    MonthKeyFields(a);
    MonthKeyFields(b);
    Pow10Values();
    var ya, yb := YearField(a), YearField(b);
    LexAppend(ya + "-", yb + "-", MonthField(a), MonthField(b));
    LexAppend(ya, yb, "-", "-");
    LexIrreflexive("-");
    PaddedLess(a.year, b.year, 4);
    PaddedInjective(a.year, b.year, 4);
    PaddedLess(a.month, b.month, 2);
    if ya + "-" == yb + "-" {
      assert ya == (ya + "-")[..4] && yb == (yb + "-")[..4];
    }
  }

  /** Ordering ISO date strings as strings orders the dates chronologically
      (this is what the frontend's string sort does to the date column). */
  lemma IsoDateLess(a: CalendarDate, b: CalendarDate)
    ensures LexLess(IsoDate(a), IsoDate(b)) <==> Earlier(a, b)
  {
    Pow10Values();
    var ka, kb := YearField(a) + "-" + MonthField(a), YearField(b) + "-" + MonthField(b);
    assert IsoDate(a) == ka + "-" + DayField(a) && IsoDate(b) == kb + "-" + DayField(b);
    MonthKeyLess(a, b);
    MonthKeySame(a, b);
    MonthKeyFields(a);
    MonthKeyFields(b);
    LexAppend(ka + "-", kb + "-", DayField(a), DayField(b));
    LexAppend(ka, kb, "-", "-");
    LexIrreflexive("-");
    PaddedLess(a.day, b.day, 2);
    if ka + "-" == kb + "-" {
      assert ka == (ka + "-")[..7] && kb == (kb + "-")[..7];
    }
  }
}
