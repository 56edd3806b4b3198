/**
 * The page's day arithmetic on `YYYY-MM-DD` texts (public/app.js,
 * `dateStringToUTC`, `dateToString` and `addDays`): a text is read as the
 * start of a UTC day, moved by whole days and printed back through
 * `toISOString().slice(0, 10)`.
 */
module Dates {
  import opened Options
  import opened Strings
  import opened Civil
  import opened IsoTime

  /**
   * What `dateStringToUTC` returns: `null`, a Date whose time value is NaN,
   * or the Date at the start of UTC day `day` (day 0 is 1970-01-01).
   */
  datatype UtcDate = NullDate | InvalidDate | Midnight(day: int)

  /** A Date holds at most a hundred million days either side of the epoch. */
  const MaxDays: int := 100000000

  /** The TimeClip of the start of day `z`: in range, or an invalid Date. */
  function ClipDay(z: int): (r: UtcDate)
    ensures r.Midnight? <==> InTimeRange(z * MsPerDay)
    ensures r.Midnight? ==> r.day == z
  {
    if -MaxDays <= z <= MaxDays then Midnight(z) else InvalidDate
  }

  /** `Number(p)` on a part of the split text, or an undefined part when the text had fewer. */
  function PartNumber(parts: seq<string>, i: nat): Option<int>
    requires i < |parts|
  {
    JsNumber(parts[i])
  }

  /**
   * `dateStringToUTC`: `null` for the empty text or when a part that is
   * present is not a number; the Date of `Date.UTC(year, month - 1, day)`
   * otherwise, which is invalid when the month or the day is missing
   * (`undefined` is not NaN to `Number.isNaN`, but makes `Date.UTC` NaN) or
   * the day is out of range.
   */
  function DateStringToUtc(value: string): UtcDate {
    if value == "" then NullDate
    else
      var parts := Split(value, '-');
      if PartNumber(parts, 0).None? then NullDate
      else if |parts| > 1 && PartNumber(parts, 1).None? then NullDate
      else if |parts| > 2 && PartNumber(parts, 2).None? then NullDate
      else if |parts| < 3 then InvalidDate
      else
        var year := MakeFullYear(PartNumber(parts, 0).value);
        ClipDay(MakeDay(year, PartNumber(parts, 1).value - 1, PartNumber(parts, 2).value))
  }

  /** `dateToString`: the empty text for `null` or an invalid Date, else the day key. */
  function DateToString(d: UtcDate): string {
    match d
    case NullDate => ""
    case InvalidDate => ""
    case Midnight(z) => DayKey(z * MsPerDay)
  }

  /**
   * `date.setUTCDate(date.getUTCDate() + amount)` on a valid Date: the day
   * moves by `amount` (ShiftIsMakeDay) and is clipped again.
   */
  function ShiftDays(z: int, amount: int): UtcDate {
    ClipDay(z + amount)
  }

  /** `addDays`: `null` when the text does not parse, `""` for an invalid Date, else the new day key. */
  function AddDays(dateString: string, amount: int): Option<string> {
    match DateStringToUtc(dateString)
    case NullDate => None
    case InvalidDate => Some(DateToString(InvalidDate))
    case Midnight(z) => Some(DateToString(ShiftDays(z, amount)))
  }

  /**
   * `getTodayString` on the clock's local year, month index and day of the
   * month: the key of that day read as a UTC date.
   */
  function TodayString(year: int, monthIndex: int, date: int): string {
    DateToString(ClipDay(MakeDay(MakeFullYear(year), monthIndex, date)))
  }

  /** For a local date of years 100..9999, today's text is that date's `YYYY-MM-DD`. */
  lemma TodayStringOfDate(d: Date)
    requires ValidDate(d) && 100 <= d.year <= 9999
    ensures TodayString(d.year, d.month - 1, d.day) == DateText(d)
    ensures IsDateText(TodayString(d.year, d.month - 1, d.day))
  {
    MakeDayOfDate(d);
    FormatDay(d);
    DateTextParts(d);
  }

  /** A text that parses to a day moves to that day plus `amount`. */
  lemma AddDaysOfMidnight(dateString: string, amount: int, z: int)
    requires DateStringToUtc(dateString) == Midnight(z)
    ensures AddDays(dateString, amount) == Some(DateToString(ClipDay(z + amount)))
  {
  }

  /** Rebuilding the day from its year, month and date plus `amount`, as setUTCDate does, adds `amount`. */
  lemma ShiftIsMakeDay(z: int, amount: int)
    ensures var d := CivilFromDays(z);
            MakeDay(d.year, d.month - 1, d.day + amount) == z + amount
  {
    DaysCivilRoundTrip(z);
    ShiftInMonth(CivilFromDays(z), amount);
  }

  lemma ShiftInMonth(d: Date, amount: int)
    requires 1 <= d.month <= 12
    ensures MakeDay(d.year, d.month - 1, d.day + amount) == DaysFromCivil(d) + amount
  {
    MakeDayInYear(d.year, d.month, d.day + amount);
    MakeDayInYear(d.year, d.month, d.day);
    assert d == Date(d.year, d.month, d.day);
  }

  /** A month index 0..11 names a month of the same year; the day counts on from its first. */
  lemma MakeDayInYear(y: int, m: int, dd: int)
    requires 1 <= m <= 12
    ensures MakeDay(y, m - 1, dd) == DaysFromCivil(Date(y, m, dd))
    ensures DaysFromCivil(Date(y, m, dd)) == DaysFromCivil(Date(y, m, 1)) + dd - 1
  {
    assert (m - 1) / 12 == 0 && (m - 1) % 12 == m - 1;
  }

  /** `null` and `""` are the only falsy results, and `""` only comes from an invalid Date. */
  lemma AddDaysOutcomes(dateString: string, amount: int)
    ensures AddDays(dateString, amount).None? <==> DateStringToUtc(dateString).NullDate?
    ensures AddDays(dateString, amount) == Some("") <==>
      DateStringToUtc(dateString).InvalidDate?
      || (DateStringToUtc(dateString).Midnight?
          && !InTimeRange((DateStringToUtc(dateString).day + amount) * MsPerDay))
  {
    match DateStringToUtc(dateString)
    case NullDate =>
    case InvalidDate =>
    case Midnight(z) =>
      if InTimeRange((z + amount) * MsPerDay) {
        DayKeyShape((z + amount) * MsPerDay);
      }
  }

  /**
   * A four-digit date text parses as the day `Date.UTC` gives it: its own
   * day from year 100 on, and the same month and day of 19YY for years 0..99.
   */
  lemma ParseDateText(d: Date)
    requires ValidDate(d) && 0 <= d.year <= 9999
    ensures DateStringToUtc(DateText(d)) == Midnight(MakeDay(MakeFullYear(d.year), d.month - 1, d.day))
    ensures d.year >= 100 ==> DateStringToUtc(DateText(d)) == Midnight(DaysFromCivil(d))
  {
    DateTextParts(d);
    ParseOfParts(DateText(d), d.year, d.month, d.day);
    FullYearDayInRange(d);
  }

  /** The day `Date.UTC` gives the numbers of a valid date of years 0..9999 is one a Date holds. */
  lemma FullYearDayInRange(d: Date)
    requires ValidDate(d) && 0 <= d.year <= 9999
    ensures var z := MakeDay(MakeFullYear(d.year), d.month - 1, d.day);
            ClipDay(z) == Midnight(z) && (d.year >= 100 ==> z == DaysFromCivil(d))
  {
    var fy := MakeFullYear(d.year);
    DaysBound(Date(fy, d.month, 1));
    MakeDayInYear(fy, d.month, d.day);
  }

  /** A text of three numeric parts parses as the day `Date.UTC` gives those numbers. */
  lemma ParseOfParts(value: string, y: int, m: int, dd: int)
    requires value != "" && |Split(value, '-')| == 3
    requires JsNumber(Split(value, '-')[0]) == Some(y)
    requires JsNumber(Split(value, '-')[1]) == Some(m)
    requires JsNumber(Split(value, '-')[2]) == Some(dd)
    ensures DateStringToUtc(value) == ClipDay(MakeDay(MakeFullYear(y), m - 1, dd))
  {
  }

  /** The day key of the start of a valid date's day is the first ten characters of its text. */
  lemma DayKeyOfAnyDate(e: Date)
    requires ValidDate(e)
    ensures DayKey(DaysFromCivil(e) * MsPerDay) == DateText(e)[..10]
    ensures 0 <= e.year <= 9999 ==> DayKey(DaysFromCivil(e) * MsPerDay) == DateText(e)
  {
    var t := DaysFromCivil(e) * MsPerDay;
    assert t / MsPerDay == DaysFromCivil(e);
    DaysInjective(DateOf(t), e);
    DayKeyShape(t);
  }

  /** The day of a date of years 0..9999 is within the range a Date holds. */
  lemma DayKeyOfDate(e: Date)
    requires ValidDate(e) && 0 <= e.year <= 9999
    ensures ClipDay(DaysFromCivil(e)) == Midnight(DaysFromCivil(e))
    ensures DayKey(DaysFromCivil(e) * MsPerDay) == DateText(e)
  {
    DaysBound(e);
    DayKeyOfAnyDate(e);
  }

  /** The start of a day of years 0..9999 prints as that day's canonical text. */
  lemma FormatDay(e: Date)
    requires ValidDate(e) && 0 <= e.year <= 9999
    ensures DateToString(ClipDay(DaysFromCivil(e))) == DateText(e)
  {
    DayKeyOfDate(e);
  }

  /**
   * Round trip: moving a four-digit date text of year 100 or later by
   * `amount` days gives the canonical text of the date `e` that lies
   * `amount` days on, as long as `e` still has a four-digit year.
   */
  lemma AddDaysCanonical(d: Date, amount: int, e: Date)
    requires ValidDate(d) && 100 <= d.year <= 9999
    requires ValidDate(e) && 0 <= e.year <= 9999 && DaysFromCivil(e) == DaysFromCivil(d) + amount
    ensures AddDays(DateText(d), amount) == Some(DateText(e))
  {
    ParseDateText(d);
    FormatDay(e);
  }

  /** Under the same conditions, a later day has a greater text and an earlier day a smaller one. */
  lemma AddDaysDirection(d: Date, amount: int, e: Date)
    requires ValidDate(d) && 100 <= d.year <= 9999
    requires ValidDate(e) && 0 <= e.year <= 9999 && DaysFromCivil(e) == DaysFromCivil(d) + amount
    ensures AddDays(DateText(d), amount) == Some(DateText(e))
    ensures amount > 0 ==> LexLess(DateText(d), DateText(e))
    ensures amount < 0 ==> LexLess(DateText(e), DateText(d))
  {
    AddDaysCanonical(d, amount, e);
    DaysOrder(d, e);
    DaysOrder(e, d);
    DateTextOrder(d, e);
    DateTextOrder(e, d);
  }

  /** Every date moved by a whole number of days is some valid date that many days on. */
  lemma DateAfter(d: Date, amount: int) returns (e: Date)
    requires ValidDate(d)
    ensures ValidDate(e) && DaysFromCivil(e) == DaysFromCivil(d) + amount
  {
    e := CivilFromDays(DaysFromCivil(d) + amount);
    DaysCivilRoundTrip(DaysFromCivil(d) + amount);
  }

  lemma Text99991228()
    ensures DateText(Date(9999, 12, 28)) == "9999-12-28"
  {
    assert NatToString(9999) == "9999";
    assert Pad(12, 2) == "12" && Pad(28, 2) == "28";
  }

  lemma Text100000104()
    ensures DateText(Date(10000, 1, 4)) == "+010000-01-04"
  {
    Year10000String();
    assert Pad(1, 2) == "01" && Pad(4, 2) == "04";
  }

  lemma Year10000String()
    ensures YearString(10000) == "+010000"
  {
    Digits10000();
    assert Pad(10000, 6) == "0" + "10000";
  }

  lemma Digits10000()
    ensures NatToString(10000) == "10000"
  {
    assert NatToString(10) == "10";
    assert NatToString(100) == "10" + "0";
    assert NatToString(1000) == "100" + "0";
    assert NatToString(10000) == "1000" + "0";
  }

  lemma Days100000104()
    ensures DaysFromCivil(Date(10000, 1, 4)) == 2932900 == DaysFromCivil(Date(9999, 12, 28)) + 7
  {
    assert 9999 / 400 == 24 && YearStart(399) == 145731;
    assert MonthStart(10) == 306 && MonthStart(9) == 275;
  }

  /** Year 10000 prints with an expanded year, so the ten-character key is cut mid-date. */
  lemma AddDaysPastYear9999()
    ensures AddDays("9999-12-28", 7) == Some("+010000-01")
  {
    Parse99991228();
    AddDaysOfMidnight("9999-12-28", 7, 2932893);
    assert ClipDay(2932900) == Midnight(2932900);
    Key100000104();
  }

  lemma Parse99991228()
    ensures DateStringToUtc("9999-12-28") == Midnight(2932893)
  {
    Text99991228();
    Days100000104();
    ParseDateText(Date(9999, 12, 28));
  }

  lemma Key100000104()
    ensures DateToString(Midnight(2932900)) == "+010000-01"
  {
    Days100000104();
    FormatAnyDay(Date(10000, 1, 4), 2932900);
    Prefix100000104();
  }

  lemma Prefix100000104()
    ensures DateText(Date(10000, 1, 4))[..10] == "+010000-01"
  {
    Text100000104();
    assert "+010000-01-04"[..10] == "+010000-01";
  }

  /** The start of day `z` prints as the first ten characters of the text of the date it falls on. */
  lemma FormatAnyDay(e: Date, z: int)
    requires ValidDate(e) && DaysFromCivil(e) == z
    ensures DateToString(Midnight(z)) == DateText(e)[..10]
  {
    DayKeyOfAnyDate(e);
  }

  lemma Text00500105()
    ensures DateText(Date(50, 1, 5)) == "0050-01-05"
  {
    assert NatToString(50) == "50" && Zeros(2) == "00";
    assert Pad(50, 4) == "0050";
    assert Pad(1, 2) == "01" && Pad(5, 2) == "05";
  }

  lemma Text19491229()
    ensures DateText(Date(1949, 12, 29)) == "1949-12-29"
  {
    assert NatToString(1949) == "1949";
    assert Pad(12, 2) == "12" && Pad(29, 2) == "29";
  }

  lemma Days19491229()
    ensures MakeDay(MakeFullYear(50), 0, 5) - 7 == DaysFromCivil(Date(1949, 12, 29))
  {
    assert MakeDay(1950, 0, 5) == DaysFromCivil(Date(1950, 1, 1)) + 4;
    assert 1949 / 400 == 4 && YearStart(349) == 127469;
    assert MonthStart(10) == 306 && MonthStart(9) == 275;
  }

  /** A year below 100 is read as 19YY, so stepping back a week from 0050-01-05 lands in 1949. */
  lemma AddDaysTwoDigitYear()
    ensures AddDays("0050-01-05", -7) == Some("1949-12-29")
  {
    Text00500105();
    Text19491229();
    Days19491229();
    ParseDateText(Date(50, 1, 5));
    FormatDay(Date(1949, 12, 29));
  }

  /** `"unknown"` is not a number, so it parses to `null` and cannot be moved. */
  lemma UnknownIsNull()
    ensures DateStringToUtc("unknown") == NullDate
    ensures AddDays("unknown", 7) == None
  {
    SplitNoSeparator("unknown", '-');
    assert !IsDigit("unknown"[0]);
  }

  lemma ExpandedYearParts()
    ensures Split("+010000-01", '-') == ["+010000", "01"]
  {
    assert "+010000-01" == "+010000" + ['-'] + "01";
    SplitNoSeparator("01", '-');
    SplitAtSeparator("+010000", '-', "01");
  }

  lemma ExpandedYearNumbers()
    ensures JsNumber("+010000") == Some(10000) && JsNumber("01") == Some(1)
  {
    assert !IsDigit("+010000"[0]);
    assert "+010000"[1..] == "010000";
    assert NatToString(10000) == "10000";
    assert Pad(10000, 6) == "010000";
    PadDigits(10000, 6);
    JsNumberOfPad(1, 2);
    assert Pad(1, 2) == "01";
  }

  /** An expanded-year key has no day part, so it parses to an invalid Date and moves to `""`. */
  lemma ExpandedYearIsInvalid()
    ensures DateStringToUtc("+010000-01") == InvalidDate
    ensures AddDays("+010000-01", -7) == Some("")
  {
    ExpandedYearParts();
    ExpandedYearNumbers();
  }
}
