/**
 * Proleptic-Gregorian civil calendar on unbounded integers.
 *
 * Day numbers count days from 1970-01-01 (day 0), as ECMAScript time values do
 * once divided by the number of milliseconds in a day.  The conversions are the
 * closed-form "days from civil" / "civil from days" formulas, which work on a
 * 400-year era of 146097 days whose years start on the first of March, so that
 * the leap day is the last day of a (shifted) year.
 */
module Civil {

  /** A calendar date; `month` runs from 1 to 12. */
  datatype Date = Date(year: int, month: int, day: int)

  const MsPerDay: int := 86400000

  predicate IsLeapYear(y: int) {
    y % 4 == 0 && (y % 100 != 0 || y % 400 == 0)
  }

  function DaysInMonth(y: int, m: int): (n: int)
    requires 1 <= m <= 12
    ensures 28 <= n <= 31
  {
    if m == 2 then (if IsLeapYear(y) then 29 else 28)
    else if m == 4 || m == 6 || m == 9 || m == 11 then 30
    else 31
  }

  predicate ValidDate(d: Date) {
    1 <= d.month <= 12 && 1 <= d.day <= DaysInMonth(d.year, d.month)
  }

  // ---------------------------------------------------------------------
  // Building blocks on one era.  `yoe` is the year of the era (0..399), the
  // shifted year `yoe` running from 1 March of year `yoe` to the end of
  // February of year `yoe + 1`; `doy` is the day of that shifted year and `mp`
  // the shifted month (0 = March, ..., 11 = February).

  /** Days of the era before shifted year `yoe`. */
  function YearStart(yoe: int): int { 365 * yoe + yoe / 4 - yoe / 100 }

  /** The shifted year of the era that contains day `doe` of the era. */
  function YoeOf(doe: int): int { (doe - doe / 1460 + doe / 36524 - doe / 146096) / 365 }

  function ShiftedYearLength(yoe: int): int { if IsLeapYear(yoe + 1) then 366 else 365 }

  /** Days of the shifted year before shifted month `mp`. */
  function MonthStart(mp: int): int { (153 * mp + 2) / 5 }

  /** The shifted month that contains day `doy` of the shifted year. */
  function MpOf(doy: int): int { (5 * doy + 2) / 153 }

  /** Days since 1970-01-01 of a date; days outside the month count on. */
  function DaysFromCivil(d: Date): int
    requires 1 <= d.month <= 12
  {
    var y := if d.month <= 2 then d.year - 1 else d.year;
    var era := y / 400;
    var yoe := y - era * 400;
    var mp := if d.month > 2 then d.month - 3 else d.month + 9;
    var doy := MonthStart(mp) + d.day - 1;
    era * 146097 + YearStart(yoe) + doy - 719468
  }

  /** The date of a day number. */
  function CivilFromDays(z: int): Date {
    var z0 := z + 719468;
    var era := z0 / 146097;
    EraDayDate(era, z0 - era * 146097)
  }

  /** The date of day `doe` of era `era`. */
  function EraDayDate(era: int, doe: int): Date {
    var yoe := YoeOf(doe);
    DateOfParts(era, yoe, doe - YearStart(yoe))
  }

  // ---------------------------------------------------------------------
  // Era arithmetic

  /** a / k == q, stated by the bounds that define the quotient. */
  lemma QuotientIs(a: int, k: int, q: int)
    requires k > 0 && k * q <= a < k * q + k
    ensures a / k == q
  {
    var d := a / k;
    assert a == k * d + a % k;
    if d > q {
      MulMonotone(k, q + 1, d);
    } else if d < q {
      MulMonotone(k, d + 1, q);
    }
  }

  lemma MulMonotone(k: int, x: int, y: int)
    requires k > 0 && x <= y
    ensures k * x <= k * y
  {
    assert k * y - k * x == k * (y - x);
  }

  /** A year of the era as centuries, four-year cycles and years. */
  lemma YoeParts(yoe: int) returns (c: int, q: int, r: int)
    requires 0 <= yoe < 400
    ensures 0 <= c < 4 && 0 <= q < 25 && 0 <= r < 4
    ensures yoe == 100 * c + 4 * q + r
    ensures yoe / 4 == 25 * c + q && yoe / 100 == c
    ensures IsLeapYear(yoe + 1) <==> r == 3 && (q != 24 || c == 3)
  {
    c := yoe / 100;
    q := (yoe % 100) / 4;
    r := (yoe % 100) % 4;
    QuotientIs(yoe, 4, 25 * c + q);
    if r == 3 && q == 24 {
      assert yoe + 1 == 100 * (c + 1);
      assert IsLeapYear(yoe + 1) <==> (c + 1) % 4 == 0;
    } else if r == 3 {
      assert (yoe + 1) % 100 == 4 * q + 4;
    }
  }

  lemma YoeOfYearStart(yoe: int, doy: int)
    requires 0 <= yoe < 400
    requires 0 <= doy < ShiftedYearLength(yoe)
    ensures YoeOf(YearStart(yoe) + doy) == yoe
  {
    var c, q, r := YoeParts(yoe);
    assert YearStart(yoe) + doy == 36524 * c + 1461 * q + 365 * r + doy;
    YoeArithmetic(c, q, r, doy);
  }

  /** The quotients of YoeOf on a day given as centuries, four-year cycles, years and days. */
  lemma YoeArithmetic(c: int, q: int, r: int, doy: int)
    requires 0 <= c < 4 && 0 <= q < 25 && 0 <= r < 4
    requires 0 <= doy && (doy == 365 ==> r == 3 && (q != 24 || c == 3)) && doy <= 365
    ensures var doe := 36524 * c + 1461 * q + 365 * r + doy;
            (doe - doe / 1460 + doe / 36524 - doe / 146096) / 365 == 100 * c + 4 * q + r
  {
    var doe := 36524 * c + 1461 * q + 365 * r + doy;
    var x := FourYearCarry(c, q, r, doy, doe);
    var y := EraEndCarry(c, q, r, doy, doe);
    assert doe - doe / 1460 + doe / 36524 - doe / 146096 == 365 * (100 * c + 4 * q + r) + doy - x;
    QuotientIs(365 * (100 * c + 4 * q + r) + doy - x, 365, 100 * c + 4 * q + r);
  }

  /** The quotient by 1460 counts four-year cycles, plus one late in a century. */
  lemma FourYearCarry(c: int, q: int, r: int, doy: int, doe: int) returns (x: int)
    requires 0 <= c < 4 && 0 <= q < 25 && 0 <= r < 4 && 0 <= doy <= 365
    requires doe == 36524 * c + 1461 * q + 365 * r + doy
    ensures doe / 1460 == 25 * c + q + x
    ensures x == 1 ==> 24 * c + q + 365 * r + doy >= 1460
    ensures x == 0 ==> 24 * c + q + 365 * r + doy < 1460
  {
    if 24 * c + q + 365 * r + doy >= 1460 {
      x := 1;
    } else {
      x := 0;
    }
    QuotientIs(doe, 1460, 25 * c + q + x);
  }

  /** The quotients by 36524 and 146096 count centuries, plus one on the era's last day. */
  lemma EraEndCarry(c: int, q: int, r: int, doy: int, doe: int) returns (y: int)
    requires 0 <= c < 4 && 0 <= q < 25 && 0 <= r < 4
    requires 0 <= doy && (doy == 365 ==> r == 3 && (q != 24 || c == 3)) && doy <= 365
    requires doe == 36524 * c + 1461 * q + 365 * r + doy
    ensures doe / 36524 == c + y && doe / 146096 == y
  {
    if q == 24 && r == 3 && doy == 365 {
      y := 1;
    } else {
      y := 0;
    }
    QuotientIs(doe, 36524, c + y);
    QuotientIs(doe, 146096, y);
  }

  lemma YearStartStep(yoe: int)
    requires 0 <= yoe < 399
    ensures YearStart(yoe + 1) == YearStart(yoe) + ShiftedYearLength(yoe)
  {
    var c, t := yoe / 100, yoe % 100;
    var q, r := t / 4, t % 4;
    assert yoe == 100 * c + 4 * q + r;
    if r == 3 {
      assert (yoe + 1) / 4 == yoe / 4 + 1;
      if t == 99 {
        assert (yoe + 1) / 100 == yoe / 100 + 1;
      } else {
        assert (yoe + 1) / 100 == yoe / 100;
      }
    } else {
      assert (yoe + 1) / 4 == yoe / 4;
      assert (yoe + 1) / 100 == yoe / 100;
    }
  }

  /** Shifted years `from` .. 399 tile the days of the era from YearStart(from) on. */
  lemma {:induction false} YearOfEraDay(doe: int, from: int) returns (yoe: int)
    requires 0 <= from < 400 && YearStart(from) <= doe < 146097
    ensures from <= yoe < 400
    ensures YearStart(yoe) <= doe < YearStart(yoe) + ShiftedYearLength(yoe)
    decreases 400 - from
  {
    if from == 399 || doe < YearStart(from) + ShiftedYearLength(from) {
      yoe := from;
    } else {
      YearStartStep(from);
      yoe := YearOfEraDay(doe, from + 1);
    }
  }

  lemma {:induction false} YearStartBound(yoe: int)
    requires 0 <= yoe < 400
    ensures 0 <= YearStart(yoe)
    ensures YearStart(yoe) + ShiftedYearLength(yoe) <= 146097
    decreases 400 - yoe
  {
    if yoe < 399 {
      YearStartStep(yoe);
      YearStartBound(yoe + 1);
    }
  }

  /** The shifted year and its day for day `doe` of an era. */
  lemma EraDay(doe: int)
    requires 0 <= doe < 146097
    ensures 0 <= YoeOf(doe) < 400
    ensures 0 <= doe - YearStart(YoeOf(doe)) < ShiftedYearLength(YoeOf(doe))
  {
    var yoe := YearOfEraDay(doe, 0);
    YoeOfYearStart(yoe, doe - YearStart(yoe));
  }

  function ShiftedMonthLength(mp: int, leap: bool): int
    requires 0 <= mp < 12
  {
    if mp == 11 then (if leap then 29 else 28) else MonthStart(mp + 1) - MonthStart(mp)
  }

  lemma MpOfDoy(doy: int)
    requires 0 <= doy < 366
    ensures 0 <= MpOf(doy) < 12
    ensures MonthStart(MpOf(doy)) <= doy < MonthStart(MpOf(doy) + 1)
  {
  }

  lemma MpOfMonthDay(mp: int, doy: int)
    requires 0 <= mp < 12
    requires MonthStart(mp) <= doy < MonthStart(mp + 1)
    ensures MpOf(doy) == mp
  {
  }

  /** The shifted month lengths are the calendar month lengths. */
  lemma ShiftedMonthLengths(mp: int, y: int)
    requires 0 <= mp < 12
    ensures var m := if mp < 10 then mp + 3 else mp - 9;
            ShiftedMonthLength(mp, IsLeapYear(y + 1)) ==
            DaysInMonth(if m <= 2 then y + 1 else y, m)
  {
  }

  lemma LeapInEra(yoe: int, era: int)
    ensures IsLeapYear(yoe + era * 400 + 1) == IsLeapYear(yoe + 1)
  {
    var a := yoe + 1;
    ModShift(a, era * 100, 4);
    ModShift(a, era * 4, 100);
    ModShift(a, era, 400);
    assert era * 400 == era * 100 * 4 == era * 4 * 100;
  }

  /** Adding a multiple of `n` leaves the remainder modulo `n` as it is. */
  lemma ModShift(a: int, k: int, n: int)
    requires n > 0
    ensures (a + k * n) % n == a % n
  {
    var q, r := a / n, a % n;
    assert a + k * n == n * (q + k) + r;
    QuotientIs(a + k * n, n, q + k);
  }

  // ---------------------------------------------------------------------
  // The two round trips

  /** The date named by era `era`, shifted year `yoe` and day `doy` of that year. */
  function DateOfParts(era: int, yoe: int, doy: int): Date {
    var mp := MpOf(doy);
    var m := if mp < 10 then mp + 3 else mp - 9;
    var y := yoe + era * 400;
    Date(if m <= 2 then y + 1 else y, m, doy - MonthStart(mp) + 1)
  }

  /** A day number splits uniquely into era, shifted year and day of that year. */
  lemma CivilOfParts(z: int, era: int, yoe: int, doy: int)
    requires 0 <= yoe < 400 && 0 <= doy < ShiftedYearLength(yoe)
    requires z + 719468 == era * 146097 + YearStart(yoe) + doy
    ensures CivilFromDays(z) == DateOfParts(era, yoe, doy)
  {
    YearStartBound(yoe);
    QuotientIs(z + 719468, 146097, era);
    YoeOfYearStart(yoe, doy);
    CivilOfEraDay(z, era, YearStart(yoe) + doy, yoe);
  }

  lemma CivilOfEraDay(z: int, era: int, doe: int, yoe: int)
    requires (z + 719468) / 146097 == era && doe == z + 719468 - era * 146097
    requires YoeOf(doe) == yoe
    ensures CivilFromDays(z) == DateOfParts(era, yoe, doe - YearStart(yoe))
  {
  }

  /** The parts of day number `z`. */
  lemma PartsOfDay(z: int) returns (era: int, yoe: int, doy: int)
    ensures 0 <= yoe < 400 && 0 <= doy < ShiftedYearLength(yoe)
    ensures z + 719468 == era * 146097 + YearStart(yoe) + doy
  {
    era := (z + 719468) / 146097;
    var doe := z + 719468 - era * 146097;
    EraDay(doe);
    yoe := YoeOf(doe);
    doy := doe - YearStart(yoe);
  }

  lemma DateOfPartsValid(era: int, yoe: int, doy: int)
    requires 0 <= yoe < 400 && 0 <= doy < ShiftedYearLength(yoe)
    ensures ValidDate(DateOfParts(era, yoe, doy))
  {
    MpOfDoy(doy);
    var mp := MpOf(doy);
    LeapInEra(yoe, era);
    ShiftedMonthLengths(mp, yoe + era * 400);
  }

  lemma DaysOfDateOfParts(era: int, yoe: int, doy: int)
    requires 0 <= yoe < 400 && 0 <= doy < ShiftedYearLength(yoe)
    ensures 1 <= DateOfParts(era, yoe, doy).month <= 12
    ensures DaysFromCivil(DateOfParts(era, yoe, doy)) == era * 146097 + YearStart(yoe) + doy - 719468
  {
    MpOfDoy(doy);
    QuotientIs(yoe + era * 400, 400, era);
  }

  /** Every day number names a valid date, and converting back gives the day. */
  lemma DaysCivilRoundTrip(z: int)
    ensures ValidDate(CivilFromDays(z))
    ensures DaysFromCivil(CivilFromDays(z)) == z
  {
    var era, yoe, doy := PartsOfDay(z);
    CivilOfParts(z, era, yoe, doy);
    DateOfPartsValid(era, yoe, doy);
    DaysOfDateOfParts(era, yoe, doy);
  }

  /** Every valid date survives the trip through its day number. */
  lemma CivilDaysRoundTrip(d: Date)
    requires ValidDate(d)
    ensures CivilFromDays(DaysFromCivil(d)) == d
  {
    var era, yoe, doy := PartsOfDate(d);
    CivilOfParts(DaysFromCivil(d), era, yoe, doy);
  }

  /** The era, shifted year and day of that year of a valid date, which name the date again. */
  lemma PartsOfDate(d: Date) returns (era: int, yoe: int, doy: int)
    requires ValidDate(d)
    ensures 0 <= yoe < 400 && 0 <= doy < ShiftedYearLength(yoe)
    ensures DaysFromCivil(d) + 719468 == era * 146097 + YearStart(yoe) + doy
    ensures DateOfParts(era, yoe, doy) == d
  {
    var y := if d.month <= 2 then d.year - 1 else d.year;
    era := y / 400;
    yoe := y - era * 400;
    var mp := if d.month > 2 then d.month - 3 else d.month + 9;
    doy := MonthStart(mp) + d.day - 1;
    LeapInEra(yoe, era);
    ShiftedMonthLengths(mp, y);
    MpOfMonthDay(mp, doy);
  }

  // ---------------------------------------------------------------------
  // ECMAScript date arithmetic

  /** ECMAScript's MakeDay on a year, a month index of any size and a day of any size. */
  function MakeDay(year: int, monthIndex: int, date: int): int {
    DaysFromCivil(Date(year + monthIndex / 12, monthIndex % 12 + 1, 1)) + date - 1
  }

  /** Date.UTC and the Date constructor read a year 0..99 as 1900..1999. */
  function MakeFullYear(y: int): int {
    if 0 <= y <= 99 then 1900 + y else y
  }

  /** ECMAScript's WeekDay: 0 is Sunday; 1970-01-01 was a Thursday. */
  function Weekday(z: int): int { (z + 4) % 7 }

  lemma MakeDayOfDate(d: Date)
    requires ValidDate(d)
    ensures MakeDay(d.year, d.month - 1, d.day) == DaysFromCivil(d)
  {
  }

  /** The day after the last of a month is the first of the next month. */
  lemma MonthEnd(y: int, m: int)
    requires 1 <= m <= 12
    ensures DaysFromCivil(Date(y, m, DaysInMonth(y, m))) + 1 ==
            (if m == 12 then DaysFromCivil(Date(y + 1, 1, 1)) else DaysFromCivil(Date(y, m + 1, 1)))
  {
    if m == 2 {
      FebruaryEnd(y);
    } else {
      var y' := if m <= 2 then y - 1 else y;
      var mp := if m > 2 then m - 3 else m + 9;
      ShiftedMonthLengths(mp, y');
    }
  }

  lemma FebruaryEnd(y: int)
    ensures DaysFromCivil(Date(y, 2, DaysInMonth(y, 2))) + 1 == DaysFromCivil(Date(y, 3, 1))
  {
    var era := (y - 1) / 400;
    var yoe := y - 1 - era * 400;
    LeapInEra(yoe, era);
    assert yoe + era * 400 + 1 == y;
    assert DaysInMonth(y, 2) == ShiftedYearLength(yoe) - 337;
    if yoe < 399 {
      FebruaryEndInEra(y, era, yoe, DaysInMonth(y, 2));
    } else {
      FebruaryEndOfEra(y, era, DaysInMonth(y, 2));
    }
  }

  /** The last shifted year of an era but one: March 1 starts the next shifted year of the same era. */
  lemma FebruaryEndInEra(y: int, era: int, yoe: int, n: int)
    requires 0 <= yoe < 399 && y - 1 == era * 400 + yoe && n == ShiftedYearLength(yoe) - 337
    ensures DaysFromCivil(Date(y, 2, n)) + 1 == DaysFromCivil(Date(y, 3, 1))
  {
    QuotientIs(y - 1, 400, era);
    QuotientIs(y, 400, era);
    YearStartStep(yoe);
    assert (y - 1) - era * 400 == yoe && y - era * 400 == yoe + 1;
  }

  /** The last shifted year of an era, which is a leap year: March 1 starts the next era. */
  lemma FebruaryEndOfEra(y: int, era: int, n: int)
    requires y - 1 == era * 400 + 399 && n == ShiftedYearLength(399) - 337
    ensures DaysFromCivil(Date(y, 2, n)) + 1 == DaysFromCivil(Date(y, 3, 1))
  {
    QuotientIs(y - 1, 400, era);
    QuotientIs(y, 400, era + 1);
    assert YearStart(399) == 145731 && ShiftedYearLength(399) == 366;
  }

  /**
   * Day 0 of the month after month index `mi` (what `new Date(y, mi + 1, 0)` names)
   * is the last day of month `mi`, for a month index of any size.
   */
  lemma LastDayNumber(y: int, mi: int)
    ensures var ym := y + mi / 12;
            var m := mi % 12 + 1;
            MakeDay(y, mi + 1, 0) == DaysFromCivil(Date(ym, m, DaysInMonth(ym, m)))
  {
    LastDayAt(y, mi, y + mi / 12, mi % 12 + 1, MakeDay(y, mi + 1, 0));
  }

  lemma LastDayAt(y: int, mi: int, ym: int, m: int, z: int)
    requires ym == y + mi / 12 && m == mi % 12 + 1 && z == MakeDay(y, mi + 1, 0)
    ensures 1 <= m <= 12 && z == DaysFromCivil(Date(ym, m, DaysInMonth(ym, m)))
  {
    NextMonthIndex(mi);
    MonthEnd(ym, m);
    if m == 12 {
      assert z == DaysFromCivil(Date(ym + 1, 1, 1)) - 1;
    } else {
      assert z == DaysFromCivil(Date(ym, m + 1, 1)) - 1;
    }
  }

  /** Day 0 of the month after `month` of a year is that month's last day. */
  lemma LastDayInYear(year: int, month: int, last: int)
    requires 1 <= month <= 12 && last == MakeDay(year, month, 0)
    ensures last == DaysFromCivil(Date(year, month, DaysInMonth(year, month)))
  {
    MonthEnd(year, month);
    if month == 12 {
      assert month / 12 == 1 && month % 12 == 0;
    } else {
      assert month / 12 == 0 && month % 12 == month;
    }
  }

  /** The month index after `mi`, split into years and a month of the year. */
  lemma NextMonthIndex(mi: int)
    ensures mi % 12 == 11 ==> (mi + 1) / 12 == mi / 12 + 1 && (mi + 1) % 12 == 0
    ensures mi % 12 < 11 ==> (mi + 1) / 12 == mi / 12 && (mi + 1) % 12 == mi % 12 + 1
  {
  }

  // ---------------------------------------------------------------------
  // Order

  /** `a` comes before `b` in the calendar: by year, then month, then day. */
  predicate DateBefore(a: Date, b: Date) {
    a.year < b.year || (a.year == b.year && (a.month < b.month || (a.month == b.month && a.day < b.day)))
  }

  /** The day after a date: the next day of the month, the first of the next month, or New Year's Day. */
  function Successor(d: Date): Date
    requires ValidDate(d)
  {
    if d.day < DaysInMonth(d.year, d.month) then Date(d.year, d.month, d.day + 1)
    else if d.month < 12 then Date(d.year, d.month + 1, 1)
    else Date(d.year + 1, 1, 1)
  }

  lemma SuccessorDays(d: Date)
    requires ValidDate(d)
    ensures ValidDate(Successor(d)) && DateBefore(d, Successor(d))
    ensures DaysFromCivil(Successor(d)) == DaysFromCivil(d) + 1
  {
    if d.day == DaysInMonth(d.year, d.month) {
      MonthEnd(d.year, d.month);
    }
  }

  /** The date `k` days after a valid date, stepping one day at a time. */
  function After(d: Date, k: nat): (e: Date)
    requires ValidDate(d)
    ensures ValidDate(e)
    decreases k
  {
    if k == 0 then d else SuccessorDays(d); After(Successor(d), k - 1)
  }

  lemma {:induction false} AfterDays(d: Date, k: nat)
    requires ValidDate(d)
    ensures DaysFromCivil(After(d, k)) == DaysFromCivil(d) + k
    ensures k > 0 ==> DateBefore(d, After(d, k))
    decreases k, 1
  {
    if k > 0 {
      AfterStep(d, k, Successor(d), After(d, k));
    }
  }

  lemma {:induction false} AfterStep(d: Date, k: nat, s: Date, e: Date)
    requires ValidDate(d) && k > 0 && s == Successor(d)
    requires ValidDate(s) && e == After(s, k - 1)
    ensures DaysFromCivil(e) == DaysFromCivil(d) + k && DateBefore(d, e)
    decreases k, 0
  {
    SuccessorDays(d);
    AfterDays(s, k - 1);
    if k > 1 {
      DateBeforeTransitive(d, s, e);
    }
  }

  lemma DateBeforeTransitive(a: Date, b: Date, c: Date)
    requires DateBefore(a, b) && DateBefore(b, c)
    ensures DateBefore(a, c)
  {
  }

  /** Valid dates with the same day number are the same date. */
  lemma DaysInjective(a: Date, b: Date)
    requires ValidDate(a) && ValidDate(b) && DaysFromCivil(a) == DaysFromCivil(b)
    ensures a == b
  {
    CivilDaysRoundTrip(a);
    CivilDaysRoundTrip(b);
  }

  /** Day numbers order valid dates exactly as the calendar does. */
  lemma DaysOrder(a: Date, b: Date)
    requires ValidDate(a) && ValidDate(b)
    ensures DaysFromCivil(a) < DaysFromCivil(b) <==> DateBefore(a, b)
  {
    var za, zb := DaysFromCivil(a), DaysFromCivil(b);
    if za < zb {
      AfterDays(a, zb - za);
      DaysInjective(After(a, zb - za), b);
    } else if zb < za {
      AfterDays(b, za - zb);
      DaysInjective(After(b, za - zb), a);
    } else {
      DaysInjective(a, b);
    }
  }

  /** The day numbers of years 0 to 9999 lie well inside a hundred million days. */
  lemma DaysBound(d: Date)
    requires ValidDate(d) && 0 <= d.year <= 9999
    ensures -1000000 <= DaysFromCivil(d) <= 3000000
  {
    var y := if d.month <= 2 then d.year - 1 else d.year;
    var era := y / 400;
    var yoe := y - era * 400;
    YearStartBound(yoe);
    assert -1 <= era <= 24;
  }
}
