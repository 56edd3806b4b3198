/**
 * ECMAScript `Date` time values (integer milliseconds from 1970-01-01T00:00Z)
 * and their `toISOString()` text, with the 10-character day prefix both the
 * server and the page take from it.
 */
module IsoTime {
  import opened Civil
  import opened Strings
  import opened Seqs
  import opened Options

  /** ECMAScript TimeClip: a Date holds at most 8.64e15 ms either side of the epoch. */
  const MaxTimeMs: int := 8640000000000000

  predicate InTimeRange(t: int) { -MaxTimeMs <= t <= MaxTimeMs }

  /** The year field of toISOString: four digits, or a sign and six digits outside 0..9999. */
  function YearString(y: int): (s: string)
    ensures |s| >= 4
  {
    if 0 <= y <= 9999 then PadDigits(y, 4); Pad(y, 4)
    else if y > 9999 then PadDigits(y, 6); "+" + Pad(y, 6)
    else PadDigits(-y, 6); "-" + Pad(-y, 6)
  }

  /** `YYYY-MM-DD` (or the expanded-year form) of a calendar date. */
  function DateText(d: Date): (s: string)
    requires ValidDate(d)
    ensures |s| >= 10
  {
    PadDigits(d.month, 2);
    PadDigits(d.day, 2);
    YearString(d.year) + "-" + Pad(d.month, 2) + "-" + Pad(d.day, 2)
  }

  /** `THH:mm:ss.sssZ` for a position within the day. */
  function TimeText(r: int): string
    requires 0 <= r < MsPerDay
  {
    "T" + Pad(r / 3600000, 2) + ":" + Pad(r / 60000 % 60, 2) + ":" + Pad(r / 1000 % 60, 2)
    + "." + Pad(r % 1000, 3) + "Z"
  }

  /** The calendar date of a time value, in UTC. */
  function DateOf(t: int): (d: Date)
    ensures ValidDate(d)
    ensures DaysFromCivil(d) == t / MsPerDay
  {
    DaysCivilRoundTrip(t / MsPerDay);
    CivilFromDays(t / MsPerDay)
  }

  /** `new Date(t).toISOString()` for a time value in range. */
  function IsoString(t: int): string {
    DateText(DateOf(t)) + TimeText(t % MsPerDay)
  }

  /** `new Date(t).toISOString().slice(0, 10)`. */
  function DayKey(t: int): string {
    Prefix(IsoString(t), 10)
  }

  /** A canonical `YYYY-MM-DD` text: four year digits, two month digits, two day digits. */
  predicate IsDateText(s: string) {
    |s| == 10 && s[4] == '-' && s[7] == '-'
    && AllDigits(s[..4]) && AllDigits(s[5..7]) && AllDigits(s[8..])
  }

  /** The day key is the date part of the ISO text: always ten characters. */
  lemma DayKeyShape(t: int)
    ensures |DayKey(t)| == 10
    ensures DayKey(t) == DateText(DateOf(t))[..10]
    ensures 0 <= DateOf(t).year <= 9999 ==> DayKey(t) == DateText(DateOf(t))
    ensures DateOf(t).year > 9999 ==> DayKey(t)[0] == '+'
  {
    var d := DateOf(t);
    var iso := IsoString(t);
    assert iso[..10] == DateText(d)[..10];
    if 0 <= d.year <= 9999 {
      PadDigits(d.year, 4);
      PadDigits(d.month, 2);
      PadDigits(d.day, 2);
      assert |DateText(d)| == 10;
    }
  }

  /** A four-digit-year date prints as `YYYY-MM-DD`, which splits at '-' into its three numbers. */
  lemma DateTextParts(d: Date)
    requires ValidDate(d) && 0 <= d.year <= 9999
    ensures DateText(d) == Pad(d.year, 4) + "-" + Pad(d.month, 2) + "-" + Pad(d.day, 2)
    ensures IsDateText(DateText(d))
    ensures DateText(d)[..4] == Pad(d.year, 4) && DateText(d)[5..7] == Pad(d.month, 2)
    ensures DateText(d)[8..] == Pad(d.day, 2)
    ensures Split(DateText(d), '-') == [Pad(d.year, 4), Pad(d.month, 2), Pad(d.day, 2)]
    ensures JsNumber(Pad(d.year, 4)) == Some(d.year)
    ensures JsNumber(Pad(d.month, 2)) == Some(d.month)
    ensures JsNumber(Pad(d.day, 2)) == Some(d.day)
  {
    PadDigits(d.year, 4);
    PadDigits(d.month, 2);
    PadDigits(d.day, 2);
    JsNumberOfPad(d.year, 4);
    JsNumberOfPad(d.month, 2);
    JsNumberOfPad(d.day, 2);
    DashedText(Pad(d.year, 4), Pad(d.month, 2), Pad(d.day, 2));
  }

  /** Four, two and two digits joined by '-' form a date text that splits back into them. */
  lemma DashedText(y: string, m: string, dd: string)
    requires AllDigits(y) && AllDigits(m) && AllDigits(dd) && |y| == 4 && |m| == 2 && |dd| == 2
    ensures var s := y + "-" + m + "-" + dd;
            IsDateText(s) && s[..4] == y && s[5..7] == m && s[8..] == dd && s[..7] == y + "-" + m
            && Split(s, '-') == [y, m, dd]
  {
    var s := y + "-" + m + "-" + dd;
    NoDashInDigits(y);
    NoDashInDigits(m);
    NoDashInDigits(dd);
    AppendAssoc(y + "-" + m, "-", dd);
    AppendAssoc(y + "-", m, "-" + dd);
    AppendAssoc(m, "-", dd);
    assert s == y + ['-'] + (m + ['-'] + dd);
    SplitNoSeparator(dd, '-');
    SplitAtSeparator(m, '-', dd);
    SplitAtSeparator(y, '-', m + ['-'] + dd);
  }

  /** A date text is its three digit groups joined by '-'. */
  lemma DateTextIsDashed(s: string)
    requires IsDateText(s)
    ensures s == s[..4] + "-" + s[5..7] + "-" + s[8..]
  {
  }

  lemma NoDashInDigits(s: string)
    requires AllDigits(s)
    ensures '-' !in s
  {
    forall i | 0 <= i < |s| ensures s[i] != '-' {
      assert IsDigit(s[i]);
    }
  }

  /** For strings of one length, comparing a concatenation compares the first parts, then the rest. */
  lemma LexLessConcat(a1: string, a2: string, b1: string, b2: string)
    requires |a1| == |b1|
    ensures LexLess(a1 + a2, b1 + b2) <==> LexLess(a1, b1) || (a1 == b1 && LexLess(a2, b2))
  {
    if a1 == b1 {
      LexLessIrreflexive(a1);
      LexLessCommonPrefix(a1, a2, b2);
    } else if LexLess(a1, b1) {
      LexLessSameLength(a1, b1, a2, b2);
    } else {
      LexLessTrichotomy(a1, b1);
      LexLessSameLength(b1, a1, b2, a2);
      LexLessTrichotomy(a1 + a2, b1 + b2);
    }
  }

  /** Texts `y-m-d` with fields of matching widths compare field by field. */
  lemma DashedOrder(ya: string, ma: string, da: string, yb: string, mb: string, db: string)
    requires |ya| == |yb| && |ma| == |mb|
    ensures LexLess(ya + "-" + ma + "-" + da, yb + "-" + mb + "-" + db) <==>
      LexLess(ya, yb) || (ya == yb && (LexLess(ma, mb) || (ma == mb && LexLess(da, db))))
  {
    var ta, tb := ma + "-" + da, mb + "-" + db;
    assert ya + "-" + ma + "-" + da == ya + ("-" + ta);
    assert yb + "-" + mb + "-" + db == yb + ("-" + tb);
    LexLessConcat(ya, "-" + ta, yb, "-" + tb);
    LexLessCommonPrefix("-", ta, tb);
    assert ta == ma + ("-" + da) && tb == mb + ("-" + db);
    LexLessConcat(ma, "-" + da, mb, "-" + db);
    LexLessCommonPrefix("-", da, db);
  }

  /** Canonical date texts sort in calendar order: year, then month, then day. */
  lemma DateTextOrder(a: Date, b: Date)
    requires ValidDate(a) && 0 <= a.year <= 9999
    requires ValidDate(b) && 0 <= b.year <= 9999
    ensures LexLess(DateText(a), DateText(b)) <==>
      a.year < b.year || (a.year == b.year && (a.month < b.month || (a.month == b.month && a.day < b.day)))
  {
    DateTextParts(a);
    DateTextParts(b);
    PadDigits(a.year, 4); PadDigits(a.month, 2); PadDigits(a.day, 2);
    PadDigits(b.year, 4); PadDigits(b.month, 2); PadDigits(b.day, 2);
    var ya, ma, da := Pad(a.year, 4), Pad(a.month, 2), Pad(a.day, 2);
    var yb, mb, db := Pad(b.year, 4), Pad(b.month, 2), Pad(b.day, 2);
    DigitsOrder(ya, yb);
    DigitsOrder(ma, mb);
    DigitsOrder(da, db);
    DashedOrder(ya, ma, da, yb, mb, db);
  }

  /** Distinct four-digit-year dates have distinct texts. */
  lemma DateTextInjective(a: Date, b: Date)
    requires ValidDate(a) && 0 <= a.year <= 9999
    requires ValidDate(b) && 0 <= b.year <= 9999
    ensures DateText(a) == DateText(b) <==> a == b
  {
    if DateText(a) == DateText(b) {
      DateTextParts(a);
      DateTextParts(b);
      PadDigits(a.year, 4); PadDigits(a.month, 2); PadDigits(a.day, 2);
      PadDigits(b.year, 4); PadDigits(b.month, 2); PadDigits(b.day, 2);
      var s := DateText(a);
      assert s[..4] == Pad(a.year, 4) == Pad(b.year, 4);
      assert s[5..7] == Pad(a.month, 2) == Pad(b.month, 2);
      assert s[8..] == Pad(a.day, 2) == Pad(b.day, 2);
    }
  }
}
