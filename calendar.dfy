/**
 * The page's month calendar (public/app.js, `buildCalendarMonths` and the
 * grid arithmetic of `renderCalendar`): the available dates bucketed by
 * their `YYYY-MM` key, sorted by (year, month index), and each month laid
 * out as Sunday-first weeks.
 */
module Calendar {
  import opened Options
  import opened Strings
  import opened Sorting
  import opened Civil
  import opened IsoTime

  /**
   * One calendar page: the key `${year}-${month}` of the split date, the
   * numbers read from it (None for NaN) and the available dates it holds.
   * The localized label is not modelled.
   */
  datatype CalendarMonth = CalendarMonth(key: string, year: Option<int>, monthIndex: Option<int>, dates: set<string>)

  /** `Number(part) - 1`, NaN staying NaN. */
  function MinusOne(n: Option<int>): Option<int> {
    match n
    case None => None
    case Some(v) => Some(v - 1)
  }

  /** `${year}-${month}` of `dateString.split('-', 2)`; a missing month prints as "undefined". */
  function MonthKeyOf(d: string): string {
    var parts := Split(d, '-');
    parts[0] + "-" + (if |parts| >= 2 then parts[1] else "undefined")
  }

  /** The month record created for the first date of a key, with its set still empty. */
  function NewMonth(d: string): CalendarMonth {
    var parts := Split(d, '-');
    CalendarMonth(MonthKeyOf(d), JsNumber(parts[0]),
                  if |parts| >= 2 then MinusOne(JsNumber(parts[1])) else None, {})
  }

  /** The year and month index a key stands for, read back from the key itself. */
  function MonthOfKey(key: string): (m: CalendarMonth)
    ensures m.key == key && m.dates == {}
  {
    var parts := Split(key, '-');
    CalendarMonth(key, JsNumber(parts[0]),
                  if |parts| >= 2 then MinusOne(JsNumber(parts[1])) else None, {})
  }

  /** `monthMap` lookup by key: the position of the month with that key, or -1. */
  function FindKey(ms: seq<CalendarMonth>, key: string): (i: int)
    ensures -1 <= i < |ms|
    ensures i >= 0 ==> ms[i].key == key
    ensures i == -1 <==> forall j :: 0 <= j < |ms| ==> ms[j].key != key
    decreases |ms|
  {
    if ms == [] then -1
    else if ms[0].key == key then 0
    else
      var j := FindKey(ms[1..], key);
      if j < 0 then -1 else j + 1
  }

  /** The entries of `monthMap` in insertion order after the first `|dates|` dates. */
  function MonthMap(dates: seq<string>): seq<CalendarMonth>
    decreases |dates|
  {
    if dates == [] then []
    else
      var ms := MonthMap(dates[..|dates| - 1]);
      var d := dates[|dates| - 1];
      AddDate(ms, d)
  }

  /** One step of the loop: create the month of `d` when absent, then add `d` to it. */
  function AddDate(ms: seq<CalendarMonth>, d: string): seq<CalendarMonth> {
    var i := FindKey(ms, MonthKeyOf(d));
    var ms' := if i < 0 then ms + [NewMonth(d)] else ms;
    var j := if i < 0 then |ms| else i;
    ms'[j := ms'[j].(dates := ms'[j].dates + {d})]
  }

  /** The month comparator, None standing for NaN (`a.year === b.year` is false for NaN). */
  function MonthCompare(a: CalendarMonth, b: CalendarMonth): Option<int> {
    if a.year.Some? && b.year.Some? && a.year.value == b.year.value then
      (if a.monthIndex.Some? && b.monthIndex.Some? then Some(a.monthIndex.value - b.monthIndex.value) else None)
    else if a.year.Some? && b.year.Some? then Some(a.year.value - b.year.value)
    else None
  }

  /** `compare(a, b) <= 0`, a NaN result counting as 0. */
  predicate MonthLe(a: CalendarMonth, b: CalendarMonth) {
    var c := MonthCompare(a, b);
    c.None? || c.value <= 0
  }

  /** `buildCalendarMonths` on the sorted dates. */
  function BuildMonths(sortedDates: seq<string>): seq<CalendarMonth> {
    SortBy(MonthMap(sortedDates), MonthLe)
  }

  /**
   * `monthFormatter.format(new Date(`${key}-01T00:00:00`))` throws a RangeError
   * when that text parses as an Invalid Date.  Which texts other than ISO ones
   * parse is up to the engine, so the keys it rejects are a parameter,
   * `unparsed`: the loop throws exactly when some date's key is one of them.
   */
  predicate LabelThrows(dates: seq<string>, unparsed: set<string>) {
    exists i :: 0 <= i < |dates| && MonthKeyOf(dates[i]) in unparsed
  }

  /** No month of the map has a key the engine rejects. */
  predicate KeysParse(ms: seq<CalendarMonth>, unparsed: set<string>) {
    forall t :: 0 <= t < |ms| ==> ms[t].key !in unparsed
  }

  /**
   * The loop over the dates filling `monthMap`, then the sort; the loop stops
   * with `thrown` at the first new key whose label cannot be formatted.
   */
  method BuildCalendarMonths(sortedDates: seq<string>, unparsed: set<string>)
    returns (months: seq<CalendarMonth>, thrown: bool)
    ensures thrown == LabelThrows(sortedDates, unparsed)
    ensures !thrown ==> months == BuildMonths(sortedDates)
  {
    var ms: seq<CalendarMonth> := [];
    var i := 0;
    while i < |sortedDates|
      invariant 0 <= i <= |sortedDates|
      invariant ms == MonthMap(sortedDates[..i])
      invariant KeysParse(ms, unparsed) && !LabelThrows(sortedDates[..i], unparsed)
    {
      var d := sortedDates[i];
      assert sortedDates[..i + 1][..i] == sortedDates[..i];
      LabelThrowsStep(sortedDates, i, unparsed);
      var next, fails := AddMonthDate(ms, d, unparsed);
      if fails {
        assert MonthKeyOf(sortedDates[i]) in unparsed;
        return [], true;
      }
      ms := next;
      i := i + 1;
    }
    assert sortedDates[..i] == sortedDates;
    months := SortBy(ms, MonthLe);
    thrown := false;
  }

  /** One iteration: `monthMap.set(key, …)` with its label when the key is new, then `dates.add`. */
  method AddMonthDate(ms: seq<CalendarMonth>, d: string, unparsed: set<string>)
    returns (next: seq<CalendarMonth>, thrown: bool)
    requires KeysParse(ms, unparsed)
    ensures thrown == (FindKey(ms, MonthKeyOf(d)) < 0 && MonthKeyOf(d) in unparsed)
    ensures !thrown ==> next == AddDate(ms, d) && KeysParse(next, unparsed) && MonthKeyOf(d) !in unparsed
  {
    var key := MonthKeyOf(d);
    var j := FindKey(ms, key);
    next := ms;
    if j < 0 {
      if key in unparsed {
        return [], true;
      }
      next := next + [NewMonth(d)];
      j := |next| - 1;
    }
    next := next[j := next[j].(dates := next[j].dates + {d})];
    thrown := false;
  }

  lemma LabelThrowsStep(dates: seq<string>, i: nat, unparsed: set<string>)
    requires i < |dates|
    ensures LabelThrows(dates[..i + 1], unparsed)
            == (LabelThrows(dates[..i], unparsed) || MonthKeyOf(dates[i]) in unparsed)
  {
    var a, b := dates[..i], dates[..i + 1];
    assert b[i] == dates[i];
    if LabelThrows(b, unparsed) && MonthKeyOf(dates[i]) !in unparsed {
      var k :| 0 <= k < |b| && MonthKeyOf(b[k]) in unparsed;
      assert b[k] == a[k];
    }
    if LabelThrows(a, unparsed) {
      var k :| 0 <= k < |a| && MonthKeyOf(a[k]) in unparsed;
      assert a[k] == b[k];
    }
  }

  /** A dateless bucket's date `unknown` has no month part: its key is `unknown-undefined`. */
  lemma UnknownMonthKey()
    ensures MonthKeyOf("unknown") == "unknown-undefined"
  {
    var u := "unknown";
    assert |u| == 7 && u[0] != '-' && u[1] != '-' && u[2] != '-' && u[3] != '-' && u[4] != '-' && u[5] != '-' && u[6] != '-';
    DashlessMonthKey(u);
    assert u + "-undefined" == "unknown-undefined";
  }

  /** A text without a dash has no month part. */
  lemma DashlessMonthKey(d: string)
    requires forall i :: 0 <= i < |d| ==> d[i] != '-'
    ensures MonthKeyOf(d) == d + "-undefined"
  {
    SplitNoSeparator(d, '-');
  }

  /** Where the engine rejects `unknown-undefined-01T00:00:00`, an `unknown` date makes the build throw. */
  lemma UnknownDateThrows(dates: seq<string>, unparsed: set<string>)
    requires "unknown" in dates && "unknown-undefined" in unparsed
    ensures LabelThrows(dates, unparsed)
  {
    UnknownMonthKey();
    var i :| 0 <= i < |dates| && dates[i] == "unknown";
    assert MonthKeyOf(dates[i]) in unparsed;
  }

  /** A `YYYY-MM` text with a month from 01 to 12: the first seven characters of a valid date. */
  predicate IsMonthKeyText(k: string) {
    |k| == 7 && k[4] == '-' && AllDigits(k[..4]) && AllDigits(k[5..]) && 1 <= DigitsValue(k[5..]) <= 12
  }

  /**
   * An engine that parses every ISO `YYYY-MM-01T00:00:00` text with a month
   * from 01 to 12, as the date time string format requires, never makes the
   * build throw on canonical dates of such months.
   */
  lemma IsoDatesDoNotThrow(dates: seq<string>, unparsed: set<string>)
    requires forall i :: 0 <= i < |dates| ==> IsDateText(dates[i]) && 1 <= DigitsValue(dates[i][5..7]) <= 12
    requires forall k :: k in unparsed ==> !IsMonthKeyText(k)
    ensures !LabelThrows(dates, unparsed)
  {
    forall i | 0 <= i < |dates| ensures MonthKeyOf(dates[i]) !in unparsed {
      var d := dates[i];
      CanonicalKey(d);
      assert d[..7][..4] == d[..4] && d[..7][5..] == d[5..7];
      assert IsMonthKeyText(d[..7]);
    }
  }

  // ---------------------------------------------------------------------
  // The months of the map

  lemma UndefinedIsNaN()
    ensures '-' !in "undefined" && JsNumber("undefined") == None
  {
    assert !IsDigit("undefined"[0]);
  }

  /** `p + "-" + q` splits back into `p` and `q` when neither holds a '-'. */
  lemma SplitPair(p: string, q: string)
    requires '-' !in p && '-' !in q
    ensures Split(p + "-" + q, '-') == [p, q]
  {
    assert p + "-" + q == p + ['-'] + q;
    SplitAtSeparator(p, '-', q);
    SplitNoSeparator(q, '-');
  }

  /** The key fixes the numbers: any two dates with one key create the same month. */
  lemma KeyDeterminesMonth(d: string)
    ensures NewMonth(d) == MonthOfKey(MonthKeyOf(d))
  {
    var parts := Split(d, '-');
    SplitJoin(d, '-');
    UndefinedIsNaN();
    var rest := if |parts| >= 2 then parts[1] else "undefined";
    assert '-' !in parts[0] && '-' !in rest;
    SplitPair(parts[0], rest);
  }

  /** Every month of the map is the month of its own key holding some dates. */
  predicate WellKeyed(ms: seq<CalendarMonth>) {
    forall i :: 0 <= i < |ms| ==> ms[i] == MonthOfKey(ms[i].key).(dates := ms[i].dates)
  }

  predicate KeysDistinct(ms: seq<CalendarMonth>) {
    forall i, j :: 0 <= i < j < |ms| ==> ms[i].key != ms[j].key
  }

  /** One step keeps the earlier months' keys, adds `d` to the month of its key and nothing else. */
  lemma AddDateFacts(ms: seq<CalendarMonth>, d: string)
    ensures var r := AddDate(ms, d);
            var k := FindKey(ms, MonthKeyOf(d));
            |r| == (if k < 0 then |ms| + 1 else |ms|)
            && (forall i :: 0 <= i < |ms| ==>
                  (r[i].key == ms[i].key && r[i].year == ms[i].year && r[i].monthIndex == ms[i].monthIndex
                   && r[i].dates == (if i == k then ms[i].dates + {d} else ms[i].dates)))
            && (k < 0 ==> r[|ms|] == NewMonth(d).(dates := {d}))
  {
  }

  lemma {:induction false} MonthMapShape(dates: seq<string>)
    ensures WellKeyed(MonthMap(dates)) && KeysDistinct(MonthMap(dates))
    ensures forall x :: x in dates ==> FindKey(MonthMap(dates), MonthKeyOf(x)) >= 0
    decreases |dates|
  {
    if dates != [] {
      var init := dates[..|dates| - 1];
      var d := dates[|dates| - 1];
      assert dates == init + [d];
      MonthMapShape(init);
      KeyDeterminesMonth(d);
      var ms := MonthMap(init);
      var r := AddDate(ms, d);
      assert r == MonthMap(dates);
      AddDateFacts(ms, d);
      var k := FindKey(ms, MonthKeyOf(d));
      forall i | 0 <= i < |r| ensures r[i] == MonthOfKey(r[i].key).(dates := r[i].dates) {
        if i < |ms| {
          assert ms[i] == MonthOfKey(ms[i].key).(dates := ms[i].dates);
        }
      }
      forall i, j | 0 <= i < j < |r| ensures r[i].key != r[j].key {
        if j < |ms| {
          assert ms[i].key != ms[j].key;
        }
      }
      forall x | x in dates ensures FindKey(r, MonthKeyOf(x)) >= 0 {
        if x in init {
          var kx := FindKey(ms, MonthKeyOf(x));
          assert r[kx].key == MonthKeyOf(x);
        } else if k >= 0 {
          assert r[k].key == MonthKeyOf(d);
        } else {
          assert r[|ms|].key == MonthKeyOf(d);
        }
      }
    }
  }

  /** The dates of `dates` whose month key is `key`. */
  ghost function DatesWithKey(dates: seq<string>, key: string): set<string> {
    set x | x in dates && MonthKeyOf(x) == key
  }

  lemma DatesWithKeyStep(init: seq<string>, d: string, key: string)
    ensures DatesWithKey(init + [d], key)
      == DatesWithKey(init, key) + (if MonthKeyOf(d) == key then {d} else {})
  {
  }

  lemma DatesWithKeyNone(init: seq<string>, key: string)
    requires forall x :: x in init ==> MonthKeyOf(x) != key
    ensures DatesWithKey(init, key) == {}
  {
  }

  /** Every month's set holds exactly the dates of `init` with its key. */
  ghost predicate HoldsDatesOf(ms: seq<CalendarMonth>, init: seq<string>) {
    forall i :: 0 <= i < |ms| ==> ms[i].dates == DatesWithKey(init, ms[i].key)
  }

  lemma AddDateHoldsDates(ms: seq<CalendarMonth>, init: seq<string>, d: string)
    requires HoldsDatesOf(ms, init) && KeysDistinct(ms)
    requires forall x :: x in init ==> FindKey(ms, MonthKeyOf(x)) >= 0
    ensures HoldsDatesOf(AddDate(ms, d), init + [d])
  {
    var r := AddDate(ms, d);
    AddDateFacts(ms, d);
    var k := FindKey(ms, MonthKeyOf(d));
    forall i | 0 <= i < |r| ensures r[i].dates == DatesWithKey(init + [d], r[i].key) {
      DatesWithKeyStep(init, d, r[i].key);
      if i < |ms| {
        assert ms[i].dates == DatesWithKey(init, ms[i].key);
        if MonthKeyOf(d) == r[i].key {
          assert k >= 0 && ms[k].key == ms[i].key;
        }
      } else {
        forall x | x in init ensures MonthKeyOf(x) != MonthKeyOf(d) {
          var kx := FindKey(ms, MonthKeyOf(x));
          assert ms[kx].key == MonthKeyOf(x);
        }
        DatesWithKeyNone(init, MonthKeyOf(d));
      }
    }
  }

  /** Each month's set is exactly the dates carrying its key. */
  lemma {:induction false} MonthMapDates(dates: seq<string>)
    ensures HoldsDatesOf(MonthMap(dates), dates)
    decreases |dates|
  {
    if dates != [] {
      var init := dates[..|dates| - 1];
      var d := dates[|dates| - 1];
      assert dates == init + [d];
      MonthMapDates(init);
      MonthMapShape(init);
      AddDateHoldsDates(MonthMap(init), init, d);
    }
  }

  // ---------------------------------------------------------------------
  // The sorted months

  /** A reordering of a well-keyed map is well keyed, with the same keys. */
  lemma PermutedMonths(ms: seq<CalendarMonth>, months: seq<CalendarMonth>)
    requires multiset(months) == multiset(ms)
    requires WellKeyed(ms) && KeysDistinct(ms)
    ensures forall m :: m in months <==> m in ms
    ensures WellKeyed(months) && KeysDistinct(months)
    ensures forall key :: FindKey(ms, key) >= 0 ==> FindKey(months, key) >= 0
  {
    forall m ensures m in months <==> m in ms {
      assert m in months <==> m in multiset(months);
      assert m in ms <==> m in multiset(ms);
    }
    forall i | 0 <= i < |months| ensures months[i] == MonthOfKey(months[i].key).(dates := months[i].dates) {
      assert months[i] in ms;
    }
    DistinctKeysAreDistinct(ms);
    forall i, j | 0 <= i < j < |months| ensures months[i].key != months[j].key {
      assert months[i] in ms && months[j] in ms;
      var p :| 0 <= p < |ms| && ms[p] == months[i];
      var q :| 0 <= q < |ms| && ms[q] == months[j];
      if p == q {
        DistinctOfPermutation(ms, months, i, j);
      }
    }
    forall key | FindKey(ms, key) >= 0 ensures FindKey(months, key) >= 0 {
      var k := FindKey(ms, key);
      assert ms[k] in months;
    }
  }

  /** Two positions of a reordering of a sequence without repeats hold different elements. */
  lemma DistinctOfPermutation<T>(s: seq<T>, t: seq<T>, i: int, j: int)
    requires multiset(t) == multiset(s) && Distinct(s)
    requires 0 <= i < j < |t|
    ensures t[i] != t[j]
  {
    if t[i] == t[j] {
      var x := t[i];
      assert t == t[..i] + [x] + t[i + 1..j] + [x] + t[j + 1..];
      assert multiset(t)[x] >= 2;
      DistinctCount(s, x);
    }
  }

  lemma {:induction false} DistinctCount<T>(s: seq<T>, x: T)
    requires Distinct(s)
    ensures multiset(s)[x] <= 1
    decreases |s|
  {
    if s != [] {
      assert s == [s[0]] + s[1..];
      DistinctCount(s[1..], x);
      if s[0] == x {
        assert x !in s[1..];
      }
    }
  }

  /**
   * `buildCalendarMonths` yields one month per distinct key, each holding
   * exactly the dates with that key, its numbers read from the key, and
   * every date has its month.
   */
  lemma BuildMonthsPartition(sortedDates: seq<string>)
    ensures var months := BuildMonths(sortedDates);
            KeysDistinct(months) && WellKeyed(months)
            && (forall m :: m in months ==> m.dates == DatesWithKey(sortedDates, m.key))
            && (forall x :: x in sortedDates ==> FindKey(months, MonthKeyOf(x)) >= 0)
  {
    var ms := MonthMap(sortedDates);
    MonthMapShape(sortedDates);
    MonthMapDates(sortedDates);
    SortByPermutation(ms, MonthLe);
    PermutedMonths(ms, SortBy(ms, MonthLe));
    forall m | m in SortBy(ms, MonthLe) ensures m.dates == DatesWithKey(sortedDates, m.key) {
      var p :| 0 <= p < |ms| && ms[p] == m;
    }
  }

  lemma DistinctKeysAreDistinct(ms: seq<CalendarMonth>)
    requires KeysDistinct(ms)
    ensures Distinct(ms)
  {
  }

  predicate Numeric(m: CalendarMonth) {
    m.year.Some? && m.monthIndex.Some?
  }

  /** (year, month index) strictly before. */
  predicate MonthBefore(a: CalendarMonth, b: CalendarMonth)
    requires Numeric(a) && Numeric(b)
  {
    a.year.value < b.year.value || (a.year.value == b.year.value && a.monthIndex.value < b.monthIndex.value)
  }

  /** On months whose numbers are all defined the comparator is consistent. */
  lemma NumericConsistent(ms: seq<CalendarMonth>)
    requires forall m :: m in ms ==> Numeric(m)
    ensures ConsistentOn(ms, MonthLe)
  {
  }

  /** A canonical `YYYY-MM-DD` text has the key `YYYY-MM`, read as its year and month index. */
  lemma CanonicalKey(d: string)
    requires IsDateText(d)
    ensures MonthKeyOf(d) == d[..7]
    ensures MonthOfKey(d[..7]).year == Some(DigitsValue(d[..4]) as int)
    ensures MonthOfKey(d[..7]).monthIndex == Some(DigitsValue(d[5..7]) - 1)
  {
    var y, m, dd := d[..4], d[5..7], d[8..];
    DateTextIsDashed(d);
    DashedText(y, m, dd);
    NoDashInDigits(y);
    NoDashInDigits(m);
    SplitPair(y, m);
  }

  /** Canonical keys with the same numbers are the same key. */
  lemma CanonicalKeysInjective(a: string, b: string)
    requires IsDateText(a) && IsDateText(b)
    requires DigitsValue(a[..4]) == DigitsValue(b[..4]) && DigitsValue(a[5..7]) == DigitsValue(b[5..7])
    ensures a[..7] == b[..7]
  {
    DigitsOrder(a[..4], b[..4]);
    DigitsOrder(a[5..7], b[5..7]);
    assert a[..7] == a[..4] + ['-'] + a[5..7];
    assert b[..7] == b[..4] + ['-'] + b[5..7];
  }

  /**
   * For canonical date texts the months come out in strictly increasing
   * (year, month index) order; with any month whose numbers are NaN the
   * comparator is inconsistent and the order is not specified.
   */
  lemma BuildMonthsAscending(sortedDates: seq<string>)
    requires forall d :: d in sortedDates ==> IsDateText(d)
    ensures var months := BuildMonths(sortedDates);
            (forall m :: m in months ==> Numeric(m))
            && forall i, j :: 0 <= i < j < |months| ==> MonthBefore(months[i], months[j])
  {
    var ms := MonthMap(sortedDates);
    var months := SortBy(ms, MonthLe);
    BuildMonthsPartition(sortedDates);
    forall m | m in months ensures Numeric(m) {
      MonthHasDate(sortedDates, m);
    }
    forall m | m in ms ensures Numeric(m) {
      SortByMember(ms, MonthLe, m);
      MonthHasDate(sortedDates, m);
    }
    NumericConsistent(ms);
    SortBySorted(ms, MonthLe);
    forall i, j | 0 <= i < j < |months| ensures MonthBefore(months[i], months[j]) {
      MonthHasDate(sortedDates, months[i]);
      MonthHasDate(sortedDates, months[j]);
      var a :| a in sortedDates && IsDateText(a) && months[i].key == a[..7];
      var b :| b in sortedDates && IsDateText(b) && months[j].key == b[..7];
      OrderedCanonicalMonths(months[i], months[j], a, b);
    }
  }

  /** Two months of different canonical keys that the comparator puts in order are strictly ascending. */
  lemma OrderedCanonicalMonths(x: CalendarMonth, y: CalendarMonth, a: string, b: string)
    requires IsDateText(a) && IsDateText(b)
    requires x.key == a[..7] && y.key == b[..7] && x.key != y.key
    requires x == MonthOfKey(x.key).(dates := x.dates) && y == MonthOfKey(y.key).(dates := y.dates)
    requires MonthLe(x, y)
    ensures Numeric(x) && Numeric(y) && MonthBefore(x, y)
  {
    CanonicalKey(a);
    CanonicalKey(b);
    if !MonthBefore(x, y) {
      CanonicalKeysInjective(a, b);
    }
  }

  /** A month of canonical dates has the key of one of them and defined numbers. */
  lemma MonthHasDate(sortedDates: seq<string>, m: CalendarMonth)
    requires forall d :: d in sortedDates ==> IsDateText(d)
    requires m in BuildMonths(sortedDates)
    ensures Numeric(m)
    ensures exists d :: d in sortedDates && IsDateText(d) && m.key == d[..7]
  {
    var ms := MonthMap(sortedDates);
    SortByMember(ms, MonthLe, m);
    MonthMapShape(sortedDates);
    MonthMapHasDate(sortedDates, m);
    var d :| d in sortedDates && MonthKeyOf(d) == m.key;
    CanonicalKey(d);
  }

  lemma {:induction false} MonthMapHasDate(dates: seq<string>, m: CalendarMonth)
    requires m in MonthMap(dates)
    ensures m == MonthOfKey(m.key).(dates := m.dates)
    ensures exists d :: d in dates && MonthKeyOf(d) == m.key
    decreases |dates|
  {
    MonthMapShape(dates);
    var init := dates[..|dates| - 1];
    var d := dates[|dates| - 1];
    var ms := MonthMap(init);
    if m !in ms {
      assert m.key == MonthKeyOf(d);
    } else {
      MonthMapHasDate(init, m);
      var x :| x in init && MonthKeyOf(x) == m.key;
      assert x in dates;
    }
  }

  // ---------------------------------------------------------------------
  // The month grid

  /** Leading fillers, day cells and trailing fillers of a month's grid. */
  datatype Grid = Grid(leading: nat, days: nat, trailing: nat)

  /** The day numbers a Date can name. */
  predicate DayInRange(z: int) { -100000000 <= z <= 100000000 }

  /** The day of `new Date(year, monthIndex, 1)`. */
  function FirstDayOf(m: CalendarMonth): int
    requires Numeric(m)
  {
    MakeDay(MakeFullYear(m.year.value), m.monthIndex.value, 1)
  }

  /** The day of `new Date(year, monthIndex + 1, 0)`, the month's last day. */
  function LastDayOf(m: CalendarMonth): int
    requires Numeric(m)
  {
    MakeDay(MakeFullYear(m.year.value), m.monthIndex.value + 1, 0)
  }

  /** Both days are Dates rather than invalid ones, so every count of the grid is a number. */
  predicate GridDefined(m: CalendarMonth) {
    Numeric(m) && DayInRange(FirstDayOf(m)) && DayInRange(LastDayOf(m))
  }

  /** `getDate()`: the day of the month of day `z`. */
  function DayOfMonth(z: int): (r: int)
    ensures 1 <= r <= 31
  {
    DaysCivilRoundTrip(z);
    CivilFromDays(z).day
  }

  lemma DayOfMonthOfDate(e: Date)
    requires ValidDate(e)
    ensures DayOfMonth(DaysFromCivil(e)) == e.day
  {
    CivilDaysRoundTrip(e);
  }

  /** `(7 - (totalCells % 7)) % 7`. */
  function TrailingOf(totalCells: int): int {
    (7 - totalCells % 7) % 7
  }

  lemma TrailingFills(totalCells: int)
    ensures 0 <= TrailingOf(totalCells) < 7
    ensures (totalCells + TrailingOf(totalCells)) % 7 == 0
  {
  }

  /**
   * `firstDay`, `daysInMonth` and `trailing` of `renderCalendar`; a NaN
   * number or a day out of range makes the loops run zero times.
   */
  function MonthGrid(m: CalendarMonth): Grid {
    if !Numeric(m) then Grid(0, 0, 0)
    else
      var leading := if DayInRange(FirstDayOf(m)) then Weekday(FirstDayOf(m)) else 0;
      var days := if DayInRange(LastDayOf(m)) then DayOfMonth(LastDayOf(m)) else 0;
      var trailing := if GridDefined(m) then TrailingOf(leading + days) else 0;
      Grid(leading, days, trailing)
  }

  /**
   * The grid fills whole weeks: fewer than a week of fillers at either end,
   * and, when both days are defined, a whole number of week rows.
   */
  lemma GridFillsWeeks(m: CalendarMonth)
    ensures var g := MonthGrid(m);
            g.leading < 7 && g.trailing < 7
            && (GridDefined(m) ==> (g.leading + g.days + g.trailing) % 7 == 0)
            && (!GridDefined(m) ==> g.trailing == 0)
  {
    if Numeric(m) {
      var g := MonthGrid(m);
      TrailingFills(g.leading + g.days);
    }
  }

  /** A defined month has as many day cells as the calendar month has days, starting on its weekday. */
  lemma GridOfMonth(m: CalendarMonth)
    requires GridDefined(m)
    ensures var year := MakeFullYear(m.year.value);
            var mi := m.monthIndex.value;
            var n := DaysInMonth(year + mi / 12, mi % 12 + 1);
            MonthGrid(m) == Grid(Weekday(FirstDayOf(m)), n, TrailingOf(Weekday(FirstDayOf(m)) + n))
  {
    MonthDayCount(m);
  }

  lemma MonthDayCount(m: CalendarMonth)
    requires Numeric(m)
    ensures DayOfMonth(LastDayOf(m))
            == DaysInMonth(MakeFullYear(m.year.value) + m.monthIndex.value / 12, m.monthIndex.value % 12 + 1)
  {
    LastDayCount(MakeFullYear(m.year.value), m.monthIndex.value, LastDayOf(m));
  }

  /** `new Date(year, mi + 1, 0).getDate()` is the number of days of month `mi`. */
  lemma LastDayCount(year: int, mi: int, z: int)
    requires z == MakeDay(year, mi + 1, 0)
    ensures DayOfMonth(z) == DaysInMonth(year + mi / 12, mi % 12 + 1)
  {
    LastDayNumber(year, mi);
    DayOfMonthOfDate(Date(year + mi / 12, mi % 12 + 1, DaysInMonth(year + mi / 12, mi % 12 + 1)));
  }

  /** `String(n).padStart(w, '0')` for an integer. */
  function PadInt(n: int, w: nat): string {
    PadStart(IntToString(n), w)
  }

  /** The date text of day `day`'s cell: `${year}-${monthNumber}-${dayNumber}`. */
  function CellDate(m: CalendarMonth, day: int): string
    requires Numeric(m)
  {
    IntToString(m.year.value) + "-" + PadInt(m.monthIndex.value + 1, 2) + "-" + PadInt(day, 2)
  }

  lemma {:induction false} DigitsValueBound(s: string)
    requires AllDigits(s)
    ensures DigitsValue(s) < Power10(|s|)
    decreases |s|
  {
    if s != [] {
      DigitsValueBound(s[..|s| - 1]);
    }
  }

  /** A four-digit year from 1000 on prints as its four digits. */
  lemma YearPrints(y: int)
    requires 1000 <= y <= 9999
    ensures IntToString(y) == Pad(y, 4)
  {
    NatToStringDigits(y);
    DigitsValueBound(NatToString(y));
    assert Power10(3) == 1000;
    if |NatToString(y)| <= 3 {
      Power10Monotone(|NatToString(y)|, 3);
    }
  }

  lemma {:induction false} Power10Monotone(a: nat, b: nat)
    requires a <= b
    ensures Power10(a) <= Power10(b)
    decreases b
  {
    if a < b {
      Power10Monotone(a, b - 1);
    }
  }

  /** The month record of a four-digit date's key carries that date's year and month index. */
  lemma MonthOfDateText(d: Date)
    requires ValidDate(d) && 0 <= d.year <= 9999
    ensures var m := MonthOfKey(MonthKeyOf(DateText(d)));
            m.year == Some(d.year) && m.monthIndex == Some(d.month - 1)
  {
    DateTextParts(d);
    CanonicalKey(DateText(d));
    PadDigits(d.year, 4);
    PadDigits(d.month, 2);
  }

  /** The grid of a four-digit year's month is defined and has that month's days. */
  lemma GridOfDate(d: Date, m: CalendarMonth)
    requires ValidDate(d) && 0 <= d.year <= 9999
    requires m.year == Some(d.year) && m.monthIndex == Some(d.month - 1)
    ensures GridDefined(m)
    ensures MonthGrid(m).days == DaysInMonth(MakeFullYear(d.year), d.month)
  {
    MonthInRange(MakeFullYear(d.year), d.month, FirstDayOf(m), LastDayOf(m));
  }

  /** The first and last days of a month of years 0..9999 are Dates, and the last one's date is the month's length. */
  lemma MonthInRange(year: int, month: int, first: int, last: int)
    requires 0 <= year <= 9999 && 1 <= month <= 12
    requires first == MakeDay(year, month - 1, 1) && last == MakeDay(year, month, 0)
    ensures DayInRange(first) && DayInRange(last)
    ensures DayOfMonth(last) == DaysInMonth(year, month)
  {
    FirstInRange(year, month, first);
    LastInRange(year, month, last);
  }

  lemma FirstInRange(year: int, month: int, first: int)
    requires 0 <= year <= 9999 && 1 <= month <= 12
    requires first == MakeDay(year, month - 1, 1)
    ensures DayInRange(first)
  {
    assert (month - 1) / 12 == 0 && (month - 1) % 12 == month - 1;
    DaysBound(Date(year, month, 1));
  }

  lemma LastInRange(year: int, month: int, last: int)
    requires 0 <= year <= 9999 && 1 <= month <= 12
    requires last == MakeDay(year, month, 0)
    ensures DayInRange(last) && DayOfMonth(last) == DaysInMonth(year, month)
  {
    var e := Date(year, month, DaysInMonth(year, month));
    LastDayInYear(year, month, last);
    DaysBound(e);
    DayOfMonthOfDate(e);
  }

  /** The cell text of a day of a four-digit year from 1000 on is the canonical text of that date. */
  lemma CellOfDate(d: Date, m: CalendarMonth)
    requires ValidDate(d) && 1000 <= d.year <= 9999
    requires m.year == Some(d.year) && m.monthIndex == Some(d.month - 1)
    ensures CellDate(m, d.day) == DateText(d)
  {
    DateTextParts(d);
    YearPrints(d.year);
    assert PadInt(d.month, 2) == Pad(d.month, 2);
    assert PadInt(d.day, 2) == Pad(d.day, 2);
  }

  /**
   * A date of years 1000..9999 printed as `YYYY-MM-DD` is the text of one of
   * its month's day cells, so the cell is enabled; it lies within the grid's days.
   */
  lemma AvailableDateHasCell(d: Date)
    requires ValidDate(d) && 1000 <= d.year <= 9999
    ensures var m := MonthOfKey(MonthKeyOf(DateText(d)));
            Numeric(m) && 1 <= d.day <= MonthGrid(m).days && CellDate(m, d.day) == DateText(d)
  {
    var m := MonthOfKey(MonthKeyOf(DateText(d)));
    MonthOfDateText(d);
    GridOfDate(d, m);
    CellOfDate(d, m);
  }
}
