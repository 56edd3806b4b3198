/**
 * The page's date navigation (public/app.js): lookups over the available
 * dates in sorted order.  Every function takes the sorted sequence
 * `Array.from(availableDates).sort()`, whose members are exactly those of
 * the set, so `availableDates.has(x)` is `x in s`.
 */
module Navigation {
  import opened Options
  import opened Strings
  import opened Sorting
  import opened Civil
  import opened IsoTime
  import opened Dates

  /** `Array.from(availableDates).sort()`: the default order compares strings with `<`. */
  function SortedDates(available: seq<string>): seq<string> {
    SortBy(available, LexLe)
  }

  /** Strictly increasing: the sorted form of a set of distinct texts. */
  predicate Ascending(s: seq<string>) {
    forall i, j :: 0 <= i < j < |s| ==> LexLess(s[i], s[j])
  }

  lemma LexLeIsTotalPreorder()
    ensures TotalPreorder(LexLe)
  {
    forall a, b ensures LexLe(a, b) || LexLe(b, a) {
      LexLeTotal(a, b);
    }
    forall a, b, c | LexLe(a, b) && LexLe(b, c) ensures LexLe(a, c) {
      LexLeTransitive(a, b, c);
    }
  }

  /** Sorting the set gives its members, each once, in strictly increasing order. */
  lemma SortedDatesAscending(available: seq<string>)
    requires Distinct(available)
    ensures Ascending(SortedDates(available))
    ensures |SortedDates(available)| == |available|
    ensures forall x :: x in SortedDates(available) <==> x in available
  {
    var s := SortedDates(available);
    LexLeIsTotalPreorder();
    ConsistentEverywhere(available, LexLe);
    SortBySorted(available, LexLe);
    SortByDistinct(available, LexLe);
    SortByPermutation(available, LexLe);
    forall x ensures x in s <==> x in available {
      SortByMember(available, LexLe, x);
    }
  }

  lemma AscendingPrefix(s: seq<string>, n: nat)
    requires Ascending(s) && n <= |s|
    ensures Ascending(s[..n]) && Ascending(s[n..])
  {
  }

  lemma AscendingFacts(s: seq<string>, i: nat, x: string)
    requires Ascending(s) && i < |s| && x in s
    ensures i == |s| - 1 ==> LexLe(x, s[i])
    ensures i == 0 ==> LexLe(s[i], x)
  {
  }

  // ---------------------------------------------------------------------
  // findDateOnOrBefore / findDateOnOrAfter

  /** The last element of `s` that is `<= d`, scanning from the end. */
  function LastAtMost(s: seq<string>, d: string): Option<string>
    decreases |s|
  {
    if s == [] then None
    else if LexLe(s[|s| - 1], d) then Some(s[|s| - 1])
    else LastAtMost(s[..|s| - 1], d)
  }

  /** The first element of `s` that is `>= d`, scanning from the start. */
  function FirstAtLeast(s: seq<string>, d: string): Option<string>
    decreases |s|
  {
    if s == [] then None
    else if LexLe(d, s[0]) then Some(s[0])
    else FirstAtLeast(s[1..], d)
  }

  /** `findDateOnOrBefore`: `null` for an empty argument. */
  function OnOrBefore(s: seq<string>, d: string): Option<string> {
    if d == "" then None else LastAtMost(s, d)
  }

  /** `findDateOnOrAfter`: `null` for an empty argument. */
  function OnOrAfter(s: seq<string>, d: string): Option<string> {
    if d == "" then None else FirstAtLeast(s, d)
  }

  lemma {:induction false} LastAtMostIsGreatest(s: seq<string>, d: string)
    requires Ascending(s)
    ensures var r := LastAtMost(s, d);
            (r.Some? ==> r.value in s && LexLe(r.value, d)
                         && forall x :: x in s && LexLe(x, d) ==> LexLe(x, r.value))
            && (r.None? <==> forall x :: x in s ==> !LexLe(x, d))
    decreases |s|
  {
    if s != [] {
      var last := s[|s| - 1];
      var init := s[..|s| - 1];
      assert s == init + [last];
      if LexLe(last, d) {
        forall x | x in s ensures LexLe(x, last) {
          AscendingFacts(s, |s| - 1, x);
        }
      } else {
        AscendingPrefix(s, |s| - 1);
        LastAtMostIsGreatest(init, d);
      }
    }
  }

  lemma {:induction false} FirstAtLeastIsLeast(s: seq<string>, d: string)
    requires Ascending(s)
    ensures var r := FirstAtLeast(s, d);
            (r.Some? ==> r.value in s && LexLe(d, r.value)
                         && forall x :: x in s && LexLe(d, x) ==> LexLe(r.value, x))
            && (r.None? <==> forall x :: x in s ==> !LexLe(d, x))
    decreases |s|
  {
    if s != [] {
      assert s == [s[0]] + s[1..];
      if LexLe(d, s[0]) {
        forall x | x in s ensures LexLe(s[0], x) {
          AscendingFacts(s, 0, x);
        }
      } else {
        AscendingPrefix(s, 1);
        FirstAtLeastIsLeast(s[1..], d);
      }
    }
  }

  /** `findDateOnOrBefore(d)` is the greatest available date `<= d`; `null` when there is none or `d` is empty. */
  lemma OnOrBeforeIsGreatest(s: seq<string>, d: string)
    requires Ascending(s)
    ensures var r := OnOrBefore(s, d);
            (r.Some? ==> r.value in s && LexLe(r.value, d)
                         && forall x :: x in s && LexLe(x, d) ==> LexLe(x, r.value))
            && (r.None? <==> d == "" || forall x :: x in s ==> !LexLe(x, d))
  {
    LastAtMostIsGreatest(s, d);
  }

  /** `findDateOnOrAfter(d)` is the least available date `>= d`; `null` when there is none or `d` is empty. */
  lemma OnOrAfterIsLeast(s: seq<string>, d: string)
    requires Ascending(s)
    ensures var r := OnOrAfter(s, d);
            (r.Some? ==> r.value in s && LexLe(d, r.value)
                         && forall x :: x in s && LexLe(d, x) ==> LexLe(r.value, x))
            && (r.None? <==> d == "" || forall x :: x in s ==> !LexLe(d, x))
  {
    FirstAtLeastIsLeast(s, d);
  }

  // ---------------------------------------------------------------------
  // The base date and the adjacent dates

  /** `sorted.indexOf(x)`: the first position of `x`, or -1. */
  function IndexOf(s: seq<string>, x: string): (i: int)
    ensures -1 <= i < |s|
    ensures i >= 0 ==> s[i] == x && x !in s[..i]
    ensures i == -1 <==> x !in s
    decreases |s|
  {
    if s == [] then -1
    else if s[0] == x then 0
    else
      var j := IndexOf(s[1..], x);
      if j < 0 then -1 else j + 1
  }

  /** `getCurrentBaseDate`: the selected date when it is available, else the earliest. */
  function BaseDate(s: seq<string>, selected: string): Option<string> {
    if |s| == 0 then None
    else if selected != "" && selected in s then Some(selected)
    else Some(s[0])
  }

  lemma BaseDateFacts(s: seq<string>, selected: string)
    requires Ascending(s)
    ensures BaseDate(s, selected).None? <==> s == []
    ensures BaseDate(s, selected).Some? ==> BaseDate(s, selected).value in s
    ensures selected != "" && selected in s ==> BaseDate(s, selected) == Some(selected)
    ensures s != [] && (selected == "" || selected !in s) ==>
              forall x :: x in s ==> LexLe(BaseDate(s, selected).value, x)
  {
    if s != [] && (selected == "" || selected !in s) {
      forall x | x in s ensures LexLe(s[0], x) {
        AscendingFacts(s, 0, x);
      }
    }
  }

  /** The date after `base` in sorted order. */
  function NextAdjacent(s: seq<string>, base: string): Option<string> {
    var i := IndexOf(s, base);
    if i >= 0 && i < |s| - 1 then Some(s[i + 1]) else None
  }

  /** The date before `base` in sorted order. */
  function PrevAdjacent(s: seq<string>, base: string): Option<string> {
    var i := IndexOf(s, base);
    if i > 0 then Some(s[i - 1]) else None
  }

  /** The next date is the least available date after `base`; there is none exactly when `base` is last. */
  lemma NextAdjacentIsSuccessor(s: seq<string>, base: string)
    requires Ascending(s) && base in s
    ensures var r := NextAdjacent(s, base);
            (r.None? <==> base == s[|s| - 1])
            && (r.Some? ==> r.value in s && LexLess(base, r.value)
                            && forall x :: x in s && LexLess(base, x) ==> LexLe(r.value, x))
  {
    var i := IndexOf(s, base);
    if i < |s| - 1 {
      forall x | x in s && LexLess(base, x) ensures LexLe(s[i + 1], x) {
        var k :| 0 <= k < |s| && s[k] == x;
        if k <= i {
          if k < i {
            LexLessTransitive(x, base, x);
          }
          LexLessIrreflexive(x);
        }
      }
      if base == s[|s| - 1] {
        LexLessIrreflexive(base);
      }
    }
  }

  /** The previous date is the greatest available date before `base`; there is none exactly when `base` is first. */
  lemma PrevAdjacentIsPredecessor(s: seq<string>, base: string)
    requires Ascending(s) && base in s
    ensures var r := PrevAdjacent(s, base);
            (r.None? <==> base == s[0])
            && (r.Some? ==> r.value in s && LexLess(r.value, base)
                            && forall x :: x in s && LexLess(x, base) ==> LexLe(x, r.value))
  {
    var i := IndexOf(s, base);
    if i > 0 {
      forall x | x in s && LexLess(x, base) ensures LexLe(x, s[i - 1]) {
        var k :| 0 <= k < |s| && s[k] == x;
        if k >= i {
          if k > i {
            LexLessTransitive(x, base, x);
          }
          LexLessIrreflexive(x);
        }
      }
      if base == s[0] {
        LexLessIrreflexive(base);
      }
    }
  }

  /** `getPrevDayTarget`. */
  function PrevDayTarget(s: seq<string>, selected: string): Option<string> {
    var base := BaseDate(s, selected);
    if base.None? || base.value == "" then None else PrevAdjacent(s, base.value)
  }

  /** `getNextDayTarget`. */
  function NextDayTarget(s: seq<string>, selected: string): Option<string> {
    var base := BaseDate(s, selected);
    if base.None? || base.value == "" then None else NextAdjacent(s, base.value)
  }

  /** The day targets are the neighbours of the base date; none at the ends or for an empty base. */
  lemma DayTargetsAreNeighbours(s: seq<string>, selected: string)
    requires Ascending(s)
    ensures var base := BaseDate(s, selected);
            var prev := PrevDayTarget(s, selected);
            var next := NextDayTarget(s, selected);
            (next.Some? <==> base.Some? && base.value != "" && base.value != s[|s| - 1])
            && (prev.Some? <==> base.Some? && base.value != "" && base.value != s[0])
            && (next.Some? ==> next == NextAdjacent(s, base.value) && LexLess(base.value, next.value))
            && (prev.Some? ==> prev == PrevAdjacent(s, base.value) && LexLess(prev.value, base.value))
  {
    BaseDateFacts(s, selected);
    var base := BaseDate(s, selected);
    if base.Some? {
      NextAdjacentIsSuccessor(s, base.value);
      PrevAdjacentIsPredecessor(s, base.value);
    }
  }

  /** In an ascending sequence a date's first position is its only one. */
  lemma IndexOfAscending(s: seq<string>, k: nat)
    requires Ascending(s) && k < |s|
    ensures IndexOf(s, s[k]) == k
  {
    var j := IndexOf(s, s[k]);
    if j < k {
      assert LexLess(s[j], s[k]);
      LexLessIrreflexive(s[k]);
    }
  }

  /** A step to the next day and back returns to the base date. */
  lemma NextThenPrevDay(s: seq<string>, selected: string)
    requires Ascending(s)
    ensures var next := NextDayTarget(s, selected);
            next.Some? && next.value != "" ==> PrevDayTarget(s, next.value) == BaseDate(s, selected)
  {
    var next := NextDayTarget(s, selected);
    if next.Some? && next.value != "" {
      var base := BaseDate(s, selected).value;
      var i := IndexOf(s, base);
      assert next.value == s[i + 1];
      IndexOfAscending(s, i + 1);
      IndexOfAscending(s, i);
    }
  }

  /** A step to the previous day and back returns to the base date. */
  lemma PrevThenNextDay(s: seq<string>, selected: string)
    requires Ascending(s)
    ensures var prev := PrevDayTarget(s, selected);
            prev.Some? && prev.value != "" ==> NextDayTarget(s, prev.value) == BaseDate(s, selected)
  {
    var prev := PrevDayTarget(s, selected);
    if prev.Some? && prev.value != "" {
      var base := BaseDate(s, selected).value;
      var i := IndexOf(s, base);
      assert prev.value == s[i - 1];
      IndexOfAscending(s, i - 1);
      IndexOfAscending(s, i);
    }
  }

  // ---------------------------------------------------------------------
  // Week targets

  /** The week candidate: the first date on or after `base + 7 days`, when that day prints. */
  function NextWeekCandidate(s: seq<string>, base: string): Option<string> {
    var target := AddDays(base, 7);
    if target.None? || target.value == "" then None else OnOrAfter(s, target.value)
  }

  /** The week candidate: the last date on or before `base - 7 days`, when that day prints. */
  function PrevWeekCandidate(s: seq<string>, base: string): Option<string> {
    var target := AddDays(base, -7);
    if target.None? || target.value == "" then None else OnOrBefore(s, target.value)
  }

  /** `getNextWeekTarget` as written: a candidate is taken whenever it is non-empty and not the base. */
  function NextWeekTargetAsWritten(s: seq<string>, selected: string): Option<string> {
    var base := BaseDate(s, selected);
    if base.None? || base.value == "" then None
    else
      var candidate := NextWeekCandidate(s, base.value);
      if candidate.Some? && candidate.value != "" && candidate.value != base.value then candidate
      else NextAdjacent(s, base.value)
  }

  /** `getPrevWeekTarget` as written. */
  function PrevWeekTargetAsWritten(s: seq<string>, selected: string): Option<string> {
    var base := BaseDate(s, selected);
    if base.None? || base.value == "" then None
    else
      var candidate := PrevWeekCandidate(s, base.value);
      if candidate.Some? && candidate.value != "" && candidate.value != base.value then candidate
      else PrevAdjacent(s, base.value)
  }

  /** `getNextWeekTarget` taking the candidate only when it lies after the base. */
  function NextWeekTarget(s: seq<string>, selected: string): Option<string> {
    var base := BaseDate(s, selected);
    if base.None? || base.value == "" then None
    else
      var candidate := NextWeekCandidate(s, base.value);
      if candidate.Some? && candidate.value != "" && LexLess(base.value, candidate.value) then candidate
      else NextAdjacent(s, base.value)
  }

  /** `getPrevWeekTarget` taking the candidate only when it lies before the base. */
  function PrevWeekTarget(s: seq<string>, selected: string): Option<string> {
    var base := BaseDate(s, selected);
    if base.None? || base.value == "" then None
    else
      var candidate := PrevWeekCandidate(s, base.value);
      if candidate.Some? && candidate.value != "" && LexLess(candidate.value, base.value) then candidate
      else PrevAdjacent(s, base.value)
  }

  lemma CandidatesAreAvailable(s: seq<string>, base: string)
    requires Ascending(s)
    ensures NextWeekCandidate(s, base).Some? ==> NextWeekCandidate(s, base).value in s
    ensures PrevWeekCandidate(s, base).Some? ==> PrevWeekCandidate(s, base).value in s
  {
    var t := AddDays(base, 7);
    if t.Some? {
      OnOrAfterIsLeast(s, t.value);
    }
    var u := AddDays(base, -7);
    if u.Some? {
      OnOrBeforeIsGreatest(s, u.value);
    }
  }

  /**
   * The next-week target always moves forward: it exists exactly when the
   * base is non-empty and not the last date, and it is a later available date.
   */
  lemma NextWeekTargetMovesForward(s: seq<string>, selected: string)
    requires Ascending(s)
    ensures var base := BaseDate(s, selected);
            var r := NextWeekTarget(s, selected);
            (r.Some? <==> base.Some? && base.value != "" && base.value != s[|s| - 1])
            && (r.Some? ==> r.value in s && LexLess(base.value, r.value))
  {
    BaseDateFacts(s, selected);
    var base := BaseDate(s, selected);
    if base.Some? {
      NextAdjacentIsSuccessor(s, base.value);
      CandidatesAreAvailable(s, base.value);
      var c := NextWeekCandidate(s, base.value);
      if c.Some? && c.value != "" && LexLess(base.value, c.value) && base.value == s[|s| - 1] {
        AscendingFacts(s, |s| - 1, c.value);
        LexLessTrichotomy(base.value, c.value);
      }
    }
  }

  /**
   * The previous-week target always moves back: it exists exactly when the
   * base is non-empty and not the first date, and it is an earlier available date.
   */
  lemma PrevWeekTargetMovesBack(s: seq<string>, selected: string)
    requires Ascending(s)
    ensures var base := BaseDate(s, selected);
            var r := PrevWeekTarget(s, selected);
            (r.Some? <==> base.Some? && base.value != "" && base.value != s[0])
            && (r.Some? ==> r.value in s && LexLess(r.value, base.value))
  {
    BaseDateFacts(s, selected);
    var base := BaseDate(s, selected);
    if base.Some? {
      PrevAdjacentIsPredecessor(s, base.value);
      CandidatesAreAvailable(s, base.value);
      var c := PrevWeekCandidate(s, base.value);
      if c.Some? && c.value != "" && LexLess(c.value, base.value) && base.value == s[0] {
        AscendingFacts(s, 0, c.value);
        LexLessTrichotomy(c.value, base.value);
      }
    }
  }

  /**
   * For an ordinary base date (a four-digit year from 100 on, a week later
   * still before year 10000) the target as written is the corrected one.
   */
  lemma NextWeekTargetsAgree(s: seq<string>, selected: string, d: Date, e: Date)
    requires Ascending(s)
    requires ValidDate(d) && 100 <= d.year <= 9999
    requires ValidDate(e) && 0 <= e.year <= 9999 && DaysFromCivil(e) == DaysFromCivil(d) + 7
    requires BaseDate(s, selected) == Some(DateText(d))
    ensures NextWeekTargetAsWritten(s, selected) == NextWeekTarget(s, selected)
  {
    AddDaysDirection(d, 7, e);
    NextTargetsAgreeAt(s, selected, DateText(d), DateText(e));
  }

  /** When a week on prints as a later text, the candidate is later too, so both targets take it. */
  lemma NextTargetsAgreeAt(s: seq<string>, selected: string, base: string, t: string)
    requires Ascending(s) && BaseDate(s, selected) == Some(base)
    requires AddDays(base, 7) == Some(t) && t != "" && LexLess(base, t)
    ensures NextWeekTargetAsWritten(s, selected) == NextWeekTarget(s, selected)
  {
    OnOrAfterIsLeast(s, t);
    var c := OnOrAfter(s, t);
    assert NextWeekCandidate(s, base) == c;
    if c.Some? {
      if c.value != t {
        LexLessTransitive(base, t, c.value);
      }
      LexLessIrreflexive(base);
    }
  }

  /** For an ordinary base date the previous-week target as written is the corrected one. */
  lemma PrevWeekTargetsAgree(s: seq<string>, selected: string, d: Date, e: Date)
    requires Ascending(s)
    requires ValidDate(d) && 100 <= d.year <= 9999
    requires ValidDate(e) && 0 <= e.year <= 9999 && DaysFromCivil(e) == DaysFromCivil(d) - 7
    requires BaseDate(s, selected) == Some(DateText(d))
    ensures PrevWeekTargetAsWritten(s, selected) == PrevWeekTarget(s, selected)
  {
    AddDaysDirection(d, -7, e);
    PrevTargetsAgreeAt(s, selected, DateText(d), DateText(e));
  }

  /** When a week back prints as an earlier text, the candidate is earlier too, so both targets take it. */
  lemma PrevTargetsAgreeAt(s: seq<string>, selected: string, base: string, t: string)
    requires Ascending(s) && BaseDate(s, selected) == Some(base)
    requires AddDays(base, -7) == Some(t) && t != "" && LexLess(t, base)
    ensures PrevWeekTargetAsWritten(s, selected) == PrevWeekTarget(s, selected)
  {
    OnOrBeforeIsGreatest(s, t);
    var c := OnOrBefore(s, t);
    assert PrevWeekCandidate(s, base) == c;
    if c.Some? {
      if c.value != t {
        LexLessTransitive(c.value, t, base);
      }
      LexLessIrreflexive(base);
    }
  }

  lemma NextWeekCandidateAt9999()
    ensures NextWeekCandidate(["2024-01-01", "9999-12-28"], "9999-12-28") == Some("2024-01-01")
  {
    AddDaysPastYear9999();
    assert LexLe("+010000-01", "2024-01-01");
  }

  /**
   * As written, the next-week target from 9999-12-28 is an earlier date:
   * a week on is year 10000, whose key sorts before every four-digit year.
   */
  lemma NextWeekAsWrittenGoesBack()
    ensures var s := ["2024-01-01", "9999-12-28"];
            Ascending(s)
            && NextWeekTargetAsWritten(s, "9999-12-28") == Some("2024-01-01")
            && LexLess("2024-01-01", "9999-12-28")
            && NextWeekTarget(s, "9999-12-28") == None
  {
    NextWeekCandidateAt9999();
    assert LexLess("2024-01-01", "9999-12-28");
    NextTargetsOfLast("2024-01-01", "9999-12-28");
  }

  /** Of two dates, from the second: an earlier candidate is taken as written and refused by the corrected target. */
  lemma NextTargetsOfLast(c: string, base: string)
    requires c != "" && LexLess(c, base) && NextWeekCandidate([c, base], base) == Some(c)
    ensures Ascending([c, base])
    ensures NextWeekTargetAsWritten([c, base], base) == Some(c)
    ensures NextWeekTarget([c, base], base) == None
  {
    var s := [c, base];
    LexLessIrreflexive(base);
    LexLessTrichotomy(c, base);
    assert BaseDate(s, base) == Some(base);
    assert IndexOf(s, base) == 1;
  }

  lemma PrevWeekCandidateAt0050()
    ensures PrevWeekCandidate(["0050-01-05", "1000-01-01"], "0050-01-05") == Some("1000-01-01")
  {
    AddDaysTwoDigitYear();
    assert LexLess("1000-01-01", "1949-12-29");
  }

  /**
   * As written, the previous-week target from 0050-01-05 is a later date:
   * the year 50 is read as 1950, and a week before that lies after 1000-01-01.
   */
  lemma PrevWeekAsWrittenGoesForward()
    ensures var s := ["0050-01-05", "1000-01-01"];
            Ascending(s)
            && PrevWeekTargetAsWritten(s, "0050-01-05") == Some("1000-01-01")
            && LexLess("0050-01-05", "1000-01-01")
            && PrevWeekTarget(s, "0050-01-05") == None
  {
    PrevWeekCandidateAt0050();
    assert LexLess("0050-01-05", "1000-01-01");
    PrevTargetsOfFirst("0050-01-05", "1000-01-01");
  }

  /** Of two dates, from the first: a later candidate is taken as written and refused by the corrected target. */
  lemma PrevTargetsOfFirst(base: string, c: string)
    requires base != "" && LexLess(base, c) && PrevWeekCandidate([base, c], base) == Some(c)
    ensures Ascending([base, c])
    ensures PrevWeekTargetAsWritten([base, c], base) == Some(c)
    ensures PrevWeekTarget([base, c], base) == None
  {
    var s := [base, c];
    LexLessIrreflexive(base);
    LexLessTrichotomy(base, c);
    assert c != "" && c != base;
    assert BaseDate(s, base) == Some(base);
    assert IndexOf(s, base) == 0;
    assert PrevAdjacent(s, base) == None;
  }

  // ---------------------------------------------------------------------
  // Today

  /** `getTodayTarget` for the page's notion of today. */
  function TodayTarget(s: seq<string>, today: string): Option<string> {
    if |s| == 0 then None
    else if today in s then Some(today)
    else
      var after := OnOrAfter(s, today);
      if after.Some? && after.value != "" then after else OnOrBefore(s, today)
  }

  /**
   * The today target: `null` exactly when there are no dates (or today is
   * empty and not available); today itself when available; else the first
   * later date; else the last earlier one.
   */
  lemma TodayTargetMeaning(s: seq<string>, today: string)
    requires Ascending(s)
    ensures var r := TodayTarget(s, today);
            (r.None? <==> s == [] || (today == "" && today !in s))
            && (r.Some? ==> r.value in s)
            && (today in s ==> r == Some(today))
            && (today !in s && today != "" && (exists x :: x in s && LexLess(today, x)) ==>
                  LexLess(today, r.value) && forall x :: x in s && LexLess(today, x) ==> LexLe(r.value, x))
            && (today !in s && today != "" && (forall x :: x in s ==> !LexLess(today, x)) && s != [] ==>
                  LexLess(r.value, today) && forall x :: x in s && LexLess(x, today) ==> LexLe(x, r.value))
  {
    OnOrAfterIsLeast(s, today);
    OnOrBeforeIsGreatest(s, today);
    var after := OnOrAfter(s, today);
    if s != [] && today !in s && today != "" {
      if after.Some? {
      } else {
        assert s[0] in s;
        LexLeTotal(today, s[0]);
      }
    }
  }
}
