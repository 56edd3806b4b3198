/**
 * The page's state (public/app.js): the set of available dates, the
 * selected date, the index of the month the calendar shows and the months
 * themselves, updated by `renderGroups`, `setSelectedDate`, the calendar's
 * month buttons and the day, week and today jumps.  The DOM the same
 * handlers rebuild is not modelled.
 */
module Page {
  import opened Options
  import opened Strings
  import opened Sorting
  import opened IsoTime
  import opened Dates
  import opened Navigation
  import opened Calendar

  /** The members of `Set` after adding `xs` in order: first occurrences, in insertion order. */
  function Dedup(xs: seq<string>): seq<string>
    decreases |xs|
  {
    if xs == [] then []
    else
      var d := Dedup(xs[..|xs| - 1]);
      var x := xs[|xs| - 1];
      if x in d then d else d + [x]
  }

  /** The set holds each added value once, and exactly the values added. */
  lemma {:induction false} DedupFacts(xs: seq<string>)
    ensures Distinct(Dedup(xs))
    ensures forall x :: x in Dedup(xs) <==> x in xs
    decreases |xs|
  {
    if xs != [] {
      var init := xs[..|xs| - 1];
      assert xs == init + [xs[|xs| - 1]];
      DedupFacts(init);
    }
  }

  /** `Math.min(Math.max(i, 0), n - 1)`. */
  function Clamp(i: int, n: int): int
    requires n > 0
  {
    if i < 0 then 0 else if i > n - 1 then n - 1 else i
  }

  /** The clamp lands in range and leaves an index in range where it is. */
  lemma ClampInRange(i: int, n: int)
    requires n > 0
    ensures 0 <= Clamp(i, n) < n
    ensures 0 <= i < n ==> Clamp(i, n) == i
    ensures i < 0 ==> Clamp(i, n) == 0
    ensures i >= n ==> Clamp(i, n) == n - 1
  {
  }

  /** The index after `renderCalendar(requested)`: the current one stays when there are no months. */
  function ShownIndex(months: seq<CalendarMonth>, current: int, requested: int): int {
    if |months| == 0 then current else Clamp(requested, |months|)
  }

  /** The index `setSelectedDate(value)` moves to before rendering: the month keyed `value.slice(0, 7)`, if any. */
  function MonthIndexFor(months: seq<CalendarMonth>, monthIndex: int, value: string): int {
    if value == "" then monthIndex
    else
      var k := FindKey(months, Prefix(value, 7));
      if k >= 0 then k else monthIndex
  }

  /** The month index after `setSelectedDate(value)`. */
  function SelectIndex(months: seq<CalendarMonth>, monthIndex: int, value: string): int {
    var moved := MonthIndexFor(months, monthIndex, value);
    ShownIndex(months, moved, moved)
  }

  /**
   * Selecting a value keeps the index in range when there are months, and
   * leaves it alone when the value names no month.
   */
  lemma SelectIndexInRange(months: seq<CalendarMonth>, monthIndex: int, value: string)
    ensures |months| > 0 ==> 0 <= SelectIndex(months, monthIndex, value) < |months|
    ensures 0 <= monthIndex < |months| && (value == "" || FindKey(months, Prefix(value, 7)) < 0) ==>
              SelectIndex(months, monthIndex, value) == monthIndex
  {
    if |months| > 0 {
      ClampInRange(MonthIndexFor(months, monthIndex, value), |months|);
    }
  }

  /**
   * Selecting an available `YYYY-MM-DD` date shows the month that holds it:
   * the month keyed by the date's first seven characters.
   */
  lemma SelectShowsDate(available: seq<string>, monthIndex: int, value: string)
    requires Distinct(available) && value in available && IsDateText(value)
    ensures var months := BuildMonths(SortedDates(available));
            var k := SelectIndex(months, monthIndex, value);
            0 <= k < |months| && months[k].key == value[..7] && value in months[k].dates
  {
    var sorted := SortedDates(available);
    var months := BuildMonths(sorted);
    SortByMember(available, LexLe, value);
    BuildMonthsPartition(sorted);
    CanonicalKey(value);
    var k := FindKey(months, MonthKeyOf(value));
    assert Prefix(value, 7) == value[..7] == MonthKeyOf(value);
    ClampInRange(k, |months|);
    assert months[k] in months;
    assert value in DatesWithKey(sorted, months[k].key);
  }

  /** The date `renderGroups` selects: the kept selection when available, else the latest date. */
  function DefaultSelection(sorted: seq<string>, selected: string): string
    requires |sorted| > 0
  {
    if selected == "" || selected !in sorted then sorted[|sorted| - 1] else selected
  }

  /** The default selection is available; it keeps an available selection and otherwise is the greatest date. */
  lemma DefaultSelectionMeaning(sorted: seq<string>, selected: string)
    requires Ascending(sorted) && |sorted| > 0
    ensures DefaultSelection(sorted, selected) in sorted
    ensures selected != "" && selected in sorted ==> DefaultSelection(sorted, selected) == selected
    ensures selected == "" || selected !in sorted ==>
              forall x :: x in sorted ==> LexLe(x, DefaultSelection(sorted, selected))
  {
    if selected == "" || selected !in sorted {
      forall x | x in sorted ensures LexLe(x, sorted[|sorted| - 1]) {
        AscendingFacts(sorted, |sorted| - 1, x);
      }
    }
  }

  class PageState {
    /** `availableDates`, in the set's insertion order. */
    var availableDates: seq<string>
    var selectedDate: string
    var currentMonthIndex: int
    var calendarMonths: seq<CalendarMonth>

    /** The set has no repeats and the months are built from it. */
    ghost predicate MonthsBuilt()
      reads this
    {
      Distinct(availableDates) && calendarMonths == BuildMonths(SortedDates(availableDates))
    }

    /** Moreover the index of the shown month is in range. */
    ghost predicate Valid()
      reads this
    {
      MonthsBuilt() && (|calendarMonths| > 0 ==> 0 <= currentMonthIndex < |calendarMonths|)
    }

    /** The state after the module's `setSelectedDate('')`, before any bookmarks are loaded. */
    constructor()
      ensures Valid()
      ensures availableDates == [] && selectedDate == "" && currentMonthIndex == 0 && calendarMonths == []
    {
      availableDates := [];
      selectedDate := "";
      currentMonthIndex := 0;
      calendarMonths := [];
    }

    /** `findDateOnOrBefore`: the scan from the last sorted date down. */
    method FindDateOnOrBefore(dateString: string) returns (r: Option<string>)
      ensures r == OnOrBefore(SortedDates(availableDates), dateString)
    {
      if dateString == "" {
        return None;
      }
      var sorted := SortedDates(availableDates);
      var i := |sorted| - 1;
      assert sorted[..i + 1] == sorted;
      while i >= 0
        invariant -1 <= i < |sorted|
        invariant LastAtMost(sorted, dateString) == LastAtMost(sorted[..i + 1], dateString)
        decreases i + 1
      {
        if LexLe(sorted[i], dateString) {
          return Some(sorted[i]);
        }
        assert sorted[..i + 1][..i] == sorted[..i];
        i := i - 1;
      }
      return None;
    }

    /** `findDateOnOrAfter`: the scan from the first sorted date up. */
    method FindDateOnOrAfter(dateString: string) returns (r: Option<string>)
      ensures r == OnOrAfter(SortedDates(availableDates), dateString)
    {
      if dateString == "" {
        return None;
      }
      var sorted := SortedDates(availableDates);
      var i := 0;
      while i < |sorted|
        invariant 0 <= i <= |sorted|
        invariant FirstAtLeast(sorted, dateString) == FirstAtLeast(sorted[i..], dateString)
      {
        if LexLe(dateString, sorted[i]) {
          return Some(sorted[i]);
        }
        assert sorted[i..][1..] == sorted[i + 1..];
        i := i + 1;
      }
      return None;
    }

    /** `getPrevWeekTarget`, taking the candidate only when it lies before the base. */
    method GetPrevWeekTarget() returns (r: Option<string>)
      ensures r == PrevWeekTarget(SortedDates(availableDates), selectedDate)
    {
      var sorted := SortedDates(availableDates);
      var base := BaseDate(sorted, selectedDate);
      if base.None? || base.value == "" {
        return None;
      }
      var target := AddDays(base.value, -7);
      var candidate: Option<string> := None;
      if target.Some? && target.value != "" {
        candidate := FindDateOnOrBefore(target.value);
      }
      assert candidate == PrevWeekCandidate(sorted, base.value);
      if candidate.Some? && candidate.value != "" && LexLess(candidate.value, base.value) {
        return candidate;
      }
      return PrevAdjacent(sorted, base.value);
    }

    /** `getNextWeekTarget`, taking the candidate only when it lies after the base. */
    method GetNextWeekTarget() returns (r: Option<string>)
      ensures r == NextWeekTarget(SortedDates(availableDates), selectedDate)
    {
      var sorted := SortedDates(availableDates);
      var base := BaseDate(sorted, selectedDate);
      if base.None? || base.value == "" {
        return None;
      }
      var target := AddDays(base.value, 7);
      var candidate: Option<string> := None;
      if target.Some? && target.value != "" {
        candidate := FindDateOnOrAfter(target.value);
      }
      assert candidate == NextWeekCandidate(sorted, base.value);
      if candidate.Some? && candidate.value != "" && LexLess(base.value, candidate.value) {
        return candidate;
      }
      return NextAdjacent(sorted, base.value);
    }

    /** `getTodayTarget` for the page's `today`. */
    method GetTodayTarget(today: string) returns (r: Option<string>)
      ensures r == TodayTarget(SortedDates(availableDates), today)
    {
      var sorted := SortedDates(availableDates);
      if |sorted| == 0 {
        return None;
      }
      SortByMember(availableDates, LexLe, today);
      if today in availableDates {
        return Some(today);
      }
      var after := FindDateOnOrAfter(today);
      if after.Some? && after.value != "" {
        return after;
      }
      r := FindDateOnOrBefore(today);
    }

    /** `setSelectedDate(value)`: the selection and the calendar's month. */
    method SetSelectedDate(value: string)
      requires MonthsBuilt()
      modifies this
      ensures Valid()
      ensures selectedDate == value
      ensures availableDates == old(availableDates) && calendarMonths == old(calendarMonths)
      ensures currentMonthIndex == SelectIndex(calendarMonths, old(currentMonthIndex), value)
    {
      selectedDate := value;
      if value != "" {
        var index := FindKey(calendarMonths, Prefix(value, 7));
        if index >= 0 {
          currentMonthIndex := index;
        }
      }
      RenderCalendar(currentMonthIndex);
    }

    /** The month-index part of `renderCalendar(monthIndex)`. */
    method RenderCalendar(monthIndex: int)
      modifies this
      ensures availableDates == old(availableDates) && selectedDate == old(selectedDate)
      ensures calendarMonths == old(calendarMonths)
      ensures currentMonthIndex == ShownIndex(calendarMonths, old(currentMonthIndex), monthIndex)
      ensures |calendarMonths| > 0 ==> 0 <= currentMonthIndex < |calendarMonths|
    {
      if |calendarMonths| == 0 {
        return;
      }
      currentMonthIndex := Clamp(monthIndex, |calendarMonths|);
      ClampInRange(monthIndex, |calendarMonths|);
    }

    /** The calendar's previous-month button. */
    method PrevMonth()
      requires Valid()
      modifies this
      ensures Valid()
      ensures availableDates == old(availableDates) && selectedDate == old(selectedDate)
      ensures calendarMonths == old(calendarMonths)
      ensures currentMonthIndex == ShownIndex(calendarMonths, old(currentMonthIndex), old(currentMonthIndex) - 1)
    {
      RenderCalendar(currentMonthIndex - 1);
    }

    /** The calendar's next-month button. */
    method NextMonth()
      requires Valid()
      modifies this
      ensures Valid()
      ensures availableDates == old(availableDates) && selectedDate == old(selectedDate)
      ensures calendarMonths == old(calendarMonths)
      ensures currentMonthIndex == ShownIndex(calendarMonths, old(currentMonthIndex), old(currentMonthIndex) + 1)
    {
      RenderCalendar(currentMonthIndex + 1);
    }

    /**
     * `renderGroups` on the dates of the loaded groups: the set is refilled,
     * the months rebuilt and the selection kept when still available, else
     * moved to the latest date.  When a month label throws (the keys in
     * `unparsed`, see `LabelThrows`), the handler stops once the set is
     * refilled: the months, the selection and the index keep their values.
     */
    method RenderGroups(groupDates: seq<string>, unparsed: set<string>) returns (thrown: bool)
      requires Valid()
      modifies this
      ensures availableDates == Dedup(groupDates)
      ensures thrown == (groupDates != [] && LabelThrows(SortedDates(availableDates), unparsed))
      ensures !thrown ==> Valid()
      ensures !thrown ==> selectedDate == (if groupDates == [] then ""
                                           else DefaultSelection(SortedDates(availableDates), old(selectedDate)))
      ensures !thrown ==> currentMonthIndex == SelectIndex(calendarMonths, old(currentMonthIndex), selectedDate)
      ensures thrown ==> calendarMonths == old(calendarMonths) && selectedDate == old(selectedDate)
                         && currentMonthIndex == old(currentMonthIndex)
    {
      FillDates(groupDates);
      if groupDates == [] {
        calendarMonths := [];
        SetSelectedDate("");
        return false;
      }
      DedupFacts(groupDates);
      var sorted := SortedDates(availableDates);
      var months;
      months, thrown := BuildCalendarMonths(sorted, unparsed);
      if thrown {
        return;
      }
      calendarMonths := months;
      var selection := DefaultSelection(sorted, selectedDate);
      SortByMember(availableDates, LexLe, selectedDate);
      selectedDate := selection;
      SetSelectedDate(selectedDate);
    }

    /** `availableDates.clear()`, then `availableDates.add(group.date)` for each group in order. */
    method FillDates(groupDates: seq<string>)
      modifies this
      ensures availableDates == Dedup(groupDates)
      ensures selectedDate == old(selectedDate) && currentMonthIndex == old(currentMonthIndex)
      ensures calendarMonths == old(calendarMonths)
    {
      availableDates := [];
      var i := 0;
      while i < |groupDates|
        invariant 0 <= i <= |groupDates|
        invariant availableDates == Dedup(groupDates[..i])
        invariant selectedDate == old(selectedDate) && currentMonthIndex == old(currentMonthIndex)
        invariant calendarMonths == old(calendarMonths)
      {
        var date := groupDates[i];
        assert groupDates[..i + 1][..i] == groupDates[..i];
        if date !in availableDates {
          availableDates := availableDates + [date];
        }
        i := i + 1;
      }
      assert groupDates[..i] == groupDates;
    }

    /** `jumpDay`: move the selection to the previous or next available date, if there is one. */
    method JumpDay(previous: bool) returns (target: Option<string>)
      requires Valid()
      modifies this
      ensures Valid()
      ensures target == (if previous then PrevDayTarget(SortedDates(availableDates), old(selectedDate))
                         else NextDayTarget(SortedDates(availableDates), old(selectedDate)))
      ensures availableDates == old(availableDates) && calendarMonths == old(calendarMonths)
      ensures target.Some? && target.value != "" ==>
                selectedDate == target.value && selectedDate in availableDates
                && currentMonthIndex == SelectIndex(calendarMonths, old(currentMonthIndex), target.value)
      ensures target.None? || target.value == "" ==>
                selectedDate == old(selectedDate) && currentMonthIndex == old(currentMonthIndex)
    {
      var sorted := SortedDates(availableDates);
      target := if previous then PrevDayTarget(sorted, selectedDate) else NextDayTarget(sorted, selectedDate);
      if target.None? || target.value == "" {
        return;
      }
      SortedDatesAscending(availableDates);
      SortByMember(availableDates, LexLe, target.value);
      DayTargetsAreNeighbours(sorted, selectedDate);
      BaseDateFacts(sorted, selectedDate);
      NextAdjacentIsSuccessor(sorted, BaseDate(sorted, selectedDate).value);
      PrevAdjacentIsPredecessor(sorted, BaseDate(sorted, selectedDate).value);
      SetSelectedDate(target.value);
    }

    /** `jumpWeek`: move the selection about a week back or on, to an available date. */
    method JumpWeek(previous: bool) returns (target: Option<string>)
      requires Valid()
      modifies this
      ensures Valid()
      ensures target == (if previous then PrevWeekTarget(SortedDates(availableDates), old(selectedDate))
                         else NextWeekTarget(SortedDates(availableDates), old(selectedDate)))
      ensures availableDates == old(availableDates) && calendarMonths == old(calendarMonths)
      ensures target.Some? && target.value != "" ==>
                selectedDate == target.value && selectedDate in availableDates
                && currentMonthIndex == SelectIndex(calendarMonths, old(currentMonthIndex), target.value)
      ensures target.None? || target.value == "" ==>
                selectedDate == old(selectedDate) && currentMonthIndex == old(currentMonthIndex)
    {
      if previous {
        target := GetPrevWeekTarget();
      } else {
        target := GetNextWeekTarget();
      }
      if target.None? || target.value == "" {
        return;
      }
      var sorted := SortedDates(availableDates);
      SortedDatesAscending(availableDates);
      SortByMember(availableDates, LexLe, target.value);
      NextWeekTargetMovesForward(sorted, selectedDate);
      PrevWeekTargetMovesBack(sorted, selectedDate);
      SetSelectedDate(target.value);
    }

    /** `jumpToToday`: select today, else the nearest later date, else the nearest earlier one. */
    method JumpToToday(today: string) returns (target: Option<string>)
      requires Valid()
      modifies this
      ensures Valid()
      ensures target == TodayTarget(SortedDates(availableDates), today)
      ensures availableDates == old(availableDates) && calendarMonths == old(calendarMonths)
      ensures target.Some? && target.value != "" ==>
                selectedDate == target.value && selectedDate in availableDates
                && currentMonthIndex == SelectIndex(calendarMonths, old(currentMonthIndex), target.value)
      ensures target.None? || target.value == "" ==>
                selectedDate == old(selectedDate) && currentMonthIndex == old(currentMonthIndex)
    {
      target := GetTodayTarget(today);
      if target.None? || target.value == "" {
        return;
      }
      var sorted := SortedDates(availableDates);
      SortedDatesAscending(availableDates);
      SortByMember(availableDates, LexLe, target.value);
      TodayTargetMeaning(sorted, today);
      SetSelectedDate(target.value);
    }
  }

  /**
   * After a jump to an available `YYYY-MM-DD` date, the calendar shows the
   * month holding it.
   */
  lemma JumpShowsMonth(available: seq<string>, monthIndex: int, target: string)
    requires Distinct(available) && target in available && IsDateText(target)
    ensures var months := BuildMonths(SortedDates(available));
            var k := SelectIndex(months, monthIndex, target);
            0 <= k < |months| && target in months[k].dates
  {
    SelectShowsDate(available, monthIndex, target);
  }
}
