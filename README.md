# Bookmark viewer: a Dafny model of its core

The bookmark viewer shows the bookmarks of one Chrome folder, `看过`
("watched"), one column per day they were added. It has two sides:

- **The server (`server/bookmarks.js`).** It parses Chrome's `Bookmarks` JSON file and searches the tree depth-first for the folder. It collects every `url` leaf beneath the folder, together with the names of the folders above it. It converts Chrome's microsecond timestamps (counted from 1601) into dates, sorts the items newest first, buckets them by their `YYYY-MM-DD` day key, and orders the buckets by their newest item.
- **The page (`public/app.js`).** It keeps the set of available day keys, the selected date and a month calendar. It steps between dates: to the previous or next available day, about a week back or on, or to today. It uses string comparison of the keys, and it does day arithmetic through `Date.UTC`.

The model is a set of Dafny modules, one per concern:

| module | file | models |
|---|---|---|
| `Options`, `Seqs` | options.dfy, seqs.dfy | an optional value; associativity of sequence concatenation |
| `Strings` | strings.dfy | JavaScript's `<`/`<=` on strings; `String(n)`; `padStart`; `split`; `slice(0, n)`; `Number(s)` on decimal texts |
| `Sorting` | sorting.dfy | `Array.prototype.sort`, stable, as an insertion sort with `le(a, b)` standing for `compare(a, b) <= 0` |
| `Json` | json.dfy | parsed JSON values, JavaScript truthiness, member lookup |
| `Civil` | civil.dfy | the proleptic Gregorian calendar on day numbers; ECMAScript MakeDay, the two-digit year rule and WeekDay |
| `IsoTime` | iso.dfy | `Date.prototype.toISOString()` and its ten-character day key; the order of `YYYY-MM-DD` texts |
| `ChromeTime` | chrome_time.dfy | `chromeTimestampToDate` |
| `BookmarkTree` | tree.dfy | `findFolderByName` and `collectUrlEntries` |
| `Watched` | watched.dfy | `loadWatchedBookmarks` from the parsed tree on |
| `Dates` | dates.dfy | `dateStringToUTC`, `dateToString`, `addDays`, `getTodayString` |
| `Navigation` | navigation.dfy | sorted dates, on-or-before/after, the base date, the day, week and today targets |
| `Calendar` | calendar.dfy | `buildCalendarMonths` and the arithmetic of the month grid in `renderCalendar` |
| `Page` | session.dfy | the page state: `renderGroups`, `setSelectedDate`, `renderCalendar`'s clamp, and the jumps |

**Form.** The code that walks or computes (the tree search, the collection, the date arithmetic, the lookups) is written as functions, and lemmas state what the source promises about them. The code that works by loops or by changing state is written as methods, each proved against those functions:

- the search and the collection loops;
- the bucketing loop of `loadWatchedBookmarks`;
- the calendar's month loop;
- the page's scans and handlers.

The shared `bucket` of `collectUrlEntries` is a `Bucket` object that the methods append to. The page's module-level variables are the fields of `Page.PageState`.

**Two behaviours worth knowing.** The `unknown` bucket of dateless items is not placed at the oldest end of the list: its sort timestamp is 0 (server/bookmarks.js:148-151), so it sorts before any bucket dated before 1970-01-01. `Watched.GroupsOrdered` states that order. An object without truthy `children` is searched through every one of its member values (server/bookmarks.js:51-58), not only through folder-shaped members; `BookmarkTree.Visit` does the same.

## Model

| member | source | states |
|---|---|---|
| ChromeTime.ChromeEpochIs1601 | server/bookmarks.js:13 | the epoch constant is the time value of midnight UTC on 1 January 1601 |
| ChromeTime.NoDateCases | server/bookmarks.js:15-22 | a missing, null, false, 0, `""` or `"0"` value gives no date; so does a value whose `Number` is NaN, infinite or not positive |
| ChromeTime.TimestampTruncates | server/bookmarks.js:19-25 | a produced date is the epoch plus the microseconds floored to whole milliseconds, the unique `ms` with `1000(ms - epoch) <= v < 1000(ms - epoch + 1)` |
| ChromeTime.TimestampMonotone | server/bookmarks.js:23-25 | a later timestamp never gives an earlier date |
| ChromeTime.TimestampLowerBound | server/bookmarks.js:20-25 | a produced time value lies above the lower end of the Date range, so only the upper end can make `toISOString` fail |
| ChromeTime.ArrayTimestamps | server/bookmarks.js:15-25 | `Number([v])` is `Number(v)` for a non-boolean `v`, so a timestamp wrapped in a one-element array gives the same date; `[]` and arrays of several elements give no date |
| ChromeTime.UnixEpochExample | server/bookmarks.js:15-26 | Chrome timestamp 11644473600000000 is the Unix epoch, time value 0 |
| BookmarkTree.FindFolderByName | server/bookmarks.js:28-61 | the result is the first target folder among the nodes of the depth-first search, in the order the search visits them |
| BookmarkTree.FindInArray | server/bookmarks.js:33-40 | scanning an array returns the first element search that finds a folder, else null |
| BookmarkTree.FindInValues | server/bookmarks.js:51-58 | scanning an object's member values in order returns the first search that finds a folder, else null |
| BookmarkTree.ChildrenIndex | server/bookmarks.js:47-49 | locates a truthy `children` member when the object has one, and reports none otherwise |
| BookmarkTree.FirstMatchIsTarget | server/bookmarks.js:43-45 | a found node has type `folder` and the wanted name and was visited; null exactly when no visited node qualifies |
| BookmarkTree.FirstMatchIsEarliest | server/bookmarks.js:34-39 | when some visited node qualifies, the result is the earliest qualifying one |
| BookmarkTree.FirstMatchConcat | server/bookmarks.js:34-39 | searching two runs of nodes gives the first run's answer when it has one, else the second's |
| BookmarkTree.VisitedAreObjects | server/bookmarks.js:29-58 | only objects are tested, so only an object can be found |
| BookmarkTree.ChildrenDecideSearch | server/bookmarks.js:42-58 | for any object: it is the answer if it is the target folder; otherwise, with truthy `children`, the answer is that of the search through `children` alone, and without them the first answer among its member values |
| BookmarkTree.ChildrenShadowOtherKeys | server/bookmarks.js:47-50 | for any object with truthy `children`, replacing the value of any member other than `children`, `type` and `name` leaves the answer unchanged (apart from the object itself being the changed one when it is the answer) |
| BookmarkTree.ChildrenShadowExample | server/bookmarks.js:47-58 | a target folder under another key is not found when `children` is an (empty) array, and is found when `children` is absent |
| BookmarkTree.Bucket.constructor | server/bookmarks.js:63 | the accumulator starts empty |
| BookmarkTree.Bucket.Push | server/bookmarks.js:76-79 | a push appends exactly one entry |
| BookmarkTree.CollectUrlEntries | server/bookmarks.js:63-90 | the call appends to the bucket exactly the entries the folder walk defines, after what it already held; falsy nodes add nothing and a lone node counts as a one-element array |
| BookmarkTree.CollectArray | server/bookmarks.js:72-87 | the loop appends each element's entries in array order |
| BookmarkTree.CollectEntry | server/bookmarks.js:73-86 | one element appends itself when it is a `url`, its subtree's entries when it is a folder with an array `children`, and nothing otherwise |
| BookmarkTree.ArrayChildrenIndex | server/bookmarks.js:83 | locates an array-valued `children` member, and reports none when `children` is missing or not an array |
| BookmarkTree.CollectListConcat | server/bookmarks.js:72-87 | collecting two runs of elements is collecting the first, then the second: document order is kept |
| BookmarkTree.CollectTopWellFormed | server/bookmarks.js:63-90 | every collected entry is a `url` leaf whose breadcrumb starts with the given one and adds only truthy values |
| BookmarkTree.CollectOneWellFormed | server/bookmarks.js:73-86 | the same for one element |
| BookmarkTree.CollectListWellFormed | server/bookmarks.js:72-87 | the same for an array |
| BookmarkTree.CollectTopBreadcrumb | server/bookmarks.js:63-90 | every collected entry is a `url` leaf reached from a top-level node through a chain of folders with array `children`, each a child of the one before, and its breadcrumb is the given one followed by the truthy names of exactly those folders, outermost first |
| BookmarkTree.CollectOneBreadcrumb | server/bookmarks.js:73-86 | the same for the entries one element contributes: a url element is its own entry with the breadcrumb unchanged, a folder heads the chain of every entry beneath it |
| BookmarkTree.CollectListBreadcrumb | server/bookmarks.js:72-87 | the same for an array: each entry comes from one of its elements |
| BookmarkTree.CollectTopComplete | server/bookmarks.js:63-90 | conversely, every truthy `url` leaf reached from a top-level node through a chain of folders with array `children` is collected, with the breadcrumb naming that chain |
| BookmarkTree.CollectOneComplete | server/bookmarks.js:73-86 | the same for one element: a url element yields itself, a folder yields every url leaf reachable beneath it |
| BookmarkTree.CollectListComplete | server/bookmarks.js:72-87 | the same for an array: a leaf reachable from any of its elements is collected |
| BookmarkTree.SkippedEntries | server/bookmarks.js:73-86 | a falsy element, and a non-`url` element whose `children` is not an array, contribute nothing |
| Watched.LoadWatchedBookmarks | server/bookmarks.js:96-168 | the response that `loadWatchedBookmarks`'s steps define: search, collect, convert, sort, bucket, order |
| Watched.CollectFolder | server/bookmarks.js:111 | a fresh bucket filled from the folder's `children` holds the folder's url entries |
| Watched.AllRepresentable | server/bookmarks.js:113-128 | true exactly when every entry's two dates can be formatted by `toISOString` |
| Watched.ToItems | server/bookmarks.js:113-128 | one item per entry, in order, each built from its entry |
| Watched.TitleFallback | server/bookmarks.js:119 | the title is the name when it is a non-empty string, and the url when the name is missing or empty |
| Watched.ItemLeIsConsistent | server/bookmarks.js:130-137 | the item comparator is total and transitive, so the sort is well defined |
| Watched.ItemOrderMeaning | server/bookmarks.js:130-137 | after the sort, dated items come before dateless ones, newest to oldest |
| Watched.SortedItems | server/bookmarks.js:130-137 | the sort is a permutation, is ordered, and keeps the input order of items the comparator cannot tell apart |
| Watched.GroupByDay | server/bookmarks.js:139-146 | the keys are the day keys in order of first appearance, and the map sends each to exactly its items, in order |
| Watched.AddItem | server/bookmarks.js:141-145 | one item is added under its key, creating the key at the end when it is new |
| Watched.DistinctKeysFacts | server/bookmarks.js:139-146 | the keys are distinct, every item's key is among them, and no key has an empty bucket |
| Watched.WithKeyMembers | server/bookmarks.js:140-146 | a bucket holds exactly the items of its key |
| Watched.WithKeySorted | server/bookmarks.js:140-146 | a bucket keeps the newest-first order of the sorted items |
| Watched.DatedKeyIsNotUnknown | server/bookmarks.js:141 | a dated item never falls into the `unknown` bucket |
| Watched.BucketTimestamp | server/bookmarks.js:148-151 | the `unknown` bucket has sort timestamp 0 and only dateless items; any other bucket's timestamp is its first and newest item's time |
| Watched.DatedBucketTimestamp | server/bookmarks.js:148-151 | in a sorted run of dated items, the first item is the newest |
| Watched.EntriesFacts | server/bookmarks.js:148-157 | the entries before ordering are distinct, have one per key, and each holds its key's items and their timestamp |
| Watched.GroupLeIsConsistent | server/bookmarks.js:159 | the bucket comparator is total and transitive |
| Watched.GroupsAreSortedEntries | server/bookmarks.js:159-165 | the served buckets are the entries' permutation, in comparator order |
| Watched.GroupsHoldTheirKey | server/bookmarks.js:139-165 | every served bucket holds exactly the items of its day, newest first, with `count` their number |
| Watched.GroupsHaveDistinctKeys | server/bookmarks.js:139-165 | no two buckets share a day key |
| Watched.GroupsCoverItems | server/bookmarks.js:139-165 | every item's day has a bucket |
| Watched.GroupsOrdered | server/bookmarks.js:159 | the buckets run from the largest sort timestamp to the smallest |
| Watched.GroupsCountItems | server/bookmarks.js:161-166 | the bucket counts add up to `totalCount` |
| Watched.NotFoundResponse | server/bookmarks.js:98-109 | without the folder the response is not found, with no groups and a zero count |
| Watched.FoundResponse | server/bookmarks.js:107-168 | with the folder, the call fails exactly when some date cannot be formatted; otherwise it is found, with the buckets of the sorted items and a count equal to the number of url entries |
| Sorting.SortByPermutation | server/bookmarks.js:130-137 | sorting only reorders: same elements, same multiplicities |
| Sorting.SortBySorted | server/bookmarks.js:130-137 | with a comparator consistent on the input, the result is in order |
| Sorting.SortByStable | server/bookmarks.js:130-137 | elements the comparator cannot tell apart keep their relative order |
| Sorting.SortBySumOf | server/bookmarks.js:159-166 | reordering does not change a sum over the elements |
| Sorting.SortByDistinct | public/app.js:142-144 | sorting keeps distinct elements distinct |
| Strings.LexLessTrichotomy | public/app.js:152 | string `<` is a strict total order: exactly one of `a < b`, `a == b`, `b < a` |
| Strings.LexLessTransitive | public/app.js:165 | string `<` is transitive |
| Strings.LexLeTotal | public/app.js:152 | `a <= b` or `b <= a`; both only when equal; `a <= b` exactly when not `b < a` |
| Strings.DigitsOrder | public/app.js:143 | digit texts of one length compare as their values |
| Strings.PadDigits | public/app.js:393-394 | `String(n).padStart(w, '0')` is a digit text of value `n`, `w` long when `n` fits |
| Strings.NatToStringDigits | public/app.js:393-396 | `String(n)` is a non-empty digit text of value `n` |
| Strings.SplitJoin | public/app.js:123 | the parts of `split('-')` hold no `-` and join back into the text |
| Strings.JsNumberOfPad | public/app.js:123 | `Number` of a zero-padded decimal text is its value |
| Civil.DaysCivilRoundTrip | server/bookmarks.js:122 | every day number names a valid date that converts back to that day |
| Civil.CivilDaysRoundTrip | public/app.js:127 | every valid date survives the trip through its day number |
| Civil.DaysOrder | public/app.js:177 | day numbers order valid dates exactly as the calendar does |
| Civil.MakeDayOfDate | public/app.js:127 | `Date.UTC`'s day of a valid date's year, month index and day is that date's day number |
| Civil.LastDayNumber | public/app.js:382 | day 0 of the month after month index `mi`, for any `mi`, is the last day of month `mi` |
| Civil.SuccessorDays | public/app.js:177 | the next calendar day is valid, later, and one day number on |
| IsoTime.DayKeyShape | server/bookmarks.js:141 | the day key is ten characters, the date part of the ISO text; it starts with `+` after year 9999 |
| IsoTime.DateTextParts | public/app.js:123 | a four-digit-year date prints as `YYYY-MM-DD`, which splits at `-` into texts that `Number` reads as its year, month and day |
| IsoTime.DateTextOrder | public/app.js:143 | canonical date texts sort in calendar order |
| IsoTime.DateTextInjective | public/app.js:143 | distinct four-digit-year dates have distinct texts |
| Dates.ClipDay | public/app.js:127 | the Date of a day is valid exactly when its time value is in range, and then holds that day |
| Dates.TodayStringOfDate | public/app.js:137-140 | today's text, for a local date of years 100..9999, is that date's `YYYY-MM-DD` |
| Dates.ParseDateText | public/app.js:119-128 | a four-digit date text parses as its own day from year 100 on; years 0..99 are read as 19YY |
| Dates.ParseOfParts | public/app.js:123-127 | three numeric parts parse as the day `Date.UTC` gives those numbers |
| Dates.UnknownIsNull | public/app.js:119-126 | `"unknown"` parses to null and cannot be moved |
| Dates.ExpandedYearIsInvalid | public/app.js:123-127 | a key cut from an expanded year (`+010000-01`) has no day part: it is an invalid Date and moves to `""` |
| Dates.FormatDay | public/app.js:130-135 | the start of a day of years 0..9999 prints as that day's canonical text |
| Dates.DayKeyOfAnyDate | public/app.js:134 | the printed day is the first ten characters of the date's ISO text |
| Dates.AddDaysOfMidnight | public/app.js:172-179 | a text that parses to a day moves to that day plus the amount |
| Dates.ShiftIsMakeDay | public/app.js:177 | `setUTCDate(getUTCDate() + k)` moves the day number by exactly `k` |
| Dates.AddDaysOutcomes | public/app.js:172-179 | null exactly when the text does not parse; `""` exactly when the Date is or becomes invalid |
| Dates.AddDaysCanonical | public/app.js:172-179 | a date text of years 100..9999 moved by `k` days is the text of the date `k` days on, while that date has a four-digit year |
| Dates.AddDaysDirection | public/app.js:172-179 | in that range a later day gives a greater text and an earlier day a smaller one |
| Dates.AddDaysPastYear9999 | public/app.js:172-179 | a week after `9999-12-28` prints as `+010000-01` |
| Dates.AddDaysTwoDigitYear | public/app.js:172-179 | a week before `0050-01-05` is `1949-12-29` |
| Navigation.SortedDatesAscending | public/app.js:142-144 | the sorted dates are the set's members, each once, strictly increasing |
| Navigation.LastAtMostIsGreatest | public/app.js:151-156 | the downward scan finds the greatest date `<=` the argument, and none exactly when there is none |
| Navigation.FirstAtLeastIsLeast | public/app.js:164-169 | the upward scan finds the least date `>=` the argument, and none exactly when there is none |
| Navigation.OnOrBeforeIsGreatest | public/app.js:146-157 | `findDateOnOrBefore` is that greatest date; null for an empty argument |
| Navigation.OnOrAfterIsLeast | public/app.js:159-170 | `findDateOnOrAfter` is that least date; null for an empty argument |
| Navigation.IndexOf | public/app.js:203 | `indexOf` gives the first position of the date, and -1 exactly when it is absent |
| Navigation.BaseDateFacts | public/app.js:181-190 | the base is null only with no dates; it is an available date; it is the selection when that is available, else the earliest date |
| Navigation.NextAdjacentIsSuccessor | public/app.js:246-251 | the next date is the least later one; there is none exactly when the base is last |
| Navigation.PrevAdjacentIsPredecessor | public/app.js:233-238 | the previous date is the greatest earlier one; there is none exactly when the base is first |
| Navigation.DayTargetsAreNeighbours | public/app.js:228-252 | the day targets exist exactly when the base is not at that end, and are its neighbours in sorted order |
| Navigation.NextThenPrevDay | public/app.js:228-252 | a step to the next day and back returns to the base |
| Navigation.PrevThenNextDay | public/app.js:228-252 | a step to the previous day and back returns to the base |
| Navigation.CandidatesAreAvailable | public/app.js:197-198 | the week candidates are available dates |
| Navigation.NextWeekTargetMovesForward | public/app.js:210-226 | the corrected next-week target exists exactly when the base is not last, and is a later available date |
| Navigation.PrevWeekTargetMovesBack | public/app.js:192-208 | the corrected previous-week target exists exactly when the base is not first, and is an earlier available date |
| Navigation.NextWeekTargetsAgree | public/app.js:210-226 | for a base of years 100..9999 whose week-on date keeps a four-digit year, the next-week target as written equals the corrected one |
| Navigation.PrevWeekTargetsAgree | public/app.js:192-208 | the same for the previous-week target |
| Navigation.NextTargetsAgreeAt | public/app.js:215-219 | whenever the week-on text is later than the base, both next-week targets agree |
| Navigation.PrevTargetsAgreeAt | public/app.js:197-201 | whenever the week-back text is earlier than the base, both previous-week targets agree |
| Navigation.NextWeekAsWrittenGoesBack | public/app.js:215-219 | as written, the next-week target from `9999-12-28` is the earlier `2024-01-01`; the corrected target gives null |
| Navigation.PrevWeekAsWrittenGoesForward | public/app.js:197-201 | as written, the previous-week target from `0050-01-05` is the later `1000-01-01`; the corrected target gives null |
| Navigation.TodayTargetMeaning | public/app.js:254-268 | the today target is an available date: today itself when available, else the least later date, else the greatest earlier one; null only with no dates |
| Calendar.BuildCalendarMonths | public/app.js:288-318 | the loop throws exactly when some date's key is one whose `${key}-01T00:00:00` the engine cannot parse (its label then raises a RangeError); otherwise the loop and the sort give the calendar months the month map defines |
| Calendar.UnknownMonthKey | public/app.js:297-298 | the date `unknown` of a dateless bucket has the month key `unknown-undefined` |
| Calendar.UnknownDateThrows | public/app.js:297-305 | on an engine that does not parse `unknown-undefined-01T00:00:00`, a date list holding `unknown` makes the build throw |
| Calendar.IsoDatesDoNotThrow | public/app.js:297-305 | on an engine that parses every `YYYY-MM-01T00:00:00` text whose month is 01 to 12, a list of canonical date texts of such months never makes the build throw |
| Calendar.FindKey | public/app.js:299 | the month lookup finds a month of the key, and -1 exactly when no month has it |
| Calendar.KeyDeterminesMonth | public/app.js:297-307 | a month's numbers are read from its key alone, so dates of one key create the same month |
| Calendar.UndefinedIsNaN | public/app.js:297-304 | a missing month part prints as `undefined`, which `Number` reads as NaN |
| Calendar.AddDateFacts | public/app.js:299-309 | one date is added to the month of its key, which is created at the end when new; nothing else changes |
| Calendar.MonthMapShape | public/app.js:296-310 | the month map has distinct keys, each month carries its key's numbers, and every date's key is present |
| Calendar.MonthMapDates | public/app.js:296-310 | each month's set holds exactly the dates of its key |
| Calendar.BuildMonthsPartition | public/app.js:288-318 | the calendar has one month per key, each holding exactly that key's dates; every date has its month |
| Calendar.NumericConsistent | public/app.js:312-317 | on months whose numbers are defined the comparator is consistent |
| Calendar.CanonicalKey | public/app.js:297-304 | a `YYYY-MM-DD` date has key `YYYY-MM`, read as its year and month index |
| Calendar.BuildMonthsAscending | public/app.js:312-317 | for canonical dates the months run in strictly increasing (year, month index) order |
| Calendar.MonthOfDateText | public/app.js:303-304 | a four-digit date's month carries its year and month index |
| Calendar.TrailingFills | public/app.js:417-418 | fewer than seven trailing fillers bring the cells to whole weeks |
| Calendar.GridFillsWeeks | public/app.js:381-423 | fewer than a week of fillers at either end, and a whole number of weeks when both days are Dates |
| Calendar.GridOfMonth | public/app.js:381-382 | the grid starts on the weekday of the month's first day and has as many day cells as the month has days |
| Calendar.LastDayCount | public/app.js:382 | `new Date(y, mi + 1, 0).getDate()` is the number of days of month `mi` |
| Calendar.DayOfMonthOfDate | public/app.js:382 | `getDate()` of a valid date's day is its day of the month |
| Calendar.GridOfDate | public/app.js:381-382 | a month of years 0..9999 has a defined grid with that month's days |
| Calendar.YearPrints | public/app.js:395 | a year 1000..9999 prints as its four digits |
| Calendar.CellOfDate | public/app.js:393-395 | a day cell of years 1000..9999 carries the canonical text of its date |
| Calendar.AvailableDateHasCell | public/app.js:390-403 | an available date of years 1000..9999 is the text of one of its month's day cells, so that cell is enabled |
| Page.DedupFacts | public/app.js:507-562 | the set holds each added date once, and exactly the added dates |
| Page.ClampInRange | public/app.js:335 | the clamp lands in range and leaves an index in range where it is |
| Page.SelectIndexInRange | public/app.js:457-466 | after a selection the month index is in range when there are months, and unchanged when the value names no month |
| Page.SelectShowsDate | public/app.js:457-466 | selecting an available `YYYY-MM-DD` date shows the month whose key is its first seven characters, which holds it |
| Page.DefaultSelectionMeaning | public/app.js:568-571 | the default selection is available: the kept selection when available, else the latest date |
| Page.JumpShowsMonth | public/app.js:640-668 | after a jump to an available date the calendar shows the month holding it |
| Page.PageState.constructor | public/app.js:670 | the state after `setSelectedDate('')` at load: no dates, no selection, no months, index 0 |
| Page.PageState.FindDateOnOrBefore | public/app.js:146-157 | the downward scan returns `findDateOnOrBefore`'s answer over the sorted set |
| Page.PageState.FindDateOnOrAfter | public/app.js:159-170 | the upward scan returns `findDateOnOrAfter`'s answer over the sorted set |
| Page.PageState.GetPrevWeekTarget | public/app.js:192-208 | returns the corrected previous-week target of the state (see Left out), which `Navigation.PrevWeekTargetMovesBack` shows is an earlier available date, and none exactly at the first date |
| Page.PageState.GetNextWeekTarget | public/app.js:210-226 | returns the corrected next-week target of the state (see Left out), which `Navigation.NextWeekTargetMovesForward` shows is a later available date, and none exactly at the last date |
| Page.PageState.GetTodayTarget | public/app.js:254-268 | returns the today target of the state for the given today |
| Page.PageState.SetSelectedDate | public/app.js:428-467 | sets the selection and moves to the month keyed by its first seven characters, if any, then clamps; the dates and months stay |
| Page.PageState.RenderCalendar | public/app.js:320-335 | the index is clamped into range when there are months and left alone otherwise; nothing else changes |
| Page.PageState.PrevMonth | public/app.js:345-348 | the previous-month button renders the index one lower, clamped |
| Page.PageState.NextMonth | public/app.js:354-357 | the next-month button renders the index one higher, clamped |
| Page.PageState.FillDates | public/app.js:507-562 | the set is cleared, then refilled with the group dates in first-appearance order |
| Page.PageState.RenderGroups | public/app.js:497-574 | the set is the group dates; it throws exactly when the month build does, and then the months, the selection and the shown month keep their old values; otherwise the months are rebuilt from the set, an empty payload clears the selection, an available selection is kept, else the latest date is chosen, and its month is shown |
| Page.PageState.JumpDay | public/app.js:660-668 | with a target, it becomes the selection, an available date, and its month is shown; without one nothing changes |
| Page.PageState.JumpWeek | public/app.js:650-658 | the same for the (corrected) week targets |
| Page.PageState.JumpToToday | public/app.js:640-648 | the same for the today target |

## Left out

- Reading the bookmarks file, the path choice (option, `BOOKMARKS_PATH`, the default under the home directory) and `JSON.parse` are not modelled: the model starts from the parsed value. `sourcePath` and `updatedAt` (the clock's `toISOString()`) are parameters.
- JSON numbers are integers. Chrome writes its timestamps as decimal strings. `Number(s)` is modelled for the empty text, digit runs and a leading sign; blanks, fractions, exponents and hexadecimal texts are read as NaN. An array reads as the text of its elements joined by commas (`ChromeTime.NumberOf`); an object reads as NaN, although one whose own `toString` member is data makes `Number` throw a TypeError. Doubles are modelled only by the bound beyond which a number is infinite. Real Chrome timestamps (about 1.33e16 microseconds) all exceed 2^53, so the program's `Number(value)` and `asNumber / 1000` round on every real input; the resulting millisecond may differ by one from the model's exact `n / 1000`, and that rounding is not modelled.
- An object's members are listed in `Object.values` enumeration order, which the model takes as given: on a `JSON.parse` result that is the integer-like keys first, in ascending order, then the other keys in the order of the text. When an object has duplicate keys, the model's lookup takes the first member, whereas `JSON.parse` keeps the last.
- Strings are sequences of code points. JavaScript compares UTF-16 code units, which differs only outside the Basic Multilingual Plane.
- Local time: `getTodayString` takes the local year, month index and day as arguments. The Date constructor calls in `renderCalendar` (`new Date(y, m, 1)` and `new Date(y, m + 1, 0)`) are modelled as UTC. No timezone offset is applied.
- The DOM is not modelled. This covers element creation, the day columns, `createBookmarkItem`, the text of labels from `Intl.DateTimeFormat` (only whether a month label throws is modelled), `formatDateLabel`, the date button's text, disabled cells, the selected highlight, and `updateQuickJumpButtons`, which only sets `disabled` flags from the targets.
- Not modelled: scrolling and highlighting (`jumpToDate`, `scrollColumnIntoView`), temporary status messages, timers, `fetch`/`init`, the calendar's open/close/toggle state, the search box, and `server/index.js`.
- Calendar.MonthLe: when a month's year or month index is NaN the comparator is inconsistent, and the order JavaScript's sort then produces is not specified. The model fixes one result, and `BuildMonthsAscending` states the order only for canonical date texts.
- Calendar.AvailableDateHasCell: states the enabled cell only from year 1000 on. Below that, `${month.year}` prints fewer than four digits, so the cell text is not the date's key and the cell stays disabled.
- Calendar.BuildCalendarMonths: which month keys the engine's `Date` parser rejects is a parameter (`unparsed`). Texts other than ISO ones, such as `unknown-undefined-01T00:00:00` for the dateless bucket, are parsed as the engine chooses.
- Page.PageState.RenderGroups: after a throw the page state no longer satisfies `Valid` (the set was refilled but the months were not rebuilt), and the handlers are not modelled from that state. The error status `init` then shows is not modelled either.
- Page.PageState.GetPrevWeekTarget: returns the corrected previous-week target (see Findings), not `getPrevWeekTarget` as written; the two agree whenever the week-back text sorts before the base (`Navigation.PrevTargetsAgreeAt`), and can differ otherwise (`Navigation.PrevWeekAsWrittenGoesForward`).
- Page.PageState.GetNextWeekTarget: returns the corrected next-week target (see Findings), not `getNextWeekTarget` as written; the two agree whenever the week-on text sorts after the base (`Navigation.NextTargetsAgreeAt`), and can differ otherwise (`Navigation.NextWeekAsWrittenGoesBack`).
- Page.PageState.JumpWeek: uses the corrected week targets (see Findings), not the targets as written.

## Findings

| source | as written | input that shows it | evidently intended | confidence | as-written member | corrected member |
|---|---|---|---|---|---|---|
| public/app.js:215-219 | the week candidate is taken whenever it differs from the base | dates `2024-01-01` and `9999-12-28`, base `9999-12-28`: a week on is year 10000, printed `+010000-01`, which sorts before every four-digit year, so the "next week" is `2024-01-01` | take the candidate only when it lies after the base; otherwise fall back to the next adjacent date (none here) | not executed | Navigation.NextWeekAsWrittenGoesBack (over Navigation.NextWeekTargetAsWritten) | Navigation.NextWeekTargetMovesForward (over Navigation.NextWeekTarget) |
| public/app.js:197-201 | the week candidate is taken whenever it differs from the base | dates `0050-01-05` and `1000-01-01`, base `0050-01-05`: `Date.UTC` reads year 50 as 1950, so a week back is `1949-12-29`, and the "previous week" is the later `1000-01-01` | take the candidate only when it lies before the base; otherwise fall back to the previous adjacent date (none here) | not executed | Navigation.PrevWeekAsWrittenGoesForward (over Navigation.PrevWeekTargetAsWritten) | Navigation.PrevWeekTargetMovesBack (over Navigation.PrevWeekTarget) |
