/**
 * `loadWatchedBookmarks` (server/bookmarks.js) after the file is read and
 * parsed: find the `看过` folder, flatten its url leaves into items, sort them
 * newest first, bucket them by day and order the buckets.
 */
module Watched {
  import opened Options
  import opened Json
  import opened Sorting
  import opened IsoTime
  import opened ChromeTime
  import opened BookmarkTree

  /** The watched folder's name, `看过`. */
  const FolderName: string := "\U{770B}\U{8FC7}"

  /** The key of the bucket for entries without a date. */
  const UnknownKey: string := "unknown"

  /**
   * One bookmark as served. `dateAdded` and `dateLastUsed` are time values;
   * the payload carries them as `IsoString` texts.
   */
  datatype Item = Item(
    id: Option<Json>,
    title: Option<Json>,
    url: Option<Json>,
    path: seq<Json>,
    dateAdded: Option<int>,
    dateLastUsed: Option<int>,
    rawDateAdded: Option<Json>,
    rawDateLastUsed: Option<Json>,
    guid: Option<Json>)

  /** A bucket before its final shape: its day key, ordering timestamp and items. */
  datatype GroupEntry = GroupEntry(date: string, sortTimestamp: int, items: seq<Item>)

  /** A bucket as served. */
  datatype DateGroup = DateGroup(date: string, items: seq<Item>, count: int)

  datatype WatchedResponse = WatchedResponse(
    folderName: string,
    sourcePath: string,
    found: bool,
    updatedAt: string,
    groups: seq<DateGroup>,
    totalCount: int)

  /** The call's outcome: `toISOString` throws a RangeError on a date outside the time range. */
  datatype Outcome = Ok(response: WatchedResponse) | RangeError

  // ---------------------------------------------------------------------
  // Items

  /** `toISOString()` can format the entry's two dates. */
  predicate Representable(e: UrlEntry) {
    var added := ChromeTimestampToDate(Get(e.entry, "date_added"));
    var used := ChromeTimestampToDate(Get(e.entry, "date_last_used"));
    (added.Some? ==> InTimeRange(added.value)) && (used.Some? ==> InTimeRange(used.value))
  }

  /** The item built from a collected entry. */
  function ToItem(e: UrlEntry): Item {
    var name := Get(e.entry, "name");
    Item(
      Get(e.entry, "id"),
      if TruthyOpt(name) then name else Get(e.entry, "url"),
      Get(e.entry, "url"),
      e.parents,
      ChromeTimestampToDate(Get(e.entry, "date_added")),
      ChromeTimestampToDate(Get(e.entry, "date_last_used")),
      Get(e.entry, "date_added"),
      Get(e.entry, "date_last_used"),
      Get(e.entry, "guid"))
  }

  function ToItems(es: seq<UrlEntry>): (items: seq<Item>)
    ensures |items| == |es|
    ensures forall i :: 0 <= i < |es| ==> items[i] == ToItem(es[i])
  {
    if es == [] then [] else [ToItem(es[0])] + ToItems(es[1..])
  }

  /** The title is the entry's name, or its url when the name is missing or empty. */
  lemma TitleFallback(e: UrlEntry)
    ensures (Get(e.entry, "name").Some? && Get(e.entry, "name").value != JStr("")
             && Get(e.entry, "name").value.JStr?) ==> ToItem(e).title == Get(e.entry, "name")
    ensures Get(e.entry, "name").None? || Get(e.entry, "name") == Some(JStr(""))
            ==> ToItem(e).title == Get(e.entry, "url")
  {
  }

  // ---------------------------------------------------------------------
  // Ordering

  /** The item comparator: newer first, dated before dateless. */
  function ItemCompare(a: Item, b: Item): int {
    if a.dateAdded.Some? && b.dateAdded.Some? then b.dateAdded.value - a.dateAdded.value
    else if a.dateAdded.Some? then -1
    else if b.dateAdded.Some? then 1
    else 0
  }

  predicate ItemLe(a: Item, b: Item) { ItemCompare(a, b) <= 0 }

  /** The bucket comparator: larger sort timestamp first. */
  function GroupCompare(a: GroupEntry, b: GroupEntry): int {
    b.sortTimestamp - a.sortTimestamp
  }

  predicate GroupLe(a: GroupEntry, b: GroupEntry) { GroupCompare(a, b) <= 0 }

  lemma ItemLeIsConsistent()
    ensures TotalPreorder(ItemLe)
  {
  }

  lemma GroupLeIsConsistent()
    ensures TotalPreorder(GroupLe)
  {
  }

  /** In a sequence sorted by ItemLe, dated items come first, newest to oldest. */
  lemma ItemOrderMeaning(items: seq<Item>)
    requires SortedBy(items, ItemLe)
    ensures forall i, j :: 0 <= i < j < |items| && items[j].dateAdded.Some? ==> items[i].dateAdded.Some?
    ensures forall i, j :: 0 <= i < j < |items| && items[i].dateAdded.Some? && items[j].dateAdded.Some?
              ==> items[i].dateAdded.value >= items[j].dateAdded.value
  {
    forall i, j | 0 <= i < j < |items| && items[j].dateAdded.Some?
      ensures items[i].dateAdded.Some?
    {
      assert ItemLe(items[i], items[j]);
    }
    forall i, j | 0 <= i < j < |items| && items[i].dateAdded.Some? && items[j].dateAdded.Some?
      ensures items[i].dateAdded.value >= items[j].dateAdded.value
    {
      assert ItemLe(items[i], items[j]);
    }
  }

  /** The sorted items: a reordering of the input, in ItemLe order, ties in input order. */
  lemma SortedItems(items: seq<Item>)
    ensures multiset(SortBy(items, ItemLe)) == multiset(items)
    ensures SortedBy(SortBy(items, ItemLe), ItemLe)
    ensures forall e :: ClassOf(SortBy(items, ItemLe), ItemLe, e) == ClassOf(items, ItemLe, e)
  {
    ItemLeIsConsistent();
    SortByPermutation(items, ItemLe);
    ConsistentEverywhere(items, ItemLe);
    SortBySorted(items, ItemLe);
    forall e ensures ClassOf(SortBy(items, ItemLe), ItemLe, e) == ClassOf(items, ItemLe, e) {
      ConsistentEverywhere([e] + items, ItemLe);
      SortByStable(items, ItemLe, e);
    }
  }

  // ---------------------------------------------------------------------
  // Buckets

  /** `item.dateAdded ? item.dateAdded.slice(0, 10) : 'unknown'`. */
  function DayKeyOf(item: Item): string {
    if item.dateAdded.Some? then DayKey(item.dateAdded.value) else UnknownKey
  }

  /** The day keys in order of first appearance: the Map's key order. */
  function DistinctKeys(items: seq<Item>): seq<string> {
    if items == [] then []
    else
      var p := DistinctKeys(items[..|items| - 1]);
      var k := DayKeyOf(items[|items| - 1]);
      if k in p then p else p + [k]
  }

  /** The items with day key `k`, in order. */
  function WithKey(items: seq<Item>, k: string): seq<Item> {
    if items == [] then []
    else WithKey(items[..|items| - 1], k)
         + (if DayKeyOf(items[|items| - 1]) == k then [items[|items| - 1]] else [])
  }

  /** The sort timestamp: the first member's time, or 0 when it has none. */
  function SortTimestamp(entries: seq<Item>): int {
    if |entries| > 0 && entries[0].dateAdded.Some? then entries[0].dateAdded.value else 0
  }

  /**
   * `keys` lists the day keys of `items` in order of first appearance, and
   * `grouped` maps exactly those keys to their items, in order.
   */
  ghost predicate Grouped(items: seq<Item>, keys: seq<string>, grouped: map<string, seq<Item>>) {
    keys == DistinctKeys(items)
    && (forall k :: k in grouped <==> k in keys)
    && forall k :: k in keys ==> grouped[k] == WithKey(items, k)
  }

  /**
   * The bucketing loop: `grouped` maps each day key to its items, with the keys
   * kept in insertion order.
   */
  method GroupByDay(items: seq<Item>) returns (keys: seq<string>, grouped: map<string, seq<Item>>)
    ensures Grouped(items, keys, grouped)
  {
    keys, grouped := [], map[];
    var i := 0;
    while i < |items|
      invariant 0 <= i <= |items|
      invariant Grouped(items[..i], keys, grouped)
    {
      assert items[..i + 1] == items[..i] + [items[i]];
      keys, grouped := AddItem(items[..i], items[i], keys, grouped);
      i := i + 1;
    }
    assert items[..i] == items;
  }

  /** One step of the grouping loop: `item` joins its day's group, opening it if new. */
  method AddItem(prefix: seq<Item>, item: Item, keys: seq<string>, grouped: map<string, seq<Item>>)
    returns (newKeys: seq<string>, newGrouped: map<string, seq<Item>>)
    requires Grouped(prefix, keys, grouped)
    ensures Grouped(prefix + [item], newKeys, newGrouped)
  {
    var key := DayKeyOf(item);
    AppendKeyStep(prefix, item, key);
    newKeys, newGrouped := keys, grouped;
    if key !in grouped {
      AbsentKeyIsEmpty(prefix, key);
      newGrouped := newGrouped[key := []];
      newKeys := newKeys + [key];
    }
    newGrouped := newGrouped[key := newGrouped[key] + [item]];
  }

  /** Appending one item adds its key, if new, and extends that key's group. */
  lemma AppendKeyStep(prefix: seq<Item>, item: Item, key: string)
    requires key == DayKeyOf(item)
    ensures DistinctKeys(prefix + [item])
      == if key in DistinctKeys(prefix) then DistinctKeys(prefix) else DistinctKeys(prefix) + [key]
    ensures forall k :: WithKey(prefix + [item], k) == WithKey(prefix, k) + (if key == k then [item] else [])
  {
    assert (prefix + [item])[..|prefix|] == prefix;
  }

  lemma {:induction false} AbsentKeyIsEmpty(items: seq<Item>, k: string)
    requires k !in DistinctKeys(items)
    ensures WithKey(items, k) == []
  {
    if items != [] {
      AbsentKeyIsEmpty(items[..|items| - 1], k);
    }
  }

  /** `Array.from(grouped.entries()).map(...)`. */
  function GroupEntries(keys: seq<string>, items: seq<Item>): (gs: seq<GroupEntry>)
    ensures |gs| == |keys|
    ensures forall i :: 0 <= i < |keys| ==>
      gs[i] == GroupEntry(keys[i], SortTimestamp(WithKey(items, keys[i])), WithKey(items, keys[i]))
  {
    if keys == [] then []
    else [GroupEntry(keys[0], SortTimestamp(WithKey(items, keys[0])), WithKey(items, keys[0]))]
         + GroupEntries(keys[1..], items)
  }

  /** `groupEntries.map(({date, items}) => ({date, items, count: items.length}))`. */
  function Finish(gs: seq<GroupEntry>): (out: seq<DateGroup>)
    ensures |out| == |gs|
    ensures forall i :: 0 <= i < |gs| ==> out[i] == DateGroup(gs[i].date, gs[i].items, |gs[i].items|)
  {
    if gs == [] then [] else [DateGroup(gs[0].date, gs[0].items, |gs[0].items|)] + Finish(gs[1..])
  }

  /** The served buckets of a sorted item list. */
  function GroupsOf(items: seq<Item>): seq<DateGroup> {
    Finish(SortBy(GroupEntries(DistinctKeys(items), items), GroupLe))
  }

  function ItemCount(g: GroupEntry): int { |g.items| }

  function CountOf(g: DateGroup): int { g.count }

  // ---------------------------------------------------------------------
  // The whole call

  /** The collected url entries of the found folder's `children`. */
  function FolderEntries(folder: Json): seq<UrlEntry> {
    var children := Get(folder, "children");
    if children.Some? then CollectTop(children.value, []) else []
  }

  /** The sorted items of the found folder. */
  function FolderItems(folder: Json): seq<Item> {
    SortBy(ToItems(FolderEntries(folder)), ItemLe)
  }

  /** The response for a parsed bookmarks tree; `updatedAt` is the clock reading. */
  function Watched(data: Json, sourcePath: string, updatedAt: string): Outcome {
    var folder := FirstMatch(Visit(data), FolderName);
    if folder.None? then
      Ok(WatchedResponse(FolderName, sourcePath, false, updatedAt, [], 0))
    else if exists e :: e in FolderEntries(folder.value) && !Representable(e) then
      RangeError
    else
      var items := FolderItems(folder.value);
      Ok(WatchedResponse(FolderName, sourcePath, true, updatedAt, GroupsOf(items), |items|))
  }

  /** `loadWatchedBookmarks` from the parsed tree on. */
  method LoadWatchedBookmarks(data: Json, sourcePath: string, updatedAt: string) returns (out: Outcome)
    ensures out == Watched(data, sourcePath, updatedAt)
  {
    var watchedFolder := FindFolderByName(data, FolderName);
    var response := WatchedResponse(FolderName, sourcePath, watchedFolder.Some?, updatedAt, [], 0);
    if watchedFolder.None? {
      return Ok(response);
    }
    var urlEntries := CollectFolder(watchedFolder.value);
    var formattable := AllRepresentable(urlEntries);
    if !formattable {
      return RangeError;
    }
    var items := ToItems(urlEntries);
    items := SortBy(items, ItemLe);
    var groups := BuildGroups(items);
    response := response.(groups := groups, totalCount := |items|);
    return Ok(response);
  }

  /** `collectUrlEntries(watchedFolder.children, [])`, into a fresh accumulator. */
  method CollectFolder(folder: Json) returns (urlEntries: seq<UrlEntry>)
    ensures urlEntries == FolderEntries(folder)
  {
    var bucket := new Bucket();
    var children := Get(folder, "children");
    if children.Some? {
      CollectUrlEntries(children.value, [], bucket);
    }
    urlEntries := bucket.entries;
  }

  /** The `urlEntries.map(...)` pass ends in a RangeError unless every date formats. */
  method AllRepresentable(es: seq<UrlEntry>) returns (ok: bool)
    ensures ok <==> forall e :: e in es ==> Representable(e)
  {
    var i := 0;
    while i < |es|
      invariant 0 <= i <= |es|
      invariant forall j :: 0 <= j < i ==> Representable(es[j])
    {
      if !Representable(es[i]) {
        return false;
      }
      i := i + 1;
    }
    return true;
  }

  /** Bucketing, timestamping, ordering and shaping the buckets of the sorted items. */
  method BuildGroups(items: seq<Item>) returns (groups: seq<DateGroup>)
    ensures groups == GroupsOf(items)
  {
    var keys, grouped := GroupByDay(items);
    var groupEntries := seq(|keys|, j requires 0 <= j < |keys| =>
      GroupEntry(keys[j], SortTimestamp(grouped[keys[j]]), grouped[keys[j]]));
    assert groupEntries == GroupEntries(keys, items);
    groupEntries := SortBy(groupEntries, GroupLe);
    groups := Finish(groupEntries);
  }

  // ---------------------------------------------------------------------
  // Properties

  /** Without the folder: not found, no groups, nothing counted. */
  lemma NotFoundResponse(data: Json, sourcePath: string, updatedAt: string)
    requires FirstMatch(Visit(data), FolderName).None?
    ensures Watched(data, sourcePath, updatedAt).Ok?
    ensures var r := Watched(data, sourcePath, updatedAt).response;
            !r.found && r.groups == [] && r.totalCount == 0
            && r.folderName == FolderName && r.sourcePath == sourcePath
  {
  }

  /** With the folder, the call fails exactly when some entry's date cannot be formatted. */
  lemma FoundResponse(data: Json, sourcePath: string, updatedAt: string)
    requires FirstMatch(Visit(data), FolderName).Some?
    ensures var folder := FirstMatch(Visit(data), FolderName).value;
            var out := Watched(data, sourcePath, updatedAt);
            out.RangeError? <==> (exists e :: e in FolderEntries(folder) && !Representable(e))
    ensures var folder := FirstMatch(Visit(data), FolderName).value;
            Watched(data, sourcePath, updatedAt).Ok? ==>
              var r := Watched(data, sourcePath, updatedAt).response;
              r.found && r.groups == GroupsOf(FolderItems(folder))
              && r.totalCount == |FolderItems(folder)| == |FolderEntries(folder)|
  {
    var folder := FirstMatch(Visit(data), FolderName).value;
    SortByPermutation(ToItems(FolderEntries(folder)), ItemLe);
  }

  lemma {:induction false} DistinctKeysFacts(items: seq<Item>)
    ensures forall i, j :: 0 <= i < j < |DistinctKeys(items)| ==> DistinctKeys(items)[i] != DistinctKeys(items)[j]
    ensures forall x :: x in items ==> DayKeyOf(x) in DistinctKeys(items)
    ensures forall k :: k in DistinctKeys(items) ==> WithKey(items, k) != []
  {
    if items != [] {
      var init := items[..|items| - 1];
      var x := items[|items| - 1];
      DistinctKeysFacts(init);
      assert items == init + [x];
      forall y | y in items ensures DayKeyOf(y) in DistinctKeys(items) {
        if y != x {
          assert y in init;
        }
      }
    }
  }

  lemma {:induction false} WithKeyMembers(items: seq<Item>, k: string)
    ensures forall x :: x in WithKey(items, k) <==> x in items && DayKeyOf(x) == k
  {
    if items != [] {
      var init := items[..|items| - 1];
      WithKeyMembers(init, k);
      assert items == init + [items[|items| - 1]];
    }
  }

  /** A filter keeps order: the items of one key stay in their relative order. */
  lemma {:induction false} WithKeySorted(items: seq<Item>, k: string)
    requires SortedBy(items, ItemLe)
    ensures SortedBy(WithKey(items, k), ItemLe)
  {
    if items != [] {
      var init := items[..|items| - 1];
      var x := items[|items| - 1];
      WithKeySorted(init, k);
      WithKeyMembers(init, k);
      if DayKeyOf(x) == k {
        var w := WithKey(init, k);
        forall i | 0 <= i < |w| ensures ItemLe(w[i], x) {
          assert w[i] in init;
          var j :| 0 <= j < |init| && init[j] == w[i];
          assert items[j] == w[i];
        }
      }
    }
  }

  /** How many times `k` occurs in `keys`. */
  function CountIn(keys: seq<string>, k: string): nat {
    if keys == [] then 0 else (if keys[0] == k then 1 else 0) + CountIn(keys[1..], k)
  }

  lemma {:induction false} CountInDistinct(keys: seq<string>, k: string)
    requires Distinct(keys) && k in keys
    ensures CountIn(keys, k) == 1
  {
    if keys[0] == k {
      CountInAbsent(keys[1..], k);
    } else {
      CountInDistinct(keys[1..], k);
    }
  }

  lemma {:induction false} CountInAbsent(keys: seq<string>, k: string)
    requires k !in keys
    ensures CountIn(keys, k) == 0
  {
    if keys != [] {
      CountInAbsent(keys[1..], k);
    }
  }

  /** One more item adds, over the same keys, one for each occurrence of its key. */
  lemma {:induction false} SumStep(keys: seq<string>, init: seq<Item>, x: Item)
    ensures SumOf(GroupEntries(keys, init + [x]), ItemCount)
         == SumOf(GroupEntries(keys, init), ItemCount) + CountIn(keys, DayKeyOf(x))
  {
    var items := init + [x];
    assert items[..|items| - 1] == init && items[|items| - 1] == x;
    if keys != [] {
      SumStep(keys[1..], init, x);
    }
  }

  /** Over distinct keys that cover every item, the group sizes add up to the number of items. */
  lemma {:induction false} CoverCount(keys: seq<string>, items: seq<Item>)
    requires Distinct(keys)
    requires forall x :: x in items ==> DayKeyOf(x) in keys
    ensures SumOf(GroupEntries(keys, items), ItemCount) == |items|
  {
    if items == [] {
      EmptyGroups(keys);
    } else {
      var init, x := items[..|items| - 1], items[|items| - 1];
      assert items == init + [x];
      CoverCount(keys, init);
      SumStep(keys, init, x);
      CountInDistinct(keys, DayKeyOf(x));
    }
  }

  lemma {:induction false} EmptyGroups(keys: seq<string>)
    ensures SumOf(GroupEntries(keys, []), ItemCount) == 0
  {
    if keys != [] {
      EmptyGroups(keys[1..]);
    }
  }

  lemma {:induction false} FinishCounts(gs: seq<GroupEntry>)
    ensures SumOf(Finish(gs), CountOf) == SumOf(gs, ItemCount)
  {
    if gs != [] {
      FinishCounts(gs[1..]);
      assert Finish(gs)[1..] == Finish(gs[1..]);
    }
  }

  /** The day key of a dated item is never the `unknown` key. */
  lemma DatedKeyIsNotUnknown(item: Item)
    requires item.dateAdded.Some?
    ensures DayKeyOf(item) != UnknownKey
  {
    DayKeyShape(item.dateAdded.value);
  }

  /**
   * The sort timestamp of a bucket of a sorted list: 0 for `unknown`, otherwise
   * the time of its first and newest item.
   */
  lemma BucketTimestamp(items: seq<Item>, k: string)
    requires SortedBy(items, ItemLe)
    ensures var w := WithKey(items, k);
            (k == UnknownKey ==> SortTimestamp(w) == 0 && forall x :: x in w ==> x.dateAdded.None?)
            && (k != UnknownKey && w != [] ==>
                  w[0].dateAdded.Some? && SortTimestamp(w) == w[0].dateAdded.value
                  && forall x :: x in w ==> x.dateAdded.Some? && x.dateAdded.value <= SortTimestamp(w))
  {
    var w := WithKey(items, k);
    WithKeyMembers(items, k);
    WithKeySorted(items, k);
    forall x | x in w ensures (k == UnknownKey) == x.dateAdded.None? {
      if x.dateAdded.Some? {
        DatedKeyIsNotUnknown(x);
      }
    }
    if k != UnknownKey && w != [] {
      DatedBucketTimestamp(w);
    }
  }

  /** In a sorted run of dated items the first one is the newest. */
  lemma DatedBucketTimestamp(w: seq<Item>)
    requires SortedBy(w, ItemLe) && w != []
    requires forall x :: x in w ==> x.dateAdded.Some?
    ensures w[0].dateAdded.Some? && SortTimestamp(w) == w[0].dateAdded.value
    ensures forall x :: x in w ==> x.dateAdded.value <= SortTimestamp(w)
  {
    assert w[0] in w;
    ItemOrderMeaning(w);
    forall x | x in w ensures x.dateAdded.value <= SortTimestamp(w) {
      var j :| 0 <= j < |w| && w[j] == x;
      if j > 0 {
        assert ItemLe(w[0], w[j]);
      }
    }
  }

  /** The entries before sorting: distinct keys, one per day key present. */
  lemma {:induction false} EntriesFacts(items: seq<Item>)
    ensures var gs := GroupEntries(DistinctKeys(items), items);
            Distinct(gs)
            && (forall i, j :: 0 <= i < |gs| && 0 <= j < |gs| && gs[i].date == gs[j].date ==> i == j)
            && forall g :: g in gs ==> g.items == WithKey(items, g.date) && g.items != []
                                       && g.sortTimestamp == SortTimestamp(g.items)
  {
    DistinctKeysFacts(items);
    var keys := DistinctKeys(items);
    var gs := GroupEntries(keys, items);
  }

  /** The buckets are the entries reordered by GroupLe and reshaped. */
  lemma GroupsAreSortedEntries(items: seq<Item>)
    ensures var entries := GroupEntries(DistinctKeys(items), items);
            var sorted := SortBy(entries, GroupLe);
            GroupsOf(items) == Finish(sorted)
            && (forall g :: g in sorted <==> g in entries)
            && Distinct(sorted) && SortedBy(sorted, GroupLe)
            && |sorted| == |entries|
  {
    var entries := GroupEntries(DistinctKeys(items), items);
    EntriesFacts(items);
    SortByPermutation(entries, GroupLe);
    GroupLeIsConsistent();
    ConsistentEverywhere(entries, GroupLe);
    SortBySorted(entries, GroupLe);
    SortByDistinct(entries, GroupLe);
    forall g ensures g in SortBy(entries, GroupLe) <==> g in entries {
      SortByMember(entries, GroupLe, g);
    }
  }

  /** Every bucket holds exactly the items of its day key, in sorted order, and counts them. */
  lemma GroupsHoldTheirKey(items: seq<Item>)
    requires SortedBy(items, ItemLe)
    ensures forall g :: g in GroupsOf(items) ==>
              g.items == WithKey(items, g.date) && g.count == |g.items| && g.items != []
              && SortedBy(g.items, ItemLe)
              && forall x :: x in g.items <==> x in items && DayKeyOf(x) == g.date
  {
    var entries := GroupEntries(DistinctKeys(items), items);
    var sorted := SortBy(entries, GroupLe);
    GroupsAreSortedEntries(items);
    EntriesFacts(items);
    var gs := GroupsOf(items);
    forall g | g in gs
      ensures g.items == WithKey(items, g.date) && g.count == |g.items| && g.items != []
      ensures SortedBy(g.items, ItemLe)
      ensures forall x :: x in g.items <==> x in items && DayKeyOf(x) == g.date
    {
      var i :| 0 <= i < |gs| && gs[i] == g;
      assert sorted[i] in entries;
      WithKeySorted(items, g.date);
      WithKeyMembers(items, g.date);
    }
  }

  /** Each day key has one bucket. */
  lemma GroupsHaveDistinctKeys(items: seq<Item>)
    ensures var gs := GroupsOf(items);
            forall i, j :: 0 <= i < j < |gs| ==> gs[i].date != gs[j].date
  {
    var entries := GroupEntries(DistinctKeys(items), items);
    var sorted := SortBy(entries, GroupLe);
    GroupsAreSortedEntries(items);
    EntriesFacts(items);
    ReorderedDatesDistinct(entries, sorted);
  }

  /** Distinct entries taken from a list with one entry per date still have one per date. */
  lemma ReorderedDatesDistinct(entries: seq<GroupEntry>, sorted: seq<GroupEntry>)
    requires forall i, j :: 0 <= i < |entries| && 0 <= j < |entries| && entries[i].date == entries[j].date ==> i == j
    requires forall g :: g in sorted ==> g in entries
    requires Distinct(sorted)
    ensures forall i, j :: 0 <= i < j < |sorted| ==> sorted[i].date != sorted[j].date
  {
    forall i, j | 0 <= i < j < |sorted| ensures sorted[i].date != sorted[j].date {
      assert sorted[i] in entries && sorted[j] in entries;
      var p :| 0 <= p < |entries| && entries[p] == sorted[i];
      var q :| 0 <= q < |entries| && entries[q] == sorted[j];
    }
  }

  /** Every item's day key has a bucket. */
  lemma GroupsCoverItems(items: seq<Item>)
    ensures var gs := GroupsOf(items);
            forall x :: x in items ==> exists g :: g in gs && g.date == DayKeyOf(x)
  {
    var keys := DistinctKeys(items);
    var entries := GroupEntries(keys, items);
    var sorted := SortBy(entries, GroupLe);
    GroupsAreSortedEntries(items);
    DistinctKeysFacts(items);
    var gs := GroupsOf(items);
    forall x | x in items ensures exists g :: g in gs && g.date == DayKeyOf(x) {
      var p :| 0 <= p < |keys| && keys[p] == DayKeyOf(x);
      assert entries[p] in entries;
      var i :| 0 <= i < |sorted| && sorted[i] == entries[p];
      assert gs[i] in gs;
    }
  }

  /** Buckets run from the largest sort timestamp to the smallest. */
  lemma GroupsOrdered(items: seq<Item>)
    ensures var gs := GroupsOf(items);
            forall i, j :: 0 <= i < j < |gs| ==> SortTimestamp(gs[i].items) >= SortTimestamp(gs[j].items)
  {
    var entries := GroupEntries(DistinctKeys(items), items);
    var sorted := SortBy(entries, GroupLe);
    GroupsAreSortedEntries(items);
    EntriesFacts(items);
    var gs := GroupsOf(items);
    forall i, j | 0 <= i < j < |gs| ensures SortTimestamp(gs[i].items) >= SortTimestamp(gs[j].items) {
      assert GroupLe(sorted[i], sorted[j]);
      assert sorted[i] in entries && sorted[j] in entries;
    }
  }

  /** The bucket counts add up to the number of items. */
  lemma GroupsCountItems(items: seq<Item>)
    ensures SumOf(GroupsOf(items), CountOf) == |items|
  {
    var keys := DistinctKeys(items);
    var entries := GroupEntries(keys, items);
    DistinctKeysFacts(items);
    FinishCounts(SortBy(entries, GroupLe));
    SortBySumOf(entries, GroupLe, ItemCount);
    CoverCount(keys, items);
  }
}
