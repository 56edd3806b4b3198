/**
 * The two walks over the parsed bookmarks tree (server/bookmarks.js): the
 * depth-first search for a folder by name, and the collection of every `url`
 * leaf beneath a folder with its breadcrumb of folder names.
 */
module BookmarkTree {
  import opened Options
  import opened Json
  import opened Seqs

  // ---------------------------------------------------------------------
  // findFolderByName

  /** `node.type === 'folder' && node.name === targetName`. */
  predicate IsTargetFolder(node: Json, target: string) {
    HasString(node, "type", "folder") && HasString(node, "name", target)
  }

  /** The position of a truthy `children` member of an object, or `|fields|`. */
  function ChildrenIndex(fields: seq<Field>): (k: nat)
    ensures k <= |fields|
    ensures k < |fields| ==> TruthyOpt(Get(JObj(fields), "children"))
                              && Get(JObj(fields), "children") == Some(fields[k].value)
    ensures k == |fields| ==> !TruthyOpt(Get(JObj(fields), "children"))
  {
    var i := FieldIndex(fields, "children");
    if i < |fields| && Truthy(fields[i].value) then i else |fields|
  }

  /**
   * The nodes the search examines, in the order it examines them: an array's
   * elements left to right; an object itself, then only its truthy `children`
   * if it has them, else each of its member values in order.
   */
  function Visit(node: Json): seq<Json>
    decreases node, 1
  {
    if !Truthy(node) then []
    else match node
      case JArr(xs) => VisitAll(xs)
      case JObj(fs) =>
        var k := ChildrenIndex(fs);
        [node] + (if k < |fs| then Visit(fs[k].value) else VisitValues(fs))
      case _ => []
  }

  function VisitAll(xs: seq<Json>): seq<Json>
    decreases xs, 0
  {
    if xs == [] then [] else VisitAll(xs[..|xs| - 1]) + Visit(xs[|xs| - 1])
  }

  function VisitValues(fs: seq<Field>): seq<Json>
    decreases fs, 0
  {
    if fs == [] then [] else VisitValues(fs[..|fs| - 1]) + Visit(fs[|fs| - 1].value)
  }

  /** The first examined node that is the target folder. */
  function FirstMatch(s: seq<Json>, target: string): Option<Json> {
    if s == [] then None
    else if IsTargetFolder(s[0], target) then Some(s[0])
    else FirstMatch(s[1..], target)
  }

  /**
   * `findFolderByName(node, targetName)`: the first target folder in a depth-first,
   * left-to-right search (None is `null`).
   */
  method FindFolderByName(node: Json, target: string) returns (found: Option<Json>)
    ensures found == FirstMatch(Visit(node), target)
    decreases node, 1
  {
    if !Truthy(node) {
      return None;
    }
    if node.JArr? {
      found := FindInArray(node.elems, target);
      return;
    }
    if IsTargetFolder(node, target) {
      return Some(node);
    }
    if !node.JObj? {
      return None;
    }
    var fs := node.fields;
    var k := ChildrenIndex(fs);
    if k < |fs| {
      found := FindFolderByName(fs[k].value, target);
      return;
    }
    found := FindInValues(fs, target);
  }

  /** The loop over the children of an array node, stopping at the first find. */
  method FindInArray(xs: seq<Json>, target: string) returns (found: Option<Json>)
    ensures found == FirstMatch(VisitAll(xs), target)
    decreases xs, 0
  {
    var i := 0;
    while i < |xs|
      invariant 0 <= i <= |xs|
      invariant FirstMatch(VisitAll(xs[..i]), target) == None
    {
      var r := FindFolderByName(xs[i], target);
      assert xs[..i + 1][..i] == xs[..i];
      FirstMatchConcat(VisitAll(xs[..i]), Visit(xs[i]), target);
      if r.Some? {
        PrefixMatch(xs, i + 1, target);
        return r;
      }
      i := i + 1;
    }
    assert xs[..i] == xs;
    return None;
  }

  /**
   * The loop over `Object.values(node)` of an object without truthy
   * `children`; values that are not arrays or objects are skipped.
   */
  method FindInValues(fs: seq<Field>, target: string) returns (found: Option<Json>)
    ensures found == FirstMatch(VisitValues(fs), target)
    decreases fs, 0
  {
    var i := 0;
    while i < |fs|
      invariant 0 <= i <= |fs|
      invariant FirstMatch(VisitValues(fs[..i]), target) == None
    {
      var value := fs[i].value;
      assert fs[..i + 1][..i] == fs[..i];
      FirstMatchConcat(VisitValues(fs[..i]), Visit(value), target);
      if Truthy(value) && (value.JArr? || value.JObj?) {
        var r := FindFolderByName(value, target);
        if r.Some? {
          PrefixMatchValues(fs, i + 1, target);
          return r;
        }
      }
      i := i + 1;
    }
    assert fs[..i] == fs;
    return None;
  }

  lemma {:induction false} FirstMatchConcat(a: seq<Json>, b: seq<Json>, target: string)
    ensures FirstMatch(a + b, target)
         == if FirstMatch(a, target).Some? then FirstMatch(a, target) else FirstMatch(b, target)
  {
    if a != [] {
      assert (a + b)[0] == a[0] && (a + b)[1..] == a[1..] + b;
      FirstMatchConcat(a[1..], b, target);
    } else {
      assert a + b == b;
    }
  }

  /** A match among the first `n` elements of an array is the array's first match. */
  lemma {:induction false} PrefixMatch(xs: seq<Json>, n: nat, target: string)
    requires n <= |xs| && FirstMatch(VisitAll(xs[..n]), target).Some?
    ensures FirstMatch(VisitAll(xs), target) == FirstMatch(VisitAll(xs[..n]), target)
    decreases |xs| - n
  {
    if n < |xs| {
      assert xs[..n + 1][..n] == xs[..n];
      FirstMatchConcat(VisitAll(xs[..n]), Visit(xs[n]), target);
      PrefixMatch(xs, n + 1, target);
    } else {
      assert xs[..n] == xs;
    }
  }

  lemma {:induction false} PrefixMatchValues(fs: seq<Field>, n: nat, target: string)
    requires n <= |fs| && FirstMatch(VisitValues(fs[..n]), target).Some?
    ensures FirstMatch(VisitValues(fs), target) == FirstMatch(VisitValues(fs[..n]), target)
    decreases |fs| - n
  {
    if n < |fs| {
      assert fs[..n + 1][..n] == fs[..n];
      FirstMatchConcat(VisitValues(fs[..n]), Visit(fs[n].value), target);
      PrefixMatchValues(fs, n + 1, target);
    } else {
      assert fs[..n] == fs;
    }
  }

  /** What the search returns is a folder of the wanted name, and one it examined. */
  lemma {:induction false} FirstMatchIsTarget(s: seq<Json>, target: string)
    ensures FirstMatch(s, target).Some? ==>
      IsTargetFolder(FirstMatch(s, target).value, target) && FirstMatch(s, target).value in s
    ensures FirstMatch(s, target).None? <==> forall x :: x in s ==> !IsTargetFolder(x, target)
  {
    if s != [] {
      FirstMatchIsTarget(s[1..], target);
      assert forall x :: x in s <==> x == s[0] || x in s[1..];
    }
  }

  /** Of the examined nodes, the result is the earliest target folder. */
  lemma {:induction false} FirstMatchIsEarliest(s: seq<Json>, target: string, i: nat)
    requires i < |s| && IsTargetFolder(s[i], target)
    ensures FirstMatch(s, target).Some?
    ensures exists j :: 0 <= j <= i && FirstMatch(s, target) == Some(s[j])
                        && forall l :: 0 <= l < j ==> !IsTargetFolder(s[l], target)
  {
    if !IsTargetFolder(s[0], target) {
      FirstMatchIsEarliest(s[1..], target, i - 1);
      var j :| 0 <= j <= i - 1 && FirstMatch(s[1..], target) == Some(s[1..][j])
               && forall l :: 0 <= l < j ==> !IsTargetFolder(s[1..][l], target);
      assert FirstMatch(s, target) == Some(s[j + 1]);
      forall l | 0 <= l < j + 1 ensures !IsTargetFolder(s[l], target) {
        if l > 0 {
          assert s[l] == s[1..][l - 1];
        }
      }
    }
  }

  /** Every examined node is an object: only objects can be the answer. */
  lemma {:induction false} VisitedAreObjects(node: Json)
    ensures forall x :: x in Visit(node) ==> x.JObj?
    decreases node, 1
  {
    if Truthy(node) {
      match node
      case JArr(xs) => VisitAllObjects(xs);
      case JObj(fs) =>
        var k := ChildrenIndex(fs);
        if k < |fs| {
          VisitedAreObjects(fs[k].value);
        } else {
          VisitValuesObjects(fs);
        }
      case _ =>
    }
  }

  lemma {:induction false} VisitAllObjects(xs: seq<Json>)
    ensures forall x :: x in VisitAll(xs) ==> x.JObj?
    decreases xs, 0
  {
    if xs != [] {
      VisitAllObjects(xs[..|xs| - 1]);
      VisitedAreObjects(xs[|xs| - 1]);
    }
  }

  lemma {:induction false} VisitValuesObjects(fs: seq<Field>)
    ensures forall x :: x in VisitValues(fs) ==> x.JObj?
    decreases fs, 0
  {
    if fs != [] {
      VisitValuesObjects(fs[..|fs| - 1]);
      VisitedAreObjects(fs[|fs| - 1].value);
    }
  }

  /** A folder named `target` with no other members. */
  function SampleFolder(target: string): Json {
    JObj([Field("type", JStr("folder")), Field("name", JStr(target))])
  }

  lemma VisitSampleFolder(target: string)
    ensures Visit(SampleFolder(target)) == [SampleFolder(target)]
  {
    var fs := SampleFolder(target).fields;
    assert FieldIndex(fs, "children") == 2 by {
      assert fs[0].key != "children" && fs[1].key != "children";
      assert FieldIndex(fs[2..], "children") == 0;
    }
    assert VisitValues(fs[..1]) == [] by {
      assert fs[..1][..0] == [];
      assert VisitValues(fs[..1][..0]) == [];
    }
    assert fs[..2 - 1] == fs[..1];
    assert VisitValues(fs) == [];
  }

  /**
   * An object is either the answer itself or, with truthy `children`, the
   * answer of the search through `children` alone; without them, the first
   * answer among its member values.
   */
  lemma ChildrenDecideSearch(fs: seq<Field>, target: string)
    ensures var node := JObj(fs);
            var k := ChildrenIndex(fs);
            FirstMatch(Visit(node), target)
              == if IsTargetFolder(node, target) then Some(node)
                 else if k < |fs| then FirstMatch(Visit(fs[k].value), target)
                 else FirstMatch(VisitValues(fs), target)
  {
    var node := JObj(fs);
    var k := ChildrenIndex(fs);
    var rest := if k < |fs| then Visit(fs[k].value) else VisitValues(fs);
    assert Visit(node) == [node] + rest;
    assert ([node] + rest)[0] == node && ([node] + rest)[1..] == rest;
  }

  /** Replacing one member's value leaves the lookup of every other key where it was. */
  lemma {:induction false} FieldIndexReplace(fs: seq<Field>, i: nat, v: Json, key: string)
    requires i < |fs| && fs[i].key != key
    ensures FieldIndex(fs[i := Field(fs[i].key, v)], key) == FieldIndex(fs, key)
  {
    var fs' := fs[i := Field(fs[i].key, v)];
    if fs != [] && fs[0].key != key {
      if i > 0 {
        assert fs'[1..] == fs[1..][i - 1 := Field(fs[i].key, v)];
        FieldIndexReplace(fs[1..], i - 1, v, key);
      } else {
        assert fs'[1..] == fs[1..];
      }
    }
  }

  /**
   * With truthy `children`, the members other than `children`, `type` and
   * `name` do not matter: replacing any one's value leaves the answer as it
   * was, unless the object is the answer itself (and then it is the changed object).
   */
  lemma ChildrenShadowOtherKeys(fs: seq<Field>, target: string, i: nat, v: Json)
    requires ChildrenIndex(fs) < |fs| && i < |fs|
    requires fs[i].key != "children" && fs[i].key != "type" && fs[i].key != "name"
    ensures var changed := JObj(fs[i := Field(fs[i].key, v)]);
            FirstMatch(Visit(changed), target)
              == if IsTargetFolder(JObj(fs), target) then Some(changed) else FirstMatch(Visit(JObj(fs)), target)
  {
    var fs' := fs[i := Field(fs[i].key, v)];
    var k := ChildrenIndex(fs);
    GetReplace(fs, i, v, "children");
    GetReplace(fs, i, v, "type");
    GetReplace(fs, i, v, "name");
    FieldIndexReplace(fs, i, v, "children");
    assert k == FieldIndex(fs, "children") && k != i;
    assert ChildrenIndex(fs') == k && fs'[k] == fs[k];
    assert IsTargetFolder(JObj(fs'), target) == IsTargetFolder(JObj(fs), target);
    ChildrenDecideSearch(fs, target);
    ChildrenDecideSearch(fs', target);
  }

  lemma GetReplace(fs: seq<Field>, i: nat, v: Json, key: string)
    requires i < |fs| && fs[i].key != key
    ensures Get(JObj(fs[i := Field(fs[i].key, v)]), key) == Get(JObj(fs), key)
  {
    var fs' := fs[i := Field(fs[i].key, v)];
    FieldIndexReplace(fs, i, v, key);
    var j := FieldIndex(fs, key);
    if j < |fs| {
      assert j != i && fs'[j] == fs[j];
    }
  }

  /**
   * For example, a target folder under another key of an object with truthy
   * `children` is not found, while the same folder is found when `children`
   * is absent.
   */
  lemma ChildrenShadowExample(target: string)
    ensures FirstMatch(Visit(JObj([Field("children", JArr([])), Field("other", SampleFolder(target))])), target) == None
    ensures FirstMatch(Visit(JObj([Field("other", SampleFolder(target))])), target) == Some(SampleFolder(target))
  {
    ShadowedByChildren(target);
    FoundWithoutChildren(target);
  }

  lemma ShadowedByChildren(target: string)
    ensures FirstMatch(Visit(JObj([Field("children", JArr([])), Field("other", SampleFolder(target))])), target) == None
  {
    var node := JObj([Field("children", JArr([])), Field("other", SampleFolder(target))]);
    assert ChildrenIndex(node.fields) == 0;
    assert Visit(JArr([])) == [];
    assert Visit(node) == [node];
    assert !IsTargetFolder(node, target);
  }

  lemma FoundWithoutChildren(target: string)
    ensures FirstMatch(Visit(JObj([Field("other", SampleFolder(target))])), target) == Some(SampleFolder(target))
  {
    var folder := SampleFolder(target);
    var other := JObj([Field("other", folder)]);
    assert ChildrenIndex(other.fields) == 1 by {
      OnlyOtherKey(folder, "children");
    }
    assert VisitValues(other.fields) == [folder] by {
      VisitSampleFolder(target);
      assert other.fields[..0] == [];
    }
    assert Visit(other) == [other, folder];
    assert !IsTargetFolder(other, target) by {
      OnlyOtherKey(folder, "type");
    }
    assert FirstMatch([folder], target) == Some(folder) by {
      assert IsTargetFolder(folder, target);
    }
    assert [other, folder][1..] == [folder];
  }

  lemma OnlyOtherKey(value: Json, key: string)
    requires key != "other"
    ensures FieldIndex([Field("other", value)], key) == 1
  {
    assert FieldIndex([Field("other", value)][1..], key) == 0;
  }

  // ---------------------------------------------------------------------
  // collectUrlEntries

  /** A collected leaf and the names of its enclosing folders, outermost first. */
  datatype UrlEntry = UrlEntry(entry: Json, parents: seq<Json>)

  /** The shared output array the collection appends to. */
  class Bucket {
    var entries: seq<UrlEntry>

    constructor ()
      ensures entries == []
    {
      entries := [];
    }

    /** `bucket.push(e)`. */
    method Push(e: UrlEntry)
      modifies this
      ensures entries == old(entries) + [e]
    {
      entries := entries + [e];
    }
  }

  /** `entry.name ? [...parentChain, entry.name] : parentChain`. */
  function NextParents(entry: Json, parents: seq<Json>): seq<Json> {
    var name := Get(entry, "name");
    if TruthyOpt(name) then parents + [name.value] else parents
  }

  /** The index of an array-valued `children` member of a folder, or `|fields|`. */
  function ArrayChildrenIndex(fields: seq<Field>): (k: nat)
    ensures k <= |fields|
    ensures k < |fields| ==> fields[k].value.JArr? && Get(JObj(fields), "children") == Some(fields[k].value)
    ensures k == |fields| ==> !(Get(JObj(fields), "children").Some? && Get(JObj(fields), "children").value.JArr?)
  {
    var i := FieldIndex(fields, "children");
    if i < |fields| && fields[i].value.JArr? then i else |fields|
  }

  /** What one array element contributes. */
  function CollectOne(entry: Json, parents: seq<Json>): seq<UrlEntry>
    decreases entry, 0
  {
    if !Truthy(entry) then []
    else if HasString(entry, "type", "url") then [UrlEntry(entry, parents)]
    else if HasString(entry, "type", "folder") && entry.JObj?
            && ArrayChildrenIndex(entry.fields) < |entry.fields| then
      CollectList(entry.fields[ArrayChildrenIndex(entry.fields)].value.elems, NextParents(entry, parents))
    else []
  }

  function CollectList(xs: seq<Json>, parents: seq<Json>): seq<UrlEntry>
    decreases xs, 1
  {
    if xs == [] then [] else CollectList(xs[..|xs| - 1], parents) + CollectOne(xs[|xs| - 1], parents)
  }

  /** What `collectUrlEntries(nodes, parents, bucket)` appends to the bucket. */
  function CollectTop(nodes: Json, parents: seq<Json>): seq<UrlEntry>
    decreases nodes, 1
  {
    if !Truthy(nodes) then []
    else if nodes.JArr? then CollectList(nodes.elems, parents)
    else CollectOne(nodes, parents)
  }

  /**
   * `collectUrlEntries(nodes, parentChain, bucket)`. A non-array `nodes` is
   * handled as the one-element array `[nodes]`, whose only iteration is
   * CollectEntry.
   */
  method CollectUrlEntries(nodes: Json, parents: seq<Json>, bucket: Bucket)
    modifies bucket
    ensures bucket.entries == old(bucket.entries) + CollectTop(nodes, parents)
    decreases nodes, 1
  {
    if !Truthy(nodes) {
      return;
    }
    if !nodes.JArr? {
      CollectEntry(nodes, parents, bucket);
      return;
    }
    CollectArray(nodes.elems, parents, bucket);
  }

  /** The loop over the elements of an array `nodes`. */
  method CollectArray(xs: seq<Json>, parents: seq<Json>, bucket: Bucket)
    modifies bucket
    ensures bucket.entries == old(bucket.entries) + CollectList(xs, parents)
    decreases xs, 2
  {
    var i := 0;
    while i < |xs|
      invariant 0 <= i <= |xs|
      invariant bucket.entries == old(bucket.entries) + CollectList(xs[..i], parents)
    {
      CollectEntry(xs[i], parents, bucket);
      CollectListStep(xs, i, parents);
      AppendAssoc(old(bucket.entries), CollectList(xs[..i], parents), CollectOne(xs[i], parents));
      i := i + 1;
    }
    CollectListStep(xs, i, parents);
  }

  /** One iteration of the loop over `nodes`. */
  method CollectEntry(entry: Json, parents: seq<Json>, bucket: Bucket)
    modifies bucket
    ensures bucket.entries == old(bucket.entries) + CollectOne(entry, parents)
    decreases entry, 0
  {
    if !Truthy(entry) {
      return;
    }
    if HasString(entry, "type", "url") {
      bucket.Push(UrlEntry(entry, parents));
      return;
    }
    if HasString(entry, "type", "folder") && entry.JObj? {
      var k := ArrayChildrenIndex(entry.fields);
      if k < |entry.fields| {
        CollectUrlEntries(entry.fields[k].value, NextParents(entry, parents), bucket);
      }
    }
  }

  lemma CollectListSnoc(xs: seq<Json>, x: Json, parents: seq<Json>)
    ensures CollectList(xs + [x], parents) == CollectList(xs, parents) + CollectOne(x, parents)
  {
    var c := xs + [x];
    assert c[..|c| - 1] == xs && c[|c| - 1] == x;
  }

  /** The loop's step: the first `i + 1` elements collect what the first `i` do, then element `i`. */
  lemma CollectListStep(xs: seq<Json>, i: nat, parents: seq<Json>)
    requires i <= |xs|
    ensures i == |xs| ==> xs[..i] == xs
    ensures i < |xs| ==> CollectList(xs[..i + 1], parents) == CollectList(xs[..i], parents) + CollectOne(xs[i], parents)
  {
    if i < |xs| {
      assert xs[..i + 1] == xs[..i] + [xs[i]];
      CollectListSnoc(xs[..i], xs[i], parents);
    }
  }

  /** Collecting over a concatenation is concatenating the collections: pre-order. */
  lemma {:induction false} CollectListConcat(a: seq<Json>, b: seq<Json>, parents: seq<Json>)
    ensures CollectList(a + b, parents) == CollectList(a, parents) + CollectList(b, parents)
    decreases |b|
  {
    if b == [] {
      assert a + b == a;
    } else {
      var b', x := b[..|b| - 1], b[|b| - 1];
      assert b == b' + [x];
      assert a + b == (a + b') + [x];
      CollectListConcat(a, b', parents);
      CollectListSnoc(a + b', x, parents);
      CollectListSnoc(b', x, parents);
      AppendAssoc(CollectList(a, parents), CollectList(b', parents), CollectOne(x, parents));
    }
  }

  /** A well-formed collected entry: a url leaf whose breadcrumb extends `parents` by truthy names. */
  predicate CollectedFrom(e: UrlEntry, parents: seq<Json>) {
    Truthy(e.entry) && HasString(e.entry, "type", "url")
    && |parents| <= |e.parents| && e.parents[..|parents|] == parents
    && forall k :: |parents| <= k < |e.parents| ==> Truthy(e.parents[k])
  }

  lemma CollectedFromExtend(e: UrlEntry, parents: seq<Json>, entry: Json)
    requires CollectedFrom(e, NextParents(entry, parents))
    ensures CollectedFrom(e, parents)
  {
    var next := NextParents(entry, parents);
    assert e.parents[..|parents|] == e.parents[..|next|][..|parents|];
  }

  /** Every collected entry is a `url` leaf carrying the breadcrumb of truthy folder names above it. */
  lemma {:induction false} CollectOneWellFormed(entry: Json, parents: seq<Json>)
    ensures forall e :: e in CollectOne(entry, parents) ==> CollectedFrom(e, parents)
    decreases entry, 0
  {
    if Truthy(entry) && !HasString(entry, "type", "url") && HasString(entry, "type", "folder")
       && entry.JObj? && ArrayChildrenIndex(entry.fields) < |entry.fields| {
      var cs := entry.fields[ArrayChildrenIndex(entry.fields)].value.elems;
      var next := NextParents(entry, parents);
      CollectListWellFormed(cs, next);
      forall e | e in CollectOne(entry, parents) ensures CollectedFrom(e, parents) {
        CollectedFromExtend(e, parents, entry);
      }
    }
  }

  lemma {:induction false} CollectListWellFormed(xs: seq<Json>, parents: seq<Json>)
    ensures forall e :: e in CollectList(xs, parents) ==> CollectedFrom(e, parents)
    decreases xs, 1
  {
    if xs != [] {
      CollectListWellFormed(xs[..|xs| - 1], parents);
      CollectOneWellFormed(xs[|xs| - 1], parents);
    }
  }

  lemma CollectTopWellFormed(nodes: Json, parents: seq<Json>)
    ensures forall e :: e in CollectTop(nodes, parents) ==> CollectedFrom(e, parents)
  {
    if Truthy(nodes) {
      if nodes.JArr? {
        CollectListWellFormed(nodes.elems, parents);
      } else {
        CollectOneWellFormed(nodes, parents);
      }
    }
  }

  // ---------------------------------------------------------------------
  // Breadcrumbs along the folders walked

  /** A node the collection descends into: a truthy non-url `folder` object with an array `children`. */
  predicate IsWalkedFolder(node: Json) {
    Truthy(node) && !HasString(node, "type", "url") && HasString(node, "type", "folder")
    && node.JObj? && ArrayChildrenIndex(node.fields) < |node.fields|
  }

  function WalkedChildren(node: Json): seq<Json>
    requires IsWalkedFolder(node)
  {
    node.fields[ArrayChildrenIndex(node.fields)].value.elems
  }

  /** The breadcrumb after descending through `folders`, outermost first: each truthy name appended in turn. */
  function Crumbs(folders: seq<Json>, parents: seq<Json>): seq<Json>
    decreases |folders|
  {
    if folders == [] then parents else Crumbs(folders[1..], NextParents(folders[0], parents))
  }

  /**
   * `folders` is a chain of walked folders that starts at `entry`, each a
   * child of the one before, and `leaf` is a child of the last one; with no
   * folders, `leaf` is `entry` itself.
   */
  predicate Descends(entry: Json, folders: seq<Json>, leaf: Json) {
    if folders == [] then leaf == entry
    else
      (folders[0] == entry
       && (forall k :: 0 <= k < |folders| ==> IsWalkedFolder(folders[k]))
       && (forall k :: 0 <= k < |folders| - 1 ==> folders[k + 1] in WalkedChildren(folders[k]))
       && leaf in WalkedChildren(folders[|folders| - 1]))
  }

  /** `e` was reached from one of `xs` through some chain of folders, and its breadcrumb names exactly that chain. */
  ghost predicate ReachedFrom(xs: seq<Json>, e: UrlEntry, parents: seq<Json>) {
    exists x, folders :: x in xs && Descends(x, folders, e.entry) && e.parents == Crumbs(folders, parents)
  }

  /** Stepping into a walked folder puts it at the head of the chain. */
  lemma DescendsCons(entry: Json, x: Json, folders: seq<Json>, leaf: Json, parents: seq<Json>)
    requires IsWalkedFolder(entry) && x in WalkedChildren(entry) && Descends(x, folders, leaf)
    ensures Descends(entry, [entry] + folders, leaf)
    ensures Crumbs([entry] + folders, parents) == Crumbs(folders, NextParents(entry, parents))
  {
    var f := [entry] + folders;
    assert f[1..] == folders;
    if folders != [] {
      forall k | 0 <= k < |f| ensures IsWalkedFolder(f[k]) {
        if k > 0 {
          assert f[k] == folders[k - 1];
        }
      }
      forall k | 0 <= k < |f| - 1 ensures f[k + 1] in WalkedChildren(f[k]) {
        if k > 0 {
          assert f[k] == folders[k - 1] && f[k + 1] == folders[k];
        }
      }
      assert f[|f| - 1] == folders[|folders| - 1];
    }
  }

  /**
   * Every entry one element contributes is a `url` leaf reached from that
   * element through a chain of folders, and its breadcrumb is `parents`
   * followed by the truthy names of those folders, outermost first.
   */
  lemma {:induction false} CollectOneBreadcrumb(entry: Json, parents: seq<Json>)
    ensures forall e :: e in CollectOne(entry, parents) ==>
              HasString(e.entry, "type", "url") && ReachedFrom([entry], e, parents)
    decreases entry, 0
  {
    if Truthy(entry) && HasString(entry, "type", "url") {
      forall e | e in CollectOne(entry, parents)
        ensures HasString(e.entry, "type", "url") && ReachedFrom([entry], e, parents)
      {
        assert Descends(entry, [], e.entry) && e.parents == Crumbs([], parents);
      }
    } else if IsWalkedFolder(entry) {
      var cs := WalkedChildren(entry);
      var next := NextParents(entry, parents);
      CollectListBreadcrumb(cs, next);
      forall e | e in CollectOne(entry, parents)
        ensures HasString(e.entry, "type", "url") && ReachedFrom([entry], e, parents)
      {
        var x, folders :| x in cs && Descends(x, folders, e.entry) && e.parents == Crumbs(folders, next);
        DescendsCons(entry, x, folders, e.entry, parents);
        assert entry in [entry] && Descends(entry, [entry] + folders, e.entry);
      }
    }
  }

  lemma {:induction false} CollectListBreadcrumb(xs: seq<Json>, parents: seq<Json>)
    ensures forall e :: e in CollectList(xs, parents) ==>
              HasString(e.entry, "type", "url") && ReachedFrom(xs, e, parents)
    decreases xs, 1
  {
    if xs != [] {
      var init, last := xs[..|xs| - 1], xs[|xs| - 1];
      CollectListBreadcrumb(init, parents);
      CollectOneBreadcrumb(last, parents);
      forall e | e in CollectList(xs, parents)
        ensures HasString(e.entry, "type", "url") && ReachedFrom(xs, e, parents)
      {
        if e in CollectList(init, parents) {
          var x, folders :| x in init && Descends(x, folders, e.entry) && e.parents == Crumbs(folders, parents);
          assert x in xs;
        } else {
          var x, folders :| x in [last] && Descends(x, folders, e.entry) && e.parents == Crumbs(folders, parents);
          assert x in xs;
        }
      }
    }
  }

  /** The elements `collectUrlEntries(nodes, …)` iterates over: an array's, or the lone node. */
  function TopLevel(nodes: Json): seq<Json> {
    if nodes.JArr? then nodes.elems else [nodes]
  }

  /** Every collected entry names, in order, the folders between the top-level node it came from and itself. */
  lemma CollectTopBreadcrumb(nodes: Json, parents: seq<Json>)
    ensures forall e :: e in CollectTop(nodes, parents) ==>
              HasString(e.entry, "type", "url") && ReachedFrom(TopLevel(nodes), e, parents)
  {
    if Truthy(nodes) {
      if nodes.JArr? {
        CollectListBreadcrumb(nodes.elems, parents);
      } else {
        CollectOneBreadcrumb(nodes, parents);
      }
    }
  }

  /** Below the head of a chain of two or more folders, the rest is a chain from the second. */
  lemma DescendsTail(x: Json, folders: seq<Json>, leaf: Json)
    requires |folders| >= 2 && Descends(x, folders, leaf)
    ensures folders[1] in WalkedChildren(x) && Descends(folders[1], folders[1..], leaf)
  {
    var t := folders[1..];
    forall k | 0 <= k < |t| ensures IsWalkedFolder(t[k]) {
      assert t[k] == folders[k + 1];
    }
    forall k | 0 <= k < |t| - 1 ensures t[k + 1] in WalkedChildren(t[k]) {
      assert t[k] == folders[k + 1] && t[k + 1] == folders[k + 2];
    }
    assert t[|t| - 1] == folders[|folders| - 1];
  }

  /**
   * Conversely, every `url` leaf reached from an element through a chain of
   * walked folders is collected, with the breadcrumb naming that chain.
   */
  lemma {:induction false} CollectOneComplete(x: Json, folders: seq<Json>, leaf: Json, parents: seq<Json>)
    requires Descends(x, folders, leaf) && Truthy(leaf) && HasString(leaf, "type", "url")
    ensures UrlEntry(leaf, Crumbs(folders, parents)) in CollectOne(x, parents)
    decreases |folders|, 0
  {
    if folders != [] {
      var cs := WalkedChildren(x);
      var next := NextParents(x, parents);
      assert CollectOne(x, parents) == CollectList(cs, next);
      assert Crumbs(folders, parents) == Crumbs(folders[1..], next);
      if |folders| == 1 {
        assert folders[1..] == [] && leaf in cs;
        CollectListComplete(cs, leaf, [], leaf, next);
      } else {
        DescendsTail(x, folders, leaf);
        CollectListComplete(cs, folders[1], folders[1..], leaf, next);
      }
    }
  }

  lemma {:induction false} CollectListComplete(xs: seq<Json>, x: Json, folders: seq<Json>, leaf: Json, parents: seq<Json>)
    requires x in xs && Descends(x, folders, leaf) && Truthy(leaf) && HasString(leaf, "type", "url")
    ensures UrlEntry(leaf, Crumbs(folders, parents)) in CollectList(xs, parents)
    decreases |folders|, |xs|
  {
    var e := UrlEntry(leaf, Crumbs(folders, parents));
    if x == xs[|xs| - 1] {
      CollectOneComplete(x, folders, leaf, parents);
      CollectListLast(xs, parents, e);
    } else {
      InInit(xs, x);
      CollectListComplete(xs[..|xs| - 1], x, folders, leaf, parents);
      CollectListInit(xs, parents, e);
    }
  }

  lemma InInit(xs: seq<Json>, x: Json)
    requires x in xs && x != xs[|xs| - 1]
    ensures x in xs[..|xs| - 1]
  {
    assert xs == xs[..|xs| - 1] + [xs[|xs| - 1]];
  }

  lemma CollectListLast(xs: seq<Json>, parents: seq<Json>, e: UrlEntry)
    requires xs != [] && e in CollectOne(xs[|xs| - 1], parents)
    ensures e in CollectList(xs, parents)
  {
  }

  lemma CollectListInit(xs: seq<Json>, parents: seq<Json>, e: UrlEntry)
    requires xs != [] && e in CollectList(xs[..|xs| - 1], parents)
    ensures e in CollectList(xs, parents)
  {
  }

  /** Every `url` leaf reachable from a top-level node is collected, with its breadcrumb. */
  lemma CollectTopComplete(nodes: Json, x: Json, folders: seq<Json>, leaf: Json, parents: seq<Json>)
    requires x in TopLevel(nodes) && Descends(x, folders, leaf) && Truthy(leaf) && HasString(leaf, "type", "url")
    ensures UrlEntry(leaf, Crumbs(folders, parents)) in CollectTop(nodes, parents)
  {
    if nodes.JArr? {
      CollectListComplete(nodes.elems, x, folders, leaf, parents);
    } else {
      CollectOneComplete(x, folders, leaf, parents);
    }
  }

  /** Falsy entries and folders whose `children` is not an array contribute nothing. */
  lemma SkippedEntries(entry: Json, parents: seq<Json>)
    requires !Truthy(entry)
          || (!HasString(entry, "type", "url")
              && !(Get(entry, "children").Some? && Get(entry, "children").value.JArr?))
    ensures CollectOne(entry, parents) == []
  {
  }
}
