/**
 * `Array.prototype.sort(compare)` with a consistent comparator. The sort is
 * stable, so its result is fixed by the comparator alone; it is modelled as
 * the insertion sort below, with `le(a, b)` standing for `compare(a, b) <= 0`.
 */
module Sorting {

  /** `le` is total and transitive: the comparator is consistent. */
  ghost predicate TotalPreorder<T(!new)>(le: (T, T) -> bool) {
    (forall a, b :: le(a, b) || le(b, a)) &&
    (forall a, b, c :: le(a, b) && le(b, c) ==> le(a, c))
  }

  predicate SortedBy<T>(s: seq<T>, le: (T, T) -> bool) {
    forall i, j :: 0 <= i < j < |s| ==> le(s[i], s[j])
  }

  predicate Equivalent<T>(le: (T, T) -> bool, a: T, b: T) {
    le(a, b) && le(b, a)
  }

  /** Places `x` before the first element it does not exceed. */
  function Insert<T>(x: T, s: seq<T>, le: (T, T) -> bool): seq<T> {
    if s == [] || le(x, s[0]) then [x] + s else [s[0]] + Insert(x, s[1..], le)
  }

  /** The stable sort of `s` by `le`. */
  function SortBy<T>(s: seq<T>, le: (T, T) -> bool): seq<T> {
    if s == [] then [] else Insert(s[0], SortBy(s[1..], le), le)
  }

  /** The elements of `s` equivalent to `e`, in their order in `s`. */
  function ClassOf<T>(s: seq<T>, le: (T, T) -> bool, e: T): seq<T> {
    if s == [] then []
    else (if Equivalent(le, s[0], e) then [s[0]] else []) + ClassOf(s[1..], le, e)
  }

  lemma {:induction false} InsertPermutation<T>(x: T, s: seq<T>, le: (T, T) -> bool)
    ensures multiset(Insert(x, s, le)) == multiset(s) + multiset{x}
    ensures |Insert(x, s, le)| == |s| + 1
  {
    if s != [] && !le(x, s[0]) {
      InsertPermutation(x, s[1..], le);
      assert s == [s[0]] + s[1..];
    }
  }

  /** Sorting only reorders: same elements, same multiplicities. */
  lemma {:induction false} SortByPermutation<T>(s: seq<T>, le: (T, T) -> bool)
    ensures multiset(SortBy(s, le)) == multiset(s)
    ensures |SortBy(s, le)| == |s|
  {
    if s != [] {
      SortByPermutation(s[1..], le);
      InsertPermutation(s[0], SortBy(s[1..], le), le);
      assert s == [s[0]] + s[1..];
    }
  }

  lemma SortByMember<T>(s: seq<T>, le: (T, T) -> bool, x: T)
    ensures x in SortBy(s, le) <==> x in s
  {
    SortByPermutation(s, le);
    assert x in SortBy(s, le) <==> x in multiset(SortBy(s, le));
    assert x in s <==> x in multiset(s);
  }

  /** `le` is total and transitive on the elements of `s`. */
  ghost predicate ConsistentOn<T>(s: seq<T>, le: (T, T) -> bool) {
    (forall a, b | a in s && b in s :: le(a, b) || le(b, a)) &&
    (forall a, b, c | a in s && b in s && c in s :: le(a, b) && le(b, c) ==> le(a, c))
  }

  lemma ConsistentEverywhere<T(!new)>(s: seq<T>, le: (T, T) -> bool)
    requires TotalPreorder(le)
    ensures ConsistentOn(s, le)
  {
  }

  lemma ConsistentOnSubset<T>(s: seq<T>, t: seq<T>, le: (T, T) -> bool)
    requires ConsistentOn(s, le)
    requires forall x :: x in t ==> x in s
    ensures ConsistentOn(t, le)
  {
  }

  lemma {:induction false} InsertSorted<T>(x: T, s: seq<T>, le: (T, T) -> bool)
    requires ConsistentOn([x] + s, le) && SortedBy(s, le)
    ensures SortedBy(Insert(x, s, le), le)
  {
    if s != [] && !le(x, s[0]) {
      var rest := Insert(x, s[1..], le);
      assert s[0] in [x] + s && x in [x] + s;
      ConsistentOnSubset([x] + s, [x] + s[1..], le);
      InsertSorted(x, s[1..], le);
      InsertPermutation(x, s[1..], le);
      forall j | 0 <= j < |rest| ensures le(s[0], rest[j]) {
        assert rest[j] in multiset(rest);
        if rest[j] != x {
          assert rest[j] in s[1..];
          assert rest[j] in [x] + s;
        }
      }
    } else if s != [] {
      forall j | 0 <= j < |s| ensures le(x, s[j]) {
        assert x in [x] + s && s[0] in [x] + s && s[j] in [x] + s;
      }
    }
  }

  /** With a comparator consistent on the input, the result is in order. */
  lemma {:induction false} SortBySorted<T>(s: seq<T>, le: (T, T) -> bool)
    requires ConsistentOn(s, le)
    ensures SortedBy(SortBy(s, le), le)
  {
    if s != [] {
      ConsistentOnSubset(s, s[1..], le);
      SortBySorted(s[1..], le);
      forall x | x in [s[0]] + SortBy(s[1..], le) ensures x in s {
        if x != s[0] {
          assert x in SortBy(s[1..], le);
          SortByMember(s[1..], le, x);
        }
      }
      ConsistentOnSubset(s, [s[0]] + SortBy(s[1..], le), le);
      InsertSorted(s[0], SortBy(s[1..], le), le);
    }
  }

  lemma ClassOfCons<T>(x: T, s: seq<T>, le: (T, T) -> bool, e: T)
    ensures ClassOf([x] + s, le, e) == (if Equivalent(le, x, e) then [x] else []) + ClassOf(s, le, e)
  {
    assert ([x] + s)[0] == x && ([x] + s)[1..] == s;
  }

  lemma {:induction false} InsertClass<T>(x: T, s: seq<T>, le: (T, T) -> bool, e: T)
    requires ConsistentOn([x, e] + s, le) && SortedBy(s, le)
    ensures ClassOf(Insert(x, s, le), le, e)
      == (if Equivalent(le, x, e) then [x] else []) + ClassOf(s, le, e)
  {
    if s == [] || le(x, s[0]) {
      ClassOfCons(x, s, le, e);
    } else {
      ConsistentDropThird(x, e, s, le);
      InsertClass(x, s[1..], le, e);
      if Equivalent(le, x, e) {
        PassedNotEquivalent(x, e, s[0], le, [x, e] + s);
      }
      ClassOfInsertStep(x, s, le, e);
    }
  }

  /** Passing over the head adds the head's share of the class in front of the rest. */
  lemma ClassOfInsertStep<T>(x: T, s: seq<T>, le: (T, T) -> bool, e: T)
    requires s != [] && !le(x, s[0])
    requires ClassOf(Insert(x, s[1..], le), le, e)
      == (if Equivalent(le, x, e) then [x] else []) + ClassOf(s[1..], le, e)
    requires Equivalent(le, x, e) ==> !Equivalent(le, s[0], e)
    ensures ClassOf(Insert(x, s, le), le, e)
      == (if Equivalent(le, x, e) then [x] else []) + ClassOf(s, le, e)
  {
    var t := s[1..];
    assert s == [s[0]] + t;
    assert Insert(x, s, le) == [s[0]] + Insert(x, t, le);
    ClassOfCons(s[0], Insert(x, t, le), le, e);
    ClassOfCons(s[0], t, le, e);
    var head := if Equivalent(le, s[0], e) then [s[0]] else [];
    var own := if Equivalent(le, x, e) then [x] else [];
    var rest := ClassOf(t, le, e);
    assert ClassOf(Insert(x, s, le), le, e) == head + (own + rest);
    if own == [] {
      assert own + rest == rest;
      assert own + (head + rest) == head + rest;
    } else {
      assert head + (own + rest) == own + rest;
      assert head + rest == rest;
    }
  }

  lemma ConsistentDropThird<T>(x: T, e: T, s: seq<T>, le: (T, T) -> bool)
    requires ConsistentOn([x, e] + s, le) && s != []
    ensures ConsistentOn([x, e] + s[1..], le)
  {
    forall y | y in [x, e] + s[1..] ensures y in [x, e] + s {
      if y != x && y != e {
        assert y in s[1..];
      }
    }
    ConsistentOnSubset([x, e] + s, [x, e] + s[1..], le);
  }

  /** An element that `x` passes over is not equivalent to anything equivalent to `x`. */
  lemma PassedNotEquivalent<T>(x: T, e: T, y: T, le: (T, T) -> bool, u: seq<T>)
    requires ConsistentOn(u, le) && x in u && e in u && y in u
    requires !le(x, y) && Equivalent(le, x, e)
    ensures !Equivalent(le, y, e)
  {
  }

  /**
   * Stability: the elements the comparator cannot tell apart from `e` keep
   * their original relative order.
   */
  lemma {:induction false} SortByStable<T>(s: seq<T>, le: (T, T) -> bool, e: T)
    requires ConsistentOn([e] + s, le)
    ensures ClassOf(SortBy(s, le), le, e) == ClassOf(s, le, e)
  {
    if s != [] {
      ConsistentOnSubset([e] + s, [e] + s[1..], le);
      SortByStable(s[1..], le, e);
      ConsistentOnSubset([e] + s, s[1..], le);
      SortBySorted(s[1..], le);
      forall x | x in [s[0], e] + SortBy(s[1..], le) ensures x in [e] + s {
        if x != s[0] && x != e {
          assert x in SortBy(s[1..], le);
          SortByMember(s[1..], le, x);
        }
      }
      ConsistentOnSubset([e] + s, [s[0], e] + SortBy(s[1..], le), le);
      InsertClass(s[0], SortBy(s[1..], le), le, e);
    }
  }

  /** The sum of `f` over the elements of `s`. */
  function SumOf<T>(s: seq<T>, f: T -> int): int {
    if s == [] then 0 else f(s[0]) + SumOf(s[1..], f)
  }

  lemma {:induction false} InsertSumOf<T>(x: T, s: seq<T>, le: (T, T) -> bool, f: T -> int)
    ensures SumOf(Insert(x, s, le), f) == f(x) + SumOf(s, f)
  {
    var r := Insert(x, s, le);
    if s == [] || le(x, s[0]) {
      assert r[0] == x && r[1..] == s;
    } else {
      assert r[0] == s[0] && r[1..] == Insert(x, s[1..], le);
      InsertSumOf(x, s[1..], le, f);
    }
  }

  /** Reordering does not change a sum. */
  lemma {:induction false} SortBySumOf<T>(s: seq<T>, le: (T, T) -> bool, f: T -> int)
    ensures SumOf(SortBy(s, le), f) == SumOf(s, f)
  {
    if s != [] {
      SortBySumOf(s[1..], le, f);
      InsertSumOf(s[0], SortBy(s[1..], le), le, f);
    }
  }

  predicate Distinct<T(==)>(s: seq<T>) {
    forall i, j :: 0 <= i < j < |s| ==> s[i] != s[j]
  }

  lemma {:induction false} InsertDistinct<T>(x: T, s: seq<T>, le: (T, T) -> bool)
    requires Distinct(s) && x !in s
    ensures Distinct(Insert(x, s, le))
  {
    if s != [] && !le(x, s[0]) {
      var rest := Insert(x, s[1..], le);
      InsertDistinct(x, s[1..], le);
      InsertPermutation(x, s[1..], le);
      forall j | 0 <= j < |rest| ensures rest[j] != s[0] {
        assert rest[j] in multiset(rest);
        if rest[j] != x {
          assert rest[j] in s[1..];
          assert s[0] !in s[1..];
        }
      }
      assert Insert(x, s, le) == [s[0]] + rest;
    }
  }

  /** Sorting keeps distinct elements distinct. */
  lemma {:induction false} SortByDistinct<T>(s: seq<T>, le: (T, T) -> bool)
    requires Distinct(s)
    ensures Distinct(SortBy(s, le))
  {
    if s != [] {
      SortByDistinct(s[1..], le);
      SortByMember(s[1..], le, s[0]);
      InsertDistinct(s[0], SortBy(s[1..], le), le);
    }
  }
}
