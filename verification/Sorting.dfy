/**
 * Array.prototype.sort: a stable comparison sort.
 *
 * The comparator is a parameter, because the callers differ in whether theirs is a
 * consistent order. What the result is a permutation of never depends on that.
 */
module Sorting {
  import opened Prelude

  /** Puts `x` behind everything it does not have to precede. */
  function Insert<T>(cmp: (T, T) -> int, x: T, s: seq<T>): seq<T> {
    if s == [] then [x]
    else if cmp(s[|s| - 1], x) <= 0 then s + [x]
    else Insert(cmp, x, s[..|s| - 1]) + [s[|s| - 1]]
  }

  function Sort<T>(cmp: (T, T) -> int, s: seq<T>): seq<T> {
    if s == [] then [] else Insert(cmp, s[|s| - 1], Sort(cmp, s[..|s| - 1]))
  }

  /** `cmp` is a total preorder on the elements of `s`. */
  ghost predicate Consistent<T(!new)>(cmp: (T, T) -> int, s: seq<T>) {
    && (forall a, b :: a in s && b in s ==> cmp(a, b) <= 0 || cmp(b, a) <= 0)
    && (forall a, b, c :: a in s && b in s && c in s && cmp(a, b) <= 0 && cmp(b, c) <= 0 ==> cmp(a, c) <= 0)
  }

  ghost predicate Sorted<T>(cmp: (T, T) -> int, s: seq<T>) {
    forall i, j :: 0 <= i < j < |s| ==> cmp(s[i], s[j]) <= 0
  }

  lemma {:induction false} InsertPermutes<T>(cmp: (T, T) -> int, x: T, s: seq<T>)
    ensures multiset(Insert(cmp, x, s)) == multiset(s) + multiset{x}
  {
    if s != [] && cmp(s[|s| - 1], x) > 0 {
      InsertPermutes(cmp, x, s[..|s| - 1]);
      LastSplit(s);
    }
  }

  lemma {:induction false} SortPermutes<T>(cmp: (T, T) -> int, s: seq<T>)
    ensures multiset(Sort(cmp, s)) == multiset(s)
  {
    if s != [] {
      SortPermutes(cmp, s[..|s| - 1]);
      InsertPermutes(cmp, s[|s| - 1], Sort(cmp, s[..|s| - 1]));
      LastSplit(s);
    }
  }

  lemma SortMembers<T>(cmp: (T, T) -> int, s: seq<T>)
    ensures |Sort(cmp, s)| == |s|
    ensures forall x :: x in Sort(cmp, s) <==> x in s
  {
    SortPermutes(cmp, s);
    assert |multiset(Sort(cmp, s))| == |multiset(s)|;
    assert forall x :: x in Sort(cmp, s) <==> x in multiset(Sort(cmp, s));
  }

  lemma Chain<T(!new)>(cmp: (T, T) -> int, s: seq<T>, a: T, b: T, c: T)
    requires Consistent(cmp, s)
    requires a in s && b in s && c in s
    requires cmp(a, b) <= 0 && cmp(b, c) <= 0
    ensures cmp(a, c) <= 0
  {
  }

  lemma ConsistentPart<T(!new)>(cmp: (T, T) -> int, s: seq<T>, part: seq<T>)
    requires Consistent(cmp, s)
    requires forall x :: x in part ==> x in s
    ensures Consistent(cmp, part)
  {
  }

  lemma AppendSorts<T(!new)>(cmp: (T, T) -> int, x: T, s: seq<T>)
    requires Sorted(cmp, s) && s != [] && cmp(s[|s| - 1], x) <= 0
    requires Consistent(cmp, s + [x])
    ensures Sorted(cmp, s + [x])
  {
    var last := s[|s| - 1];
    forall i | 0 <= i < |s|
      ensures cmp(s[i], x) <= 0
    {
      if i < |s| - 1 {
        assert s[i] in s + [x] && last in s + [x] && x in s + [x];
        Chain(cmp, s + [x], s[i], last, x);
      }
    }
  }

  lemma {:induction false} InsertSorts<T(!new)>(cmp: (T, T) -> int, x: T, s: seq<T>)
    requires Sorted(cmp, s)
    requires Consistent(cmp, s + [x])
    ensures Sorted(cmp, Insert(cmp, x, s))
  {
    if s != [] {
      var front, last := s[..|s| - 1], s[|s| - 1];
      if cmp(last, x) <= 0 {
        AppendSorts(cmp, x, s);
      } else {
        LastSplit(s);
        ConsistentPart(cmp, s + [x], front + [x]);
        InsertSorts(cmp, x, front);
        assert x in s + [x] && last in s + [x];
        InsertBelow(cmp, x, front, last);
        SortedThenLast(cmp, Insert(cmp, x, front), last);
      }
    }
  }

  lemma SortedThenLast<T>(cmp: (T, T) -> int, s: seq<T>, last: T)
    requires Sorted(cmp, s) && forall i :: 0 <= i < |s| ==> cmp(s[i], last) <= 0
    ensures Sorted(cmp, s + [last])
  {
  }

  lemma InsertBelow<T>(cmp: (T, T) -> int, x: T, s: seq<T>, bound: T)
    requires cmp(x, bound) <= 0
    requires forall i :: 0 <= i < |s| ==> cmp(s[i], bound) <= 0
    ensures forall i :: 0 <= i < |Insert(cmp, x, s)| ==> cmp(Insert(cmp, x, s)[i], bound) <= 0
  {
    InsertPermutes(cmp, x, s);
    var r := Insert(cmp, x, s);
    forall i | 0 <= i < |r|
      ensures cmp(r[i], bound) <= 0
    {
      assert r[i] in multiset(r);
    }
  }

  lemma {:induction false} SortSorts<T(!new)>(cmp: (T, T) -> int, s: seq<T>)
    requires Consistent(cmp, s)
    ensures Sorted(cmp, Sort(cmp, s))
  {
    if s != [] {
      var front, last := s[..|s| - 1], s[|s| - 1];
      LastSplit(s);
      ConsistentPart(cmp, s, front);
      SortSorts(cmp, front);
      SortMembers(cmp, front);
      ConsistentPart(cmp, s, Sort(cmp, front) + [last]);
      InsertSorts(cmp, last, Sort(cmp, front));
    }
  }

  /** Sorting what is already in order changes nothing. */
  lemma {:induction false} SortIdentity<T>(cmp: (T, T) -> int, s: seq<T>)
    requires Sorted(cmp, s)
    ensures Sort(cmp, s) == s
  {
    if s != [] {
      LastSplit(s);
      SortIdentity(cmp, s[..|s| - 1]);
    }
  }

  function Filter<T>(keep: T -> bool, s: seq<T>): seq<T> {
    if s == [] then []
    else Filter(keep, s[..|s| - 1]) + (if keep(s[|s| - 1]) then [s[|s| - 1]] else [])
  }

  lemma {:induction false} FilterMembers<T>(keep: T -> bool, s: seq<T>)
    ensures forall x :: x in Filter(keep, s) <==> x in s && keep(x)
  {
    if s != [] {
      FilterMembers(keep, s[..|s| - 1]);
      LastSplit(s);
    }
  }

  lemma FilterStep<T>(keep: T -> bool, s: seq<T>, x: T)
    ensures Filter(keep, s + [x]) == Filter(keep, s) + (if keep(x) then [x] else [])
  {
    LastOff(s, x);
  }
}
