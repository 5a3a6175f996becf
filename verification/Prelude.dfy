/** Vocabulary shared by every component model. */
module Prelude {

  /** An absent field, `undefined` or `null`, against a present one. */
  datatype Option<+T> = None | Some(value: T) {

    /** The nullish-coalescing operator on a present default. */
    function GetOr(default: T): T {
      match this
      case Some(v) => v
      case None => default
    }

    /** The nullish-coalescing operator on an optional fallback. */
    function Or(other: Option<T>): Option<T> {
      if Some? then this else other
    }
  }

  /** JavaScript truthiness of an optional string. */
  predicate Truthy(s: Option<string>) {
    s.Some? && s.value != ""
  }

  ghost predicate Distinct<T>(s: seq<T>) {
    forall i, j :: 0 <= i < j < |s| ==> s[i] != s[j]
  }

  lemma LastIsNew<T>(s: seq<T>)
    requires s != [] && Distinct(s)
    ensures s[|s| - 1] !in s[..|s| - 1] && Distinct(s[..|s| - 1])
  {
  }

  ghost function SetOf<T>(s: seq<T>): set<T> {
    set x | x in s
  }

  lemma SetOfEmpty<T>(s: seq<T>)
    ensures SetOf(s) == {} <==> s == []
  {
    if s != [] {
      assert s[0] in SetOf(s);
    }
  }

  lemma LastSplit<T>(s: seq<T>)
    requires s != []
    ensures s == s[..|s| - 1] + [s[|s| - 1]]
    ensures multiset(s) == multiset(s[..|s| - 1]) + multiset{s[|s| - 1]}
    ensures forall x :: x in s <==> x in s[..|s| - 1] || x == s[|s| - 1]
  {
    assert s == s[..|s| - 1] + [s[|s| - 1]];
  }

  /** Taking the last element off a sequence it was just put on. */
  lemma LastOff<T>(s: seq<T>, x: T)
    ensures (s + [x])[..|s + [x]| - 1] == s && (s + [x])[|s + [x]| - 1] == x
  {
  }

  lemma SuffixOf<T>(a: seq<T>, b: seq<T>)
    ensures (a + b)[|a|..] == b && (a + b)[..|a|] == a
  {
  }

  lemma NothingMore<T>(s: seq<T>)
    ensures s + [] == s && [] + s == s
  {
  }

  lemma Whole<T>(s: seq<T>)
    ensures s[..|s|] == s
  {
  }

  lemma Halves<T>(s: seq<T>, n: nat)
    requires n <= |s|
    ensures s[..n] + s[n..] == s
  {
  }

  /** Taking the first element off a concatenation. */
  lemma FirstOff<T>(a: seq<T>, b: seq<T>)
    requires a != []
    ensures (a + b)[0] == a[0] && (a + b)[1..] == a[1..] + b
  {
  }

  /** Taking the last element off a concatenation. */
  lemma LastOfConcat<T>(a: seq<T>, b: seq<T>)
    requires b != []
    ensures (a + b)[|a + b| - 1] == b[|b| - 1] && (a + b)[..|a + b| - 1] == a + b[..|b| - 1]
  {
  }

  lemma Associative<T>(a: seq<T>, b: seq<T>, c: seq<T>)
    ensures (a + b) + c == a + (b + c)
  {
  }

  /** A duplicate-free sequence is exactly as long as its set of elements. */
  lemma {:induction false} DistinctLength<T>(s: seq<T>)
    requires Distinct(s)
    ensures |SetOf(s)| == |s|
  {
    if s != [] {
      var front, last := s[..|s| - 1], s[|s| - 1];
      DistinctLength(front);
      assert SetOf(s) == SetOf(front) + {last};
      assert last !in front;
    }
  }

  /** A duplicate-free sequence drawn from a finite set is no longer than the set. */
  lemma Pigeonhole<T>(s: seq<T>, universe: set<T>)
    requires Distinct(s)
    requires forall x :: x in s ==> x in universe
    ensures |s| <= |universe|
  {
    DistinctLength(s);
    SubsetSize(SetOf(s), universe);
  }

  lemma {:induction false} SubsetSize<T>(a: set<T>, b: set<T>)
    requires a <= b
    ensures |a| <= |b|
  {
    if a != {} {
      var x :| x in a;
      SubsetSize(a - {x}, b - {x});
    }
  }

  /** Two duplicate-free sequences over the same elements are permutations of each other. */
  lemma {:induction false} DistinctSameMultiset<T>(a: seq<T>, b: seq<T>)
    requires Distinct(a) && Distinct(b) && SetOf(a) == SetOf(b)
    ensures multiset(a) == multiset(b)
  {
    forall x
      ensures multiset(a)[x] == multiset(b)[x]
    {
      DistinctCount(a, x);
      DistinctCount(b, x);
      assert x in a <==> x in SetOf(a);
      assert x in b <==> x in SetOf(b);
    }
  }

  lemma {:induction false} DistinctCount<T>(s: seq<T>, x: T)
    requires Distinct(s)
    ensures multiset(s)[x] == if x in s then 1 else 0
  {
    if s != [] {
      var front, last := s[..|s| - 1], s[|s| - 1];
      assert s == front + [last];
      DistinctCount(front, x);
      assert last !in front;
    }
  }

  /** A permutation of a duplicate-free sequence is duplicate-free. */
  lemma DistinctPermutation<T>(a: seq<T>, b: seq<T>)
    requires Distinct(a) && multiset(a) == multiset(b)
    ensures Distinct(b)
  {
    forall i, j | 0 <= i < j < |b|
      ensures b[i] != b[j]
    {
      if b[i] == b[j] {
        assert b == b[..j] + [b[j]] + b[j + 1..];
        assert b[i] in b[..j];
        DistinctCount(a, b[i]);
        assert false;
      }
    }
  }

  /** Distinct keys, in order of first occurrence: the key order of a Map filled from `ids`. */
  function Firsts(ids: seq<string>): (r: seq<string>)
    ensures forall x :: x in r <==> x in ids
    ensures Distinct(r)
  {
    if ids == [] then []
    else
      var front, last := ids[..|ids| - 1], ids[|ids| - 1];
      assert ids == front + [last];
      if last in front then Firsts(front) else Firsts(front) + [last]
  }

  lemma {:induction false} FirstsIdentity(ids: seq<string>)
    requires Distinct(ids)
    ensures Firsts(ids) == ids
  {
    if ids != [] {
      var front, last := ids[..|ids| - 1], ids[|ids| - 1];
      FirstsIdentity(front);
      assert last !in front;
      assert ids == front + [last];
    }
  }

  /** How one more key changes the key order. */
  lemma FirstsStep(ids: seq<string>, id: string)
    ensures Firsts(ids + [id]) == if id in ids then Firsts(ids) else Firsts(ids) + [id]
  {
    LastOff(ids, id);
  }
}
