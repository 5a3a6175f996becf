/** What the thread rows show for distinct comment ids: everything that hangs under a top-level entry, once. */
module TimelineBundles {
  import opened Prelude
  import opened TimelineEntry
  import opened TimelineThread

  // ---------------------------------------------------------------- parent links

  ghost predicate Reply(s: seq<Entry>, e: Entry) {
    IsReply(CommentIds(s), e)
  }

  ghost function Parent(s: seq<Entry>, e: Entry): (p: Entry)
    requires Reply(s, e)
    ensures p in s && p.kind.Comment? && p.id == e.parentId.value
  {
    var p :| p in s && p.kind.Comment? && p.id == e.parentId.value;
    p
  }

  /** A reply is a comment whose parent is a comment in the list; an empty parent id is none. */
  lemma ReplyIff(s: seq<Entry>, e: Entry)
    ensures Reply(s, e) <==>
      e.kind == Comment && e.parentId != Some("") && exists p :: p in s && p.kind == Comment && e.parentId == Some(p.id)
  {
  }

  /** The entry `n` parent links above `e`, or the top one if there are fewer. */
  ghost function Above(s: seq<Entry>, e: Entry, n: nat): Entry
    decreases n
  {
    if n == 0 || !Reply(s, e) then e else Above(s, Parent(s, e), n - 1)
  }

  ghost predicate TopIs(s: seq<Entry>, e: Entry, top: Entry) {
    !Reply(s, top) && exists n: nat :: Above(s, e, n) == top
  }

  ghost predicate Rooted(s: seq<Entry>, e: Entry) {
    exists n: nat :: !Reply(s, Above(s, e, n))
  }

  ghost predicate OnCycle(s: seq<Entry>, e: Entry) {
    Reply(s, e) && exists n: nat :: n > 0 && Above(s, e, n) == e
  }

  ghost predicate AtDepth(s: seq<Entry>, e: Entry, d: nat) {
    && !Reply(s, Above(s, e, d))
    && forall k: nat :: k < d ==> Reply(s, Above(s, e, k))
  }

  lemma {:induction false} AboveAdds(s: seq<Entry>, e: Entry, m: nat, n: nat)
    ensures Above(s, e, m + n) == Above(s, Above(s, e, m), n)
    decreases m
  {
    if m > 0 && Reply(s, e) {
      AboveAdds(s, Parent(s, e), m - 1, n);
    }
  }

  lemma {:induction false} AboveTop(s: seq<Entry>, e: Entry, n: nat)
    requires !Reply(s, e)
    ensures Above(s, e, n) == e
  {
  }

  lemma TopUnique(s: seq<Entry>, e: Entry, a: Entry, b: Entry)
    requires TopIs(s, e, a) && TopIs(s, e, b)
    ensures a == b
  {
    var m: nat :| Above(s, e, m) == a;
    var n: nat :| Above(s, e, n) == b;
    AboveAdds(s, e, m, n);
    AboveAdds(s, e, n, m);
    AboveTop(s, a, n);
    AboveTop(s, b, m);
  }

  lemma TopOfReply(s: seq<Entry>, e: Entry, top: Entry)
    requires Reply(s, e) && TopIs(s, Parent(s, e), top)
    ensures TopIs(s, e, top)
  {
    var n: nat :| Above(s, Parent(s, e), n) == top;
    assert Above(s, e, n + 1) == top;
  }

  lemma DepthOfParent(s: seq<Entry>, e: Entry, d: nat)
    requires Reply(s, e) && AtDepth(s, e, d)
    ensures d > 0 && AtDepth(s, Parent(s, e), d - 1)
  {
    assert Above(s, e, 0) == e;
    assert d > 0;
    forall k: nat | k < d - 1
      ensures Reply(s, Above(s, Parent(s, e), k))
    {
      assert Above(s, e, k + 1) == Above(s, Parent(s, e), k);
    }
  }

  lemma DepthUnique(s: seq<Entry>, e: Entry, c: nat, d: nat)
    requires AtDepth(s, e, c) && AtDepth(s, e, d)
    ensures c == d
  {
  }

  /** A root or a member of a bundle is known by its id. */
  lemma ParentIs(s: seq<Entry>, e: Entry, p: Entry)
    requires DistinctComments(s) && Reply(s, e)
    requires p in s && p.kind.Comment? && p.id == e.parentId.value
    ensures Parent(s, e) == p
  {
    SameIdSameEntry(s);
  }

  // ---------------------------------------------------------------- one bundle

  ghost predicate BundleUnder(s: seq<Entry>, root: Entry, out: seq<Entry>) {
    && DistinctComments(s)
    && root in s && root.kind.Comment? && !Reply(s, root)
    && Bundle(CommentIds(s), s, root.id, out)
  }

  lemma BundleMembers(s: seq<Entry>, root: Entry, out: seq<Entry>)
    requires BundleUnder(s, root, out)
    ensures forall e :: e in out <==>
      e in s && Reply(s, e) && (e.parentId.value == root.id || e.parentId.value in EntryIds(out))
  {
    KidsOfMembers(CommentIds(s), s, [root.id] + EntryIds(out));
  }

  /** The entry behind the k-th id of [root] followed by the bundle. */
  ghost function Seen(root: Entry, out: seq<Entry>, k: nat): Entry
    requires k <= |out|
  {
    if k == 0 then root else out[k - 1]
  }

  lemma SeenParent(s: seq<Entry>, root: Entry, out: seq<Entry>, e: Entry, k: nat)
    requires BundleUnder(s, root, out) && Reply(s, e)
    requires k <= |out| && e.parentId.value == ([root.id] + EntryIds(out))[k]
    ensures Parent(s, e) == Seen(root, out, k)
  {
    BundleMembers(s, root, out);
    if k > 0 {
      assert out[k - 1] in out;
    }
    ParentIs(s, e, Seen(root, out, k));
  }

  lemma EarlierParent(s: seq<Entry>, root: Entry, out: seq<Entry>, j: nat) returns (k: nat)
    requires BundleUnder(s, root, out) && j < |out|
    ensures k <= j && out[j].parentId.Some? && out[j].parentId.value == ([root.id] + EntryIds(out))[k]
    ensures Reply(s, out[j]) && Parent(s, out[j]) == Seen(root, out, k)
  {
    var earlier := [root.id] + EntryIds(out[..j]);
    assert ParentBefore(CommentIds(s), root.id, out, j);
    k :| 0 <= k < |earlier| && earlier[k] == out[j].parentId.value;
    assert earlier[k] == ([root.id] + EntryIds(out))[k];
    SeenParent(s, root, out, out[j], k);
  }

  ghost predicate HasEarlierParent(s: seq<Entry>, root: Entry, out: seq<Entry>, j: nat)
    requires j < |out|
  {
    Reply(s, out[j]) && exists k: nat :: k <= j && Parent(s, out[j]) == Seen(root, out, k)
  }

  lemma {:induction false} TopOfEach(s: seq<Entry>, root: Entry, out: seq<Entry>, j: nat)
    requires !Reply(s, root) && j < |out|
    requires forall i: nat :: i < |out| ==> HasEarlierParent(s, root, out, i)
    ensures TopIs(s, out[j], root)
  {
    assert HasEarlierParent(s, root, out, j);
    var k: nat :| k <= j && Parent(s, out[j]) == Seen(root, out, k);
    if k == 0 {
      assert Above(s, root, 0) == root;
    } else {
      TopOfEach(s, root, out, k - 1);
    }
    TopOfReply(s, out[j], root);
  }

  lemma BundleBelowRoot(s: seq<Entry>, root: Entry, out: seq<Entry>, j: nat)
    requires BundleUnder(s, root, out) && j < |out|
    ensures TopIs(s, out[j], root)
  {
    forall i: nat | i < |out|
      ensures HasEarlierParent(s, root, out, i)
    {
      var k := EarlierParent(s, root, out, i);
    }
    TopOfEach(s, root, out, j);
  }

  lemma {:induction false} BelowRootBundled(s: seq<Entry>, root: Entry, out: set<Entry>, e: Entry, n: nat)
    requires !Reply(s, root)
    requires forall x :: x in s && Reply(s, x) && (Parent(s, x) == root || Parent(s, x) in out) ==> x in out
    requires e in s && Reply(s, e) && Above(s, e, n) == root
    ensures e in out
    decreases n
  {
    assert n > 0;
    var p := Parent(s, e);
    if Reply(s, p) {
      BelowRootBundled(s, root, out, p, n - 1);
    } else {
      AboveTop(s, p, n - 1);
    }
  }

  lemma ChildBundled(s: seq<Entry>, root: Entry, out: seq<Entry>, e: Entry)
    requires BundleUnder(s, root, out)
    requires e in s && Reply(s, e) && (Parent(s, e) == root || Parent(s, e) in out)
    ensures e in out
  {
    var p := Parent(s, e);
    if p in out {
      var i :| 0 <= i < |out| && out[i] == p;
      assert EntryIds(out)[i] == p.id;
    }
    BundleMembers(s, root, out);
  }

  /** A row bundles exactly the loaded comments whose chain of parents ends at its entry. */
  lemma BundleIsSubtree(s: seq<Entry>, root: Entry, out: seq<Entry>)
    requires BundleUnder(s, root, out)
    ensures forall e :: e in out <==> e in s && Reply(s, e) && TopIs(s, e, root)
  {
    BundleMembers(s, root, out);
    forall e
      ensures e in out <==> e in s && Reply(s, e) && TopIs(s, e, root)
    {
      if e in out {
        var j :| 0 <= j < |out| && out[j] == e;
        BundleBelowRoot(s, root, out, j);
      }
      if e in s && Reply(s, e) && TopIs(s, e, root) {
        var n: nat :| Above(s, e, n) == root;
        forall x | x in s && Reply(s, x) && (Parent(s, x) == root || Parent(s, x) in SetOf(out))
          ensures x in SetOf(out)
        {
          ChildBundled(s, root, out, x);
        }
        BelowRootBundled(s, root, SetOf(out), e, n);
      }
    }
  }

  // ---------------------------------------------------------------- order inside a bundle

  lemma {:induction false} KidsAppend(ids: set<string>, a: seq<Entry>, b: seq<Entry>, pid: string)
    ensures Kids(ids, a + b, pid) == Kids(ids, a, pid) + Kids(ids, b, pid)
  {
    if b == [] {
      assert a + b == a;
    } else {
      KidsAppend(ids, a, b[..|b| - 1], pid);
      LastOfConcat(a, b);
    }
  }

  lemma {:induction false} KidsOfUniform(ids: set<string>, a: seq<Entry>, parent: string, pid: string)
    requires forall e :: e in a ==> IsReply(ids, e) && e.parentId.value == parent
    ensures Kids(ids, a, pid) == if parent == pid then a else []
  {
    if a != [] {
      LastSplit(a);
      KidsOfUniform(ids, a[..|a| - 1], parent, pid);
    }
  }

  lemma {:induction false} SiblingsOf(ids: set<string>, s: seq<Entry>, pids: seq<string>, pid: string)
    requires Distinct(pids)
    ensures Kids(ids, KidsOf(ids, s, pids), pid) == if pid in pids then Kids(ids, s, pid) else []
  {
    if pids != [] {
      var front, last := pids[..|pids| - 1], pids[|pids| - 1];
      LastSplit(pids);
      SiblingsOf(ids, s, front, pid);
      KidsAppend(ids, KidsOf(ids, s, front), Kids(ids, s, last), pid);
      KidsMembers(ids, s, last);
      KidsOfUniform(ids, Kids(ids, s, last), last, pid);
      LastIsNew(pids);
      NothingMore(Kids(ids, s, pid));
    }
  }

  /** The direct replies to the root, and to each bundled comment, are all there in input order. */
  lemma SiblingsKeepInputOrder(s: seq<Entry>, root: Entry, out: seq<Entry>, pid: string)
    requires BundleUnder(s, root, out)
    requires pid == root.id || pid in EntryIds(out)
    ensures Kids(CommentIds(s), out, pid) == Kids(CommentIds(s), s, pid)
  {
    SiblingsOf(CommentIds(s), s, [root.id] + EntryIds(out), pid);
  }

  lemma {:induction false} ParentsInOrder(ids: set<string>, s: seq<Entry>, pids: seq<string>, i: nat, j: nat)
    returns (a: nat, b: nat)
    requires i < j < |KidsOf(ids, s, pids)|
    ensures a <= b < |pids|
    ensures var out := KidsOf(ids, s, pids);
            && IsReply(ids, out[i]) && out[i].parentId.value == pids[a]
            && IsReply(ids, out[j]) && out[j].parentId.value == pids[b]
  {
    var front, last := pids[..|pids| - 1], pids[|pids| - 1];
    var before, kids := KidsOf(ids, s, front), Kids(ids, s, last);
    KidsMembers(ids, s, last);
    if j < |before| {
      a, b := ParentsInOrder(ids, s, front, i, j);
    } else {
      assert kids[j - |before|] in kids;
      b := |pids| - 1;
      if i < |before| {
        KidsOfMembers(ids, s, front);
        assert before[i] in before;
        a :| 0 <= a < |front| && front[a] == before[i].parentId.value;
      } else {
        assert kids[i - |before|] in kids;
        a := b;
      }
    }
  }

  lemma ParentIndices(s: seq<Entry>, root: Entry, out: seq<Entry>, i: nat, j: nat) returns (a: nat, b: nat)
    requires BundleUnder(s, root, out) && i < j < |out|
    ensures a <= b <= j
    ensures Reply(s, out[i]) && Parent(s, out[i]) == Seen(root, out, a)
    ensures Reply(s, out[j]) && Parent(s, out[j]) == Seen(root, out, b)
  {
    var seen := [root.id] + EntryIds(out);
    a, b := ParentsInOrder(CommentIds(s), s, seen, i, j);
    var k := EarlierParent(s, root, out, j);
    assert seen[b] == seen[k];
    SeenParent(s, root, out, out[i], a);
  }

  /** Every reply comes after its parent. */
  lemma ParentComesFirst(s: seq<Entry>, root: Entry, out: seq<Entry>, j: nat)
    requires BundleUnder(s, root, out) && j < |out|
    ensures Reply(s, out[j]) && (Parent(s, out[j]) == root || Parent(s, out[j]) in out[..j])
  {
    var k := EarlierParent(s, root, out, j);
    if k > 0 {
      assert out[..j][k - 1] == out[k - 1];
    }
  }

  /** Depths never decrease along a bundle. */
  lemma DepthsNeverDecrease(s: seq<Entry>, root: Entry, out: seq<Entry>, i: nat, j: nat, c: nat, d: nat)
    requires BundleUnder(s, root, out) && i < j < |out|
    requires AtDepth(s, out[i], c) && AtDepth(s, out[j], d)
    ensures c <= d
  {
    forall x: nat, y: nat | x < y < |out|
      ensures ParentsOrdered(s, root, out, x, y)
    {
      var a, b := ParentIndices(s, root, out, x, y);
    }
    LaterIsDeeper(s, root, out, i, j, c, d);
  }

  ghost predicate ParentsOrdered(s: seq<Entry>, root: Entry, out: seq<Entry>, i: nat, j: nat)
    requires i < j < |out|
  {
    Reply(s, out[i]) && Reply(s, out[j]) &&
    exists a: nat, b: nat ::
      a <= b <= j && Parent(s, out[i]) == Seen(root, out, a) && Parent(s, out[j]) == Seen(root, out, b)
  }

  lemma {:induction false} LaterIsDeeper(s: seq<Entry>, root: Entry, out: seq<Entry>, i: nat, j: nat, c: nat, d: nat)
    requires !Reply(s, root)
    requires forall x: nat, y: nat :: x < y < |out| ==> ParentsOrdered(s, root, out, x, y)
    requires i < j < |out| && AtDepth(s, out[i], c) && AtDepth(s, out[j], d)
    ensures c <= d
    decreases j
  {
    assert ParentsOrdered(s, root, out, i, j);
    var a: nat, b: nat :|
      a <= b <= j && Parent(s, out[i]) == Seen(root, out, a) && Parent(s, out[j]) == Seen(root, out, b);
    var p, q := Seen(root, out, a), Seen(root, out, b);
    ParentDepths(s, out[i], out[j], p, q, c, d);
    if a == 0 {
      RootDepth(s, p, c - 1);
    } else if a == b {
      DepthUnique(s, p, c - 1, d - 1);
    } else {
      LaterIsDeeper(s, root, out, a - 1, b - 1, c - 1, d - 1);
    }
  }

  lemma ParentDepths(s: seq<Entry>, e: Entry, f: Entry, p: Entry, q: Entry, c: nat, d: nat)
    requires Reply(s, e) && Reply(s, f) && Parent(s, e) == p && Parent(s, f) == q
    requires AtDepth(s, e, c) && AtDepth(s, f, d)
    ensures c > 0 && d > 0 && AtDepth(s, p, c - 1) && AtDepth(s, q, d - 1)
  {
    DepthOfParent(s, e, c);
    DepthOfParent(s, f, d);
  }

  lemma RootDepth(s: seq<Entry>, root: Entry, c: nat)
    requires !Reply(s, root) && AtDepth(s, root, c)
    ensures c == 0
  {
    assert Above(s, root, 0) == root;
  }

  // ---------------------------------------------------------------- all rows

  function RowEntries(rows: seq<Row>): seq<Entry> {
    if rows == [] then [] else RowEntries(rows[..|rows| - 1]) + [rows[|rows| - 1].entry]
  }

  function AllReplies(rows: seq<Row>): seq<Entry> {
    if rows == [] then [] else AllReplies(rows[..|rows| - 1]) + rows[|rows| - 1].replies
  }

  /** The loaded replies of `part` that do (or do not) hang under a top-level entry of `s`. */
  ghost function Replies(s: seq<Entry>, part: seq<Entry>, rooted: bool): seq<Entry> {
    if part == [] then []
    else
      var e := part[|part| - 1];
      Replies(s, part[..|part| - 1], rooted) + (if Reply(s, e) && Rooted(s, e) == rooted then [e] else [])
  }

  /** What no row shows. */
  ghost function Lost(s: seq<Entry>): seq<Entry> {
    Replies(s, s, false)
  }

  lemma {:induction false} RepliesMembers(s: seq<Entry>, part: seq<Entry>, rooted: bool)
    ensures forall e :: e in Replies(s, part, rooted) <==> e in part && Reply(s, e) && Rooted(s, e) == rooted
  {
    if part != [] {
      RepliesMembers(s, part[..|part| - 1], rooted);
      LastSplit(part);
    }
  }

  lemma {:induction false} RepliesDistinct(s: seq<Entry>, part: seq<Entry>, rooted: bool)
    requires DistinctComments(part)
    ensures Distinct(Replies(s, part, rooted))
  {
    if part != [] {
      var front, last := part[..|part| - 1], part[|part| - 1];
      RepliesDistinct(s, front, rooted);
      RepliesMembers(s, front, rooted);
      forall i | 0 <= i < |front| && last.kind.Comment?
        ensures front[i] != last
      {
      }
    }
  }

  lemma {:induction false} Split(s: seq<Entry>, part: seq<Entry>)
    ensures multiset(part) == multiset(Roots(CommentIds(s), part))
              + multiset(Replies(s, part, true)) + multiset(Replies(s, part, false))
  {
    if part != [] {
      var front, e := part[..|part| - 1], part[|part| - 1];
      Split(s, front);
      LastSplit(part);
      Grow(front, [e]);
      RootsStep(s, part);
      RepliesStep(s, part, true);
      RepliesStep(s, part, false);
    }
  }

  lemma RootsStep(s: seq<Entry>, part: seq<Entry>)
    requires part != []
    ensures multiset(Roots(CommentIds(s), part)) == multiset(Roots(CommentIds(s), part[..|part| - 1]))
              + (if Reply(s, part[|part| - 1]) then multiset{} else multiset{part[|part| - 1]})
  {
  }

  lemma RepliesStep(s: seq<Entry>, part: seq<Entry>, rooted: bool)
    requires part != []
    ensures var e := part[|part| - 1];
            multiset(Replies(s, part, rooted)) == multiset(Replies(s, part[..|part| - 1], rooted))
              + (if Reply(s, e) && Rooted(s, e) == rooted then multiset{e} else multiset{})
  {
  }

  lemma Grow<T>(a: seq<T>, b: seq<T>)
    ensures multiset(a + b) == multiset(a) + multiset(b)
  {
  }

  lemma {:induction false} RootsDistinctComments(ids: set<string>, s: seq<Entry>)
    requires DistinctComments(s)
    ensures DistinctComments(Roots(ids, s))
  {
    if s != [] {
      var front, last := s[..|s| - 1], s[|s| - 1];
      RootsDistinctComments(ids, front);
      RootsMembers(ids, front);
      var roots := Roots(ids, front);
      forall i | 0 <= i < |roots| && roots[i].kind.Comment? && last.kind.Comment?
        ensures roots[i].id != last.id
      {
        assert roots[i] in front;
      }
    }
  }

  /** The rows built so far, for the first `n` top-level entries. */
  ghost predicate Prefix(s: seq<Entry>, rows: seq<Row>) {
    var roots := Roots(CommentIds(s), s);
    && |rows| <= |roots|
    && forall k :: 0 <= k < |rows| ==> IsRow(s, roots[k], rows[k])
  }

  lemma RowIsSubtree(s: seq<Entry>, rows: seq<Row>, k: nat)
    requires DistinctComments(s) && Prefix(s, rows) && k < |rows|
    ensures Distinct(rows[k].replies)
    ensures forall e :: e in rows[k].replies <==> e in s && Reply(s, e) && TopIs(s, e, rows[k].entry)
  {
    var root := Roots(CommentIds(s), s)[k];
    RootsMembers(CommentIds(s), s);
    assert root in Roots(CommentIds(s), s);
    if root.kind.Comment? {
      BundleIsSubtree(s, root, rows[k].replies);
      BundleDistinct(root.id, rows[k].replies);
    } else {
      forall e | e in s && Reply(s, e) && TopIs(s, e, root)
        ensures false
      {
        TopIsComment(s, e, root);
      }
    }
  }

  lemma BundleDistinct(root: string, out: seq<Entry>)
    requires Distinct([root] + EntryIds(out))
    ensures Distinct(out)
  {
    var seen := [root] + EntryIds(out);
    forall i, j | 0 <= i < j < |out|
      ensures out[i] != out[j]
    {
      assert seen[i + 1] == out[i].id && seen[j + 1] == out[j].id;
    }
  }

  lemma TopIsComment(s: seq<Entry>, e: Entry, top: Entry)
    requires Reply(s, e) && TopIs(s, e, top)
    ensures top.kind.Comment? && top in s
  {
    var n: nat :| Above(s, e, n) == top;
    AboveIsComment(s, e, n);
  }

  lemma {:induction false} AboveIsComment(s: seq<Entry>, e: Entry, n: nat)
    requires e.kind.Comment?
    ensures Above(s, e, n).kind.Comment? && (Above(s, e, n) == e || Above(s, e, n) in s)
    decreases n
  {
    if n > 0 && Reply(s, e) {
      AboveIsComment(s, Parent(s, e), n - 1);
    }
  }

  ghost predicate UnderSome(s: seq<Entry>, e: Entry, rows: seq<Row>) {
    exists k :: 0 <= k < |rows| && TopIs(s, e, rows[k].entry)
  }

  lemma UnderSomeSplit(s: seq<Entry>, e: Entry, front: seq<Row>, last: Row)
    ensures UnderSome(s, e, front + [last]) <==> UnderSome(s, e, front) || TopIs(s, e, last.entry)
  {
    var rows := front + [last];
    if TopIs(s, e, last.entry) {
      assert rows[|front|] == last;
    }
    if k :| 0 <= k < |front| && TopIs(s, e, front[k].entry) {
      assert rows[k] == front[k];
    }
  }

  lemma {:induction false} RepliesOfPrefix(s: seq<Entry>, rows: seq<Row>)
    requires DistinctComments(s) && Prefix(s, rows)
    ensures Distinct(AllReplies(rows))
    ensures forall e :: e in AllReplies(rows) <==> e in s && Reply(s, e) && UnderSome(s, e, rows)
  {
    if rows != [] {
      var front, last := rows[..|rows| - 1], rows[|rows| - 1];
      assert rows == front + [last];
      RepliesOfPrefix(s, front);
      RowIsSubtree(s, rows, |rows| - 1);
      forall e
        ensures e in AllReplies(rows) <==> e in s && Reply(s, e) && UnderSome(s, e, rows)
      {
        UnderSomeSplit(s, e, front, last);
      }
      forall x, y | x in AllReplies(front) && y in last.replies
        ensures x != y
      {
        if x == y {
          TwoRowsDiffer(s, rows, x);
        }
      }
      ConcatDistinct(AllReplies(front), last.replies);
    }
  }

  /** No comment hangs under the last row and an earlier one. */
  lemma TwoRowsDiffer(s: seq<Entry>, rows: seq<Row>, e: Entry)
    requires DistinctComments(s) && Prefix(s, rows) && rows != []
    requires Reply(s, e) && TopIs(s, e, rows[|rows| - 1].entry)
    ensures !UnderSome(s, e, rows[..|rows| - 1])
  {
    RootsDistinctComments(CommentIds(s), s);
    var roots, last := Roots(CommentIds(s), s), rows[|rows| - 1].entry;
    TopIsComment(s, e, last);
    forall k | 0 <= k < |rows| - 1
      ensures !TopIs(s, e, rows[k].entry)
    {
      assert roots[k] == rows[k].entry && roots[|rows| - 1] == last;
      if TopIs(s, e, rows[k].entry) {
        TopUnique(s, e, rows[k].entry, last);
        assert false;
      }
    }
  }

  lemma {:induction false} RowEntriesOf(rows: seq<Row>, roots: seq<Entry>)
    requires |rows| == |roots| && forall k :: 0 <= k < |rows| ==> rows[k].entry == roots[k]
    ensures RowEntries(rows) == roots
  {
    if rows != [] {
      RowEntriesOf(rows[..|rows| - 1], roots[..|roots| - 1]);
    }
  }

  lemma ConcatDistinct(a: seq<Entry>, b: seq<Entry>)
    requires Distinct(a) && Distinct(b) && forall x, y :: x in a && y in b ==> x != y
    ensures Distinct(a + b)
  {
    forall i, j | 0 <= i < j < |a + b|
      ensures (a + b)[i] != (a + b)[j]
    {
      if i < |a| <= j {
        assert a[i] in a && b[j - |a|] in b;
      }
    }
  }

  /**
   * Conservation: rows and replies together show every loaded entry exactly once, except
   * those that hang under no top-level entry; nothing else appears.
   */
  lemma RowsConserveEntries(s: seq<Entry>, rows: seq<Row>)
    requires DistinctComments(s) && Threaded(s, rows)
    ensures multiset(s) == multiset(RowEntries(rows)) + multiset(AllReplies(rows)) + multiset(Lost(s))
    ensures |s| == |rows| + |AllReplies(rows)| + |Lost(s)|
  {
    var ids := CommentIds(s);
    var roots, kept := Roots(ids, s), Replies(s, s, true);
    RepliesOfPrefix(s, rows);
    RowEntriesOf(rows, roots);
    RepliesMembers(s, s, true);
    RepliesDistinct(s, s, true);
    RootsMembers(ids, s);
    forall e
      ensures e in AllReplies(rows) <==> e in kept
    {
      if e in kept {
        var n: nat :| !Reply(s, Above(s, e, n));
        var top := Above(s, e, n);
        TopIsComment(s, e, top);
        var k :| 0 <= k < |roots| && roots[k] == top;
        assert TopIs(s, e, rows[k].entry);
      }
    }
    DistinctSameMultiset(AllReplies(rows), kept);
    Split(s, s);
    var shown := RowEntries(rows) + AllReplies(rows) + Lost(s);
    assert multiset(shown) == multiset(s);
    assert |multiset(shown)| == |shown| && |multiset(s)| == |s|;
  }

  // ---------------------------------------------------------------- when nothing is lost

  lemma {:induction false} CycleNeverRooted(s: seq<Entry>, e: Entry, n: nat)
    requires OnCycle(s, e)
    ensures Reply(s, Above(s, e, n))
  {
    var k: nat :| k > 0 && Above(s, e, k) == e;
    if n >= k {
      CycleNeverRooted(s, e, n - k);
      AboveAdds(s, e, k, n - k);
    } else {
      AboveAdds(s, e, n, k - n);
      if !Reply(s, Above(s, e, n)) {
        assert false;
      }
    }
  }

  /** An unrooted comment has a loaded comment above it that is its own ancestor. */
  lemma UnrootedReachesCycle(s: seq<Entry>, e: Entry)
    requires DistinctComments(s) && e in s && Reply(s, e) && !Rooted(s, e)
    ensures exists c :: c in s && OnCycle(s, c)
  {
    var i, j := ChainRepeats(s, e);
    var c := Above(s, e, i);
    AboveIsComment(s, e, i);
    AboveIsComment(s, e, j);
    SameIdSameEntry(s);
    AboveAdds(s, e, i, j - i);
    assert Above(s, c, j - i) == c;
    assert c in s && OnCycle(s, c);
  }

  /** More links than comments: two of the comments above must share their id. */
  lemma ChainRepeats(s: seq<Entry>, e: Entry) returns (i: nat, j: nat)
    requires e in s && Reply(s, e)
    ensures i < j && Above(s, e, i).id == Above(s, e, j).id
  {
    var ids := CommentIds(s);
    var chain := seq(|ids| + 1, k requires 0 <= k => Above(s, e, k).id);
    forall x | x in chain
      ensures x in ids
    {
      var k :| 0 <= k < |chain| && chain[k] == x;
      AboveIsComment(s, e, k);
    }
    if Distinct(chain) {
      Pigeonhole(chain, ids);
      assert false;
    }
    i, j :| 0 <= i < j < |chain| && chain[i] == chain[j];
  }

  /** Every entry is shown exactly once if and only if no loaded comment is its own ancestor. */
  lemma NothingLostIffAcyclic(s: seq<Entry>, rows: seq<Row>)
    requires DistinctComments(s) && Threaded(s, rows)
    ensures multiset(RowEntries(rows) + AllReplies(rows)) == multiset(s) <==> !exists e :: e in s && OnCycle(s, e)
  {
    RowsConserveEntries(s, rows);
    RepliesMembers(s, s, false);
    if e :| e in s && OnCycle(s, e) {
      if Rooted(s, e) {
        var n: nat :| !Reply(s, Above(s, e, n));
        CycleNeverRooted(s, e, n);
      }
      assert e in multiset(Lost(s));
    } else {
      if Lost(s) != [] {
        UnrootedReachesCycle(s, Lost(s)[0]);
        assert false;
      }
      assert multiset(RowEntries(rows) + AllReplies(rows)) == multiset(RowEntries(rows)) + multiset(AllReplies(rows));
    }
  }
}
