/** When a bundle reads in the order of the input, which is chronological. */
module TimelineOrder {
  import opened Prelude
  import opened TimelineBundles
  import opened TimelineEntry
  import opened TimelineThread

  ghost predicate Before(s: seq<Entry>, e: Entry, f: Entry) {
    exists i, j :: 0 <= i < j < |s| && s[i] == e && s[j] == f
  }

  /** The bundle reads like the input, which is chronological. */
  ghost predicate InInputOrder(s: seq<Entry>, out: seq<Entry>) {
    forall i, j :: 0 <= i < j < |out| ==> Before(s, out[i], out[j])
  }

  /** Of two replies, the earlier has the same parent, or the root as parent, or an earlier parent. */
  ghost predicate ParentsAgree(s: seq<Entry>, root: Entry, e: Entry, f: Entry)
    requires Reply(s, e) && Reply(s, f)
  {
    || Parent(s, e) == Parent(s, f)
    || Parent(s, e) == root
    || (Parent(s, f) != root && Before(s, Parent(s, e), Parent(s, f)))
  }

  lemma BeforeEither(s: seq<Entry>, e: Entry, f: Entry)
    requires e in s && f in s && e != f
    ensures Before(s, e, f) || Before(s, f, e)
  {
    var i :| 0 <= i < |s| && s[i] == e;
    var j :| 0 <= j < |s| && s[j] == f;
  }

  lemma BeforeOnce(s: seq<Entry>, e: Entry, f: Entry)
    requires DistinctComments(s) && e.kind.Comment? && f.kind.Comment? && Before(s, e, f)
    ensures !Before(s, f, e)
  {
  }

  lemma BeforePrefix(s: seq<Entry>, e: Entry, f: Entry)
    requires s != [] && Before(s[..|s| - 1], e, f)
    ensures Before(s, e, f)
  {
    var front := s[..|s| - 1];
    var i, j :| 0 <= i < j < |front| && front[i] == e && front[j] == f;
    assert s[i] == e && s[j] == f;
  }

  lemma BeforeLast(s: seq<Entry>, e: Entry)
    requires s != [] && e in s[..|s| - 1]
    ensures Before(s, e, s[|s| - 1])
  {
    var i :| 0 <= i < |s| - 1 && s[..|s| - 1][i] == e;
    assert s[i] == e;
  }

  lemma {:induction false} RootsInOrder(ids: set<string>, s: seq<Entry>, x: nat, y: nat)
    requires x < y < |Roots(ids, s)|
    ensures Before(s, Roots(ids, s)[x], Roots(ids, s)[y])
  {
    var roots := Roots(ids, s[..|s| - 1]);
    if y < |roots| {
      RootsInOrder(ids, s[..|s| - 1], x, y);
      BeforePrefix(s, roots[x], roots[y]);
    } else {
      RootsMembers(ids, s[..|s| - 1]);
      assert roots[x] in roots;
      BeforeLast(s, roots[x]);
    }
  }

  /** Rows stand in the order of their entries in the input. */
  lemma RowsInInputOrder(s: seq<Entry>, rows: seq<Row>, j: nat, k: nat)
    requires Searched(s, rows) && j < k < |rows|
    ensures Before(s, rows[j].entry, rows[k].entry)
  {
    RootsInOrder(CommentIds(s), s, j, k);
  }

  /** The replies to one comment stand in input order. */
  lemma {:induction false} KidsInOrder(ids: set<string>, s: seq<Entry>, pid: string, x: nat, y: nat)
    requires x < y < |Kids(ids, s, pid)|
    ensures Before(s, Kids(ids, s, pid)[x], Kids(ids, s, pid)[y])
  {
    var kids := Kids(ids, s[..|s| - 1], pid);
    if y < |kids| {
      KidsInOrder(ids, s[..|s| - 1], pid, x, y);
      BeforePrefix(s, kids[x], kids[y]);
    } else {
      KidsMembers(ids, s[..|s| - 1], pid);
      assert kids[x] in kids;
      BeforeLast(s, kids[x]);
    }
  }

  /** Two replies to one comment are found among its replies, in the same order. */
  lemma {:induction false} KidsIndices(ids: set<string>, s: seq<Entry>, pid: string, i: nat, j: nat)
    returns (x: nat, y: nat)
    requires i < j < |s| && IsReply(ids, s[i]) && IsReply(ids, s[j])
    requires s[i].parentId.value == pid && s[j].parentId.value == pid
    ensures x < y < |Kids(ids, s, pid)| && Kids(ids, s, pid)[x] == s[i] && Kids(ids, s, pid)[y] == s[j]
  {
    var front := s[..|s| - 1];
    if j < |front| {
      x, y := KidsIndices(ids, front, pid, i, j);
    } else {
      KidsMembers(ids, front, pid);
      assert front[i] in front;
      x :| 0 <= x < |Kids(ids, front, pid)| && Kids(ids, front, pid)[x] == s[i];
      y := |Kids(ids, front, pid)|;
    }
  }

  lemma SiblingsInOrder(s: seq<Entry>, root: Entry, out: seq<Entry>, i: nat, j: nat, k: nat)
    requires BundleUnder(s, root, out) && i < j < |out| && k <= |out|
    requires Reply(s, out[i]) && Reply(s, out[j])
    requires Parent(s, out[i]) == Parent(s, out[j]) == Seen(root, out, k)
    ensures Before(s, out[i], out[j])
  {
    var ids, pid := CommentIds(s), Seen(root, out, k).id;
    assert pid == ([root.id] + EntryIds(out))[k];
    assert k > 0 ==> EntryIds(out)[k - 1] == pid;
    SiblingsKeepInputOrder(s, root, out, pid);
    var x, y := KidsIndices(ids, out, pid, i, j);
    KidsInOrder(ids, s, pid, x, y);
  }

  lemma BundledIsReply(s: seq<Entry>, root: Entry, out: seq<Entry>, i: nat)
    requires BundleUnder(s, root, out) && i < |out|
    ensures out[i] in s && Reply(s, out[i]) && TopIs(s, out[i], root) && out[i] != root
  {
    BundleIsSubtree(s, root, out);
    assert out[i] in out;
  }

  lemma BundledDiffer(s: seq<Entry>, root: Entry, out: seq<Entry>, i: nat, j: nat)
    requires BundleUnder(s, root, out) && i < j < |out|
    ensures out[i] != out[j]
  {
    BundleDistinct(root.id, out);
  }

  lemma BundleSeen(s: seq<Entry>, root: Entry, out: seq<Entry>)
    requires BundleUnder(s, root, out)
    ensures Distinct(out) && root !in out
  {
    BundleMembers(s, root, out);
    BundleDistinct(root.id, out);
  }

  lemma SeenAgree(s: seq<Entry>, root: Entry, out: seq<Entry>, e: Entry, f: Entry, a: nat, b: nat)
    requires a <= b <= |out| && root !in out
    requires Reply(s, e) && Parent(s, e) == Seen(root, out, a)
    requires Reply(s, f) && Parent(s, f) == Seen(root, out, b)
    requires 0 < a < b ==> Before(s, out[a - 1], out[b - 1])
    ensures ParentsAgree(s, root, e, f)
  {
    if b > 0 {
      assert out[b - 1] in out;
    }
  }

  /** In input order, parents come in the order of their replies. */
  lemma OrderedParents(s: seq<Entry>, root: Entry, out: seq<Entry>, i: nat, j: nat)
    requires BundleUnder(s, root, out) && InInputOrder(s, out) && i < j < |out|
    ensures Reply(s, out[i]) && Reply(s, out[j]) && ParentsAgree(s, root, out[i], out[j])
  {
    var a, b := ParentIndices(s, root, out, i, j);
    BundleSeen(s, root, out);
    SeenAgree(s, root, out, out[i], out[j], a, b);
  }

  /** Of any two loaded replies under the root, the earlier has its parent no later than the other. */
  ghost predicate OrderedLikeParents(s: seq<Entry>, root: Entry) {
    forall e, f :: Reply(s, e) && Reply(s, f) && TopIs(s, e, root) && TopIs(s, f, root) && Before(s, e, f) ==>
      ParentsAgree(s, root, e, f)
  }

  lemma SeenDiffer(root: Entry, out: seq<Entry>, a: nat, b: nat)
    requires Distinct(out) && root !in out && a < b <= |out|
    ensures Seen(root, out, a) != Seen(root, out, b) && Seen(root, out, b) != root
  {
    assert out[b - 1] in out;
  }

  lemma AgreeingParents(s: seq<Entry>, root: Entry, e: Entry, f: Entry, p: Entry, q: Entry)
    requires OrderedLikeParents(s, root) && Before(s, f, e)
    requires Reply(s, e) && TopIs(s, e, root) && Parent(s, e) == p
    requires Reply(s, f) && TopIs(s, f, root) && Parent(s, f) == q
    requires p != q && q != root
    ensures p != root && Before(s, q, p)
  {
    assert ParentsAgree(s, root, f, e);
  }

  /** Two bundled replies stand in input order, or two earlier ones are turned round. */
  ghost predicate Descends(s: seq<Entry>, out: seq<Entry>, i: nat, j: nat)
    requires i < j < |out|
  {
    || Before(s, out[i], out[j])
    || exists a: nat, b: nat :: a < b < j && Before(s, out[b], out[a])
  }

  lemma PairDescends(s: seq<Entry>, root: Entry, out: seq<Entry>, i: nat, j: nat)
    requires BundleUnder(s, root, out) && OrderedLikeParents(s, root) && i < j < |out|
    ensures Descends(s, out, i, j)
  {
    var a, b := ParentIndices(s, root, out, i, j);
    if a == b {
      SiblingsInOrder(s, root, out, i, j, a);
    } else {
      EitherOrder(s, root, out, i, j);
      if Before(s, out[j], out[i]) {
        ParentsTurned(s, root, out, i, j, a, b);
      }
    }
  }

  lemma EitherOrder(s: seq<Entry>, root: Entry, out: seq<Entry>, i: nat, j: nat)
    requires BundleUnder(s, root, out) && i < j < |out|
    ensures Before(s, out[i], out[j]) || Before(s, out[j], out[i])
  {
    BundledIsReply(s, root, out, i);
    BundledIsReply(s, root, out, j);
    BundledDiffer(s, root, out, i, j);
    BeforeEither(s, out[i], out[j]);
  }

  lemma ParentsTurned(s: seq<Entry>, root: Entry, out: seq<Entry>, i: nat, j: nat, a: nat, b: nat)
    requires BundleUnder(s, root, out) && OrderedLikeParents(s, root) && i < j < |out| && a < b <= j
    requires Reply(s, out[i]) && Parent(s, out[i]) == Seen(root, out, a)
    requires Reply(s, out[j]) && Parent(s, out[j]) == Seen(root, out, b)
    requires Before(s, out[j], out[i])
    ensures Descends(s, out, i, j)
  {
    BundledIsReply(s, root, out, i);
    BundledIsReply(s, root, out, j);
    BundleSeen(s, root, out);
    SeenDiffer(root, out, a, b);
    AgreeingParents(s, root, out[i], out[j], Seen(root, out, a), Seen(root, out, b));
    assert a - 1 < b - 1 < j && Before(s, out[b - 1], out[a - 1]);
  }

  /** A first pair turned round would have an earlier one before it. */
  lemma {:induction false} NoFirstTurn(s: seq<Entry>, out: seq<Entry>, i: nat, j: nat)
    requires i < j < |out|
    requires forall x: nat, y: nat :: x < y < |out| ==> Descends(s, out, x, y)
    requires forall x: nat, y: nat :: x < y < |out| && Before(s, out[y], out[x]) ==> !Before(s, out[x], out[y])
    ensures Before(s, out[i], out[j])
    decreases j
  {
    assert Descends(s, out, i, j);
    if a: nat, b: nat :| a < b < j && Before(s, out[b], out[a]) {
      NoFirstTurn(s, out, a, b);
    }
  }

  /** Where the input orders replies like their parents, so does the bundle. */
  lemma OrderInherited(s: seq<Entry>, root: Entry, out: seq<Entry>, i: nat, j: nat)
    requires BundleUnder(s, root, out) && OrderedLikeParents(s, root) && i < j < |out|
    ensures Before(s, out[i], out[j])
  {
    forall x: nat, y: nat | x < y < |out|
      ensures Descends(s, out, x, y)
    {
      PairDescends(s, root, out, x, y);
    }
    forall x: nat, y: nat | x < y < |out| && Before(s, out[y], out[x])
      ensures !Before(s, out[x], out[y])
    {
      BundledIsReply(s, root, out, x);
      BundledIsReply(s, root, out, y);
      BeforeOnce(s, out[y], out[x]);
    }
    NoFirstTurn(s, out, i, j);
  }

  /**
   * A bundle is in input order if and only if, of any two loaded replies that hang under its row,
   * the earlier has the same parent as the later, or the row entry as parent, or an earlier parent.
   */
  lemma InInputOrderIff(s: seq<Entry>, root: Entry, out: seq<Entry>)
    requires BundleUnder(s, root, out)
    ensures InInputOrder(s, out) <==> OrderedLikeParents(s, root)
  {
    BundleIsSubtree(s, root, out);
    if InInputOrder(s, out) {
      forall e, f | Reply(s, e) && Reply(s, f) && TopIs(s, e, root) && TopIs(s, f, root) && Before(s, e, f)
        ensures ParentsAgree(s, root, e, f)
      {
        var i, j := BundledIndices(s, root, out, e, f);
        OrderedParents(s, root, out, i, j);
      }
    }
    if OrderedLikeParents(s, root) {
      forall i, j | 0 <= i < j < |out|
        ensures Before(s, out[i], out[j])
      {
        OrderInherited(s, root, out, i, j);
      }
    }
  }

  lemma BundledIndices(s: seq<Entry>, root: Entry, out: seq<Entry>, e: Entry, f: Entry) returns (i: nat, j: nat)
    requires BundleUnder(s, root, out) && InInputOrder(s, out) && e in out && f in out && Before(s, e, f)
    ensures i < j < |out| && out[i] == e && out[j] == f
  {
    i :| 0 <= i < |out| && out[i] == e;
    j :| 0 <= j < |out| && out[j] == f;
    BundleMembers(s, root, out);
    BeforeOnce(s, e, f);
  }

  lemma KidsOfFour(ids: set<string>, s: seq<Entry>, pid: string)
    requires |s| == 4
    ensures Kids(ids, s, pid)
         == Kids(ids, s[..1], pid) + Kids(ids, [s[1]], pid) + Kids(ids, [s[2]], pid) + Kids(ids, [s[3]], pid)
  {
    assert s == s[..1] + [s[1]] + [s[2]] + [s[3]];
    KidsAppend(ids, s[..1], [s[1]], pid);
    KidsAppend(ids, s[..1] + [s[1]], [s[2]], pid);
    KidsAppend(ids, s[..1] + [s[1]] + [s[2]], [s[3]], pid);
  }

  lemma KidsOfOne(ids: set<string>, e: Entry, pid: string)
    ensures Kids(ids, [e], pid) == if IsReply(ids, e) && e.parentId.value == pid then [e] else []
  {
    LastOff([], e);
    NothingMore([e]);
  }

  /** A comment, a reply, a reply to that, and a late reply to the comment. */
  ghost predicate LateReply(s: seq<Entry>) {
    s == [CommentOf("a", None, ""), CommentOf("b", Some("a"), ""),
          CommentOf("d", Some("b"), ""), CommentOf("c", Some("a"), "")]
  }

  lemma LateReplyLinks(s: seq<Entry>)
    requires LateReply(s)
    ensures !Reply(s, s[0]) && Reply(s, s[1]) && Reply(s, s[2]) && Reply(s, s[3])
  {
    assert s[0] in s && s[1] in s;
    assert "a" in CommentIds(s) && "b" in CommentIds(s);
  }

  lemma KidsOfLinks(ids: set<string>, s: seq<Entry>, x: string, y: string, pid: string)
    requires |s| == 4 && x != y && !IsReply(ids, s[0])
    requires IsReply(ids, s[1]) && IsReply(ids, s[2]) && IsReply(ids, s[3])
    requires s[1].parentId.value == x && s[2].parentId.value == y && s[3].parentId.value == x
    ensures Kids(ids, s, pid) == if pid == x then [s[1], s[3]] else if pid == y then [s[2]] else []
  {
    KidsOfFour(ids, s, pid);
    assert s[..1] == [s[0]];
    KidsOfOne(ids, s[0], pid);
    KidsOfOne(ids, s[1], pid);
    KidsOfOne(ids, s[2], pid);
    KidsOfOne(ids, s[3], pid);
  }

  lemma LateReplyKids(s: seq<Entry>, pid: string)
    requires LateReply(s)
    ensures Kids(CommentIds(s), s, pid) == if pid == "a" then [s[1], s[3]] else if pid == "b" then [s[2]] else []
  {
    LateReplyLinks(s);
    KidsOfLinks(CommentIds(s), s, "a", "b", pid);
  }

  lemma KidsOfList(ids: set<string>, s: seq<Entry>, a: string, b: string, c: string, d: string)
    ensures KidsOf(ids, s, [a, b, c, d]) == Kids(ids, s, a) + Kids(ids, s, b) + Kids(ids, s, c) + Kids(ids, s, d)
  {
    KidsOfStep(ids, s, [], a);
    KidsOfStep(ids, s, [a], b);
    KidsOfStep(ids, s, [a, b], c);
    KidsOfStep(ids, s, [a, b, c], d);
    NothingMore([a]);
    NothingMore(Kids(ids, s, a));
    assert [a] + [b] == [a, b] && [a, b] + [c] == [a, b, c] && [a, b, c] + [d] == [a, b, c, d];
  }

  lemma Concatenated<T>(x: T, y: T, z: T)
    ensures [x, y] + [z] + [] + [] == [x, y, z]
  {
  }

  lemma LateReplyBundle(s: seq<Entry>, a: string, b: string, c: string, d: string)
    requires LateReply(s) && a == "a" && b == "b" && c == "c" && d == "d"
    ensures KidsOf(CommentIds(s), s, [a, b, c, d]) == [s[1], s[3], s[2]]
  {
    KidsOfList(CommentIds(s), s, a, b, c, d);
    LateReplyKids(s, a);
    LateReplyKids(s, b);
    LateReplyKids(s, c);
    LateReplyKids(s, d);
    Concatenated(s[1], s[3], s[2]);
  }

  lemma LateReplyParents(s: seq<Entry>)
    requires LateReply(s)
    ensures ParentsFirst(CommentIds(s), "a", [s[1], s[3], s[2]])
  {
    var out := [s[1], s[3], s[2]];
    assert s[0] in s && s[1] in s;
    assert EntryIds(out[..0]) == [] && EntryIds(out[..1]) == ["b"] && EntryIds(out[..2]) == ["b", "c"];
    assert (["a"] + [])[0] == "a" && (["a"] + ["b"])[0] == "a" && (["a"] + ["b", "c"])[1] == "b";
    assert ParentBefore(CommentIds(s), "a", out, 0);
    assert ParentBefore(CommentIds(s), "a", out, 1);
    assert ParentBefore(CommentIds(s), "a", out, 2);
  }

  lemma LateReplySeen(s: seq<Entry>)
    requires LateReply(s)
    ensures ["a"] + EntryIds([s[1], s[3], s[2]]) == ["a", "b", "c", "d"] && Distinct(["a", "b", "c", "d"])
  {
  }

  lemma LateReplyTurned(s: seq<Entry>, out: seq<Entry>)
    requires LateReply(s) && out == [s[1], s[3], s[2]]
    ensures !InInputOrder(s, out)
  {
    assert Before(s, s[2], s[3]);
    BeforeOnce(s, s[2], s[3]);
    assert out[1] == s[3] && out[2] == s[2];
  }

  /** The bundle turns the last two round. */
  lemma LateReplyComesEarly(s: seq<Entry>)
    requires LateReply(s)
    ensures BundleUnder(s, s[0], [s[1], s[3], s[2]]) && !InInputOrder(s, [s[1], s[3], s[2]])
  {
    LateReplyBundle(s, "a", "b", "c", "d");
    LateReplyParents(s);
    LateReplySeen(s);
    LateReplyTurned(s, [s[1], s[3], s[2]]);
  }
}
