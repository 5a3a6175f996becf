/**
 * apps/mobile/lib/timeline-thread.ts: folds every comment's descendants into the row of the
 * top-level comment they hang under.
 */
module TimelineThread {
  import opened Prelude
  import opened TimelineEntry

  datatype Row = Row(entry: Entry, replies: seq<Entry>)

  ghost function CommentIds(s: seq<Entry>): set<string> {
    set e | e in s && e.kind.Comment? :: e.id
  }

  /** A comment whose parent is loaded. Everything else is top-level, orphaned replies included. */
  predicate IsReply(ids: set<string>, e: Entry) {
    e.kind.Comment? && Truthy(e.parentId) && e.parentId.value in ids
  }

  function Roots(ids: set<string>, s: seq<Entry>): seq<Entry> {
    if s == [] then []
    else Roots(ids, s[..|s| - 1]) + (if IsReply(ids, s[|s| - 1]) then [] else [s[|s| - 1]])
  }

  /** The direct replies to `pid` among `s`, in input order. */
  function Kids(ids: set<string>, s: seq<Entry>, pid: string): seq<Entry> {
    if s == [] then []
    else Kids(ids, s[..|s| - 1], pid)
         + (if IsReply(ids, s[|s| - 1]) && s[|s| - 1].parentId.value == pid then [s[|s| - 1]] else [])
  }

  /** The direct replies to each of `pids`, one parent after the other. */
  function KidsOf(ids: set<string>, s: seq<Entry>, pids: seq<string>): seq<Entry> {
    if pids == [] then [] else KidsOf(ids, s, pids[..|pids| - 1]) + Kids(ids, s, pids[|pids| - 1])
  }

  function EntryIds(s: seq<Entry>): (ids: seq<string>)
    ensures |ids| == |s| && forall i :: 0 <= i < |s| ==> ids[i] == s[i].id
  {
    seq(|s|, i requires 0 <= i < |s| => s[i].id)
  }

  ghost predicate DistinctComments(s: seq<Entry>) {
    forall i, j :: 0 <= i < j < |s| && s[i].kind.Comment? && s[j].kind.Comment? ==> s[i].id != s[j].id
  }

  /**
   * What a breadth-first bundle is: the replies to the root and to each bundled reply, in the
   * order of the bundle itself, with every parent in front of its replies.
   */
  ghost predicate Bundle(ids: set<string>, s: seq<Entry>, root: string, replies: seq<Entry>) {
    && replies == KidsOf(ids, s, [root] + EntryIds(replies))
    && ParentsFirst(ids, root, replies)
    && Distinct([root] + EntryIds(replies))
  }

  ghost predicate ParentsFirst(ids: set<string>, root: string, replies: seq<Entry>) {
    forall j :: 0 <= j < |replies| ==> ParentBefore(ids, root, replies, j)
  }

  ghost predicate ParentBefore(ids: set<string>, root: string, replies: seq<Entry>, j: nat) {
    j < |replies| && IsReply(ids, replies[j]) && replies[j].parentId.value in [root] + EntryIds(replies[..j])
  }

  ghost predicate Threaded(s: seq<Entry>, rows: seq<Row>) {
    var roots := Roots(CommentIds(s), s);
    && |rows| == |roots|
    && forall k :: 0 <= k < |rows| ==> IsRow(s, roots[k], rows[k])
  }

  ghost predicate IsRow(s: seq<Entry>, root: Entry, row: Row) {
    && row.entry == root
    && (if root.kind.Comment? then Bundle(CommentIds(s), s, root.id, row.replies) else row.replies == [])
  }

  // ---------------------------------------------------------------- the search

  /** The queue of the search after `n` rounds. */
  function Search(ids: set<string>, s: seq<Entry>, root: string, n: nat): seq<string> {
    if n == 0 then [root]
    else
      var queue := Search(ids, s, root, n - 1);
      if queue == [] then [] else queue[1..] + EntryIds(Kids(ids, s, queue[0]))
  }

  /** Its output after `n` rounds. */
  function Gathered(ids: set<string>, s: seq<Entry>, root: string, n: nat): seq<Entry> {
    if n == 0 then []
    else
      var queue := Search(ids, s, root, n - 1);
      Gathered(ids, s, root, n - 1) + (if queue == [] then [] else Kids(ids, s, queue[0]))
  }

  ghost predicate EndsAt(s: seq<Entry>, root: string, n: nat) {
    Search(CommentIds(s), s, root, n) == []
  }

  ghost predicate Ends(s: seq<Entry>, root: string) {
    exists n: nat :: EndsAt(s, root, n)
  }

  ghost predicate CollectedAt(s: seq<Entry>, root: string, n: nat, out: seq<Entry>) {
    EndsAt(s, root, n) && out == Gathered(CommentIds(s), s, root, n)
  }

  /** What the search has collected when its queue is empty. */
  ghost predicate Collected(s: seq<Entry>, root: string, out: seq<Entry>) {
    exists n: nat :: CollectedAt(s, root, n, out)
  }

  ghost predicate IsSearchedRow(s: seq<Entry>, root: Entry, row: Row) {
    && row.entry == root
    && (if root.kind.Comment? then Collected(s, root.id, row.replies) else row.replies == [])
  }

  /** One row per top-level entry, each with what its search collects. */
  ghost predicate Searched(s: seq<Entry>, rows: seq<Row>) {
    var roots := Roots(CommentIds(s), s);
    && |rows| == |roots|
    && forall k :: 0 <= k < |rows| ==> IsSearchedRow(s, roots[k], rows[k])
  }

  ghost predicate EverySearchEnds(s: seq<Entry>) {
    forall e :: e in Roots(CommentIds(s), s) && e.kind.Comment? ==> Ends(s, e.id)
  }

  // ---------------------------------------------------------------- lists

  lemma {:induction false} RootsMembers(ids: set<string>, s: seq<Entry>)
    ensures forall e :: e in Roots(ids, s) <==> e in s && !IsReply(ids, e)
  {
    if s != [] {
      RootsMembers(ids, s[..|s| - 1]);
      LastSplit(s);
    }
  }

  lemma {:induction false} KidsMembers(ids: set<string>, s: seq<Entry>, pid: string)
    ensures forall e :: e in Kids(ids, s, pid) <==> e in s && IsReply(ids, e) && e.parentId.value == pid
  {
    if s != [] {
      KidsMembers(ids, s[..|s| - 1], pid);
      LastSplit(s);
    }
  }

  lemma {:induction false} KidsOfMembers(ids: set<string>, s: seq<Entry>, pids: seq<string>)
    ensures forall e :: e in KidsOf(ids, s, pids) <==> e in s && IsReply(ids, e) && e.parentId.value in pids
  {
    if pids != [] {
      var front, last := pids[..|pids| - 1], pids[|pids| - 1];
      KidsOfMembers(ids, s, front);
      KidsMembers(ids, s, last);
      LastSplit(pids);
    }
  }

  lemma SameIdSameEntry(s: seq<Entry>)
    requires DistinctComments(s)
    ensures forall e, f :: e in s && f in s && e.kind.Comment? && f.kind.Comment? && e.id == f.id ==> e == f
  {
  }

  lemma {:induction false} KidsDistinct(ids: set<string>, s: seq<Entry>, pid: string)
    requires DistinctComments(s)
    ensures Distinct(EntryIds(Kids(ids, s, pid)))
  {
    if s != [] {
      var front, last := s[..|s| - 1], s[|s| - 1];
      KidsDistinct(ids, front, pid);
      KidsMembers(ids, front, pid);
      var kids := Kids(ids, front, pid);
      forall i | 0 <= i < |kids| && last.kind.Comment?
        ensures kids[i].id != last.id
      {
        assert kids[i] in front;
      }
    }
  }

  lemma EntryIdsAppend(a: seq<Entry>, b: seq<Entry>)
    ensures EntryIds(a + b) == EntryIds(a) + EntryIds(b)
  {
  }

  lemma DistinctConcat(a: seq<string>, b: seq<string>)
    requires Distinct(a) && Distinct(b) && forall x :: x in a ==> x !in b
    ensures Distinct(a + b)
  {
    forall i, j | 0 <= i < j < |a + b|
      ensures (a + b)[i] != (a + b)[j]
    {
      if i < |a| {
        assert a[i] in a;
        if j >= |a| {
          assert b[j - |a|] in b;
        }
      }
    }
  }

  // ---------------------------------------------------------------- the code

  /** childrenByParent, after the scan. */
  ghost predicate Table(ids: set<string>, s: seq<Entry>, children: map<string, seq<Entry>>) {
    forall pid :: Kids(ids, s, pid) == if pid in children then children[pid] else []
  }

  ghost predicate RootOf(s: seq<Entry>, root: string) {
    exists e :: e in s && e.kind.Comment? && !IsReply(CommentIds(s), e) && e.id == root
  }

  /** The head of the queue has never been expanded, so its replies are new, and none is the root. */
  lemma FreshKids(s: seq<Entry>, root: string, done: seq<string>, pid: string, out: seq<Entry>)
    requires DistinctComments(s) && RootOf(s, root) && pid !in done
    requires out == KidsOf(CommentIds(s), s, done)
    ensures forall e, f :: e in out && f in Kids(CommentIds(s), s, pid) ==> e.id != f.id
    ensures forall f :: f in Kids(CommentIds(s), s, pid) ==> f.id != root
  {
    KidsMembers(CommentIds(s), s, pid);
    KidsOfMembers(CommentIds(s), s, done);
    SameIdSameEntry(s);
  }

  lemma UnexpandedHead(seen: seq<string>, done: seq<string>, pid: string, rest: seq<string>)
    requires Distinct(seen) && done + [pid] + rest == seen
    ensures pid !in done && pid in seen
  {
    assert seen[|done|] == pid;
    assert forall i :: 0 <= i < |done| ==> seen[i] == done[i];
  }

  lemma SeenGrows(root: string, out: seq<Entry>, kids: seq<Entry>)
    requires Distinct([root] + EntryIds(out)) && Distinct(EntryIds(kids))
    requires forall e, f :: e in out && f in kids ==> e.id != f.id
    requires forall f :: f in kids ==> f.id != root
    ensures [root] + EntryIds(out + kids) == ([root] + EntryIds(out)) + EntryIds(kids)
    ensures Distinct([root] + EntryIds(out + kids))
  {
    var seen := [root] + EntryIds(out);
    EntryIdsAppend(out, kids);
    assert [root] + EntryIds(out + kids) == seen + EntryIds(kids);
    forall x | x in seen
      ensures x !in EntryIds(kids)
    {
      var i :| 0 <= i < |seen| && seen[i] == x;
      assert i > 0 ==> out[i - 1] in out;
      assert forall k :: 0 <= k < |kids| ==> kids[k] in kids;
    }
    DistinctConcat(seen, EntryIds(kids));
  }

  lemma ExpandOrder(done: seq<string>, pid: string, rest: seq<string>, seen: seq<string>, next: seq<string>)
    requires done + [pid] + rest == seen
    ensures seen + next == (done + [pid]) + (rest + next)
  {
  }

  lemma KidsOfStep(ids: set<string>, s: seq<Entry>, done: seq<string>, pid: string)
    ensures KidsOf(ids, s, done + [pid]) == KidsOf(ids, s, done) + Kids(ids, s, pid)
  {
    LastOff(done, pid);
  }

  /** One round of the search. */
  lemma ExpandKeeps(s: seq<Entry>, root: string, done: seq<string>, pid: string, rest: seq<string>, out: seq<Entry>)
    requires done + [pid] + rest == [root] + EntryIds(out)
    requires out == KidsOf(CommentIds(s), s, done)
    requires ParentsFirst(CommentIds(s), root, out)
    ensures
      var ids := CommentIds(s);
      var kids := Kids(ids, s, pid);
      && out + kids == KidsOf(ids, s, done + [pid])
      && [root] + EntryIds(out + kids) == (done + [pid]) + (rest + EntryIds(kids))
      && ParentsFirst(ids, root, out + kids)
      && (DistinctComments(s) && RootOf(s, root) && Distinct([root] + EntryIds(out)) ==>
            Distinct([root] + EntryIds(out + kids)))
  {
    var ids := CommentIds(s);
    var kids := Kids(ids, s, pid);
    var seen := [root] + EntryIds(out);
    KidsOfStep(ids, s, done, pid);
    ExpandOrder(done, pid, rest, seen, EntryIds(kids));
    EntryIdsAppend(out, kids);
    Associative([root], EntryIds(out), EntryIds(kids));
    assert seen[|done|] == pid;
    KidsMembers(ids, s, pid);
    RepliesBehindParent(ids, root, out, kids, pid);
    if DistinctComments(s) && RootOf(s, root) && Distinct(seen) {
      UnexpandedHead(seen, done, pid, rest);
      FreshKids(s, root, done, pid, out);
      KidsDistinct(ids, s, pid);
      SeenGrows(root, out, kids);
    }
  }

  lemma RepliesBehindParent(ids: set<string>, root: string, out: seq<Entry>, kids: seq<Entry>, pid: string)
    requires ParentsFirst(ids, root, out) && pid in [root] + EntryIds(out)
    requires forall e :: e in kids ==> IsReply(ids, e) && e.parentId.value == pid
    ensures ParentsFirst(ids, root, out + kids)
  {
    var all := out + kids;
    forall j | 0 <= j < |all|
      ensures ParentBefore(ids, root, all, j)
    {
      if j < |out| {
        assert ParentBefore(ids, root, out, j);
        assert all[..j] == out[..j];
      } else {
        assert all[j] in kids;
        assert all[..j] == out + kids[..j - |out|];
        EntryIdsAppend(out, kids[..j - |out|]);
      }
    }
  }

  lemma SearchBounded(s: seq<Entry>, root: string, out: seq<Entry>, done: seq<string>)
    requires RootOf(s, root) && out == KidsOf(CommentIds(s), s, done)
    requires Distinct([root] + EntryIds(out))
    ensures |out| < |CommentIds(s)|
  {
    KidsOfMembers(CommentIds(s), s, done);
    var seen := [root] + EntryIds(out);
    forall x | x in seen
      ensures x in CommentIds(s)
    {
      var i :| 0 <= i < |seen| && seen[i] == x;
      if i > 0 {
        assert out[i - 1] in out;
      }
    }
    Pigeonhole(seen, CommentIds(s));
  }

  lemma EmptyRound(ids: set<string>, s: seq<Entry>, root: string, n: nat)
    requires Search(ids, s, root, n) == []
    ensures Search(ids, s, root, n + 1) == [] && Gathered(ids, s, root, n + 1) == Gathered(ids, s, root, n)
  {
    NothingMore(Gathered(ids, s, root, n));
  }

  lemma {:induction false} StaysEmpty(ids: set<string>, s: seq<Entry>, root: string, n: nat, m: nat)
    requires Search(ids, s, root, n) == [] && n <= m
    ensures Search(ids, s, root, m) == [] && Gathered(ids, s, root, m) == Gathered(ids, s, root, n)
    decreases m
  {
    if n < m {
      StaysEmpty(ids, s, root, n, m - 1);
      EmptyRound(ids, s, root, m - 1);
    }
  }

  /** The search has one output, whenever it is looked at. */
  lemma CollectedOnce(s: seq<Entry>, root: string, a: seq<Entry>, b: seq<Entry>)
    requires Collected(s, root, a) && Collected(s, root, b)
    ensures a == b
  {
    var ids := CommentIds(s);
    var m: nat :| CollectedAt(s, root, m, a);
    var n: nat :| CollectedAt(s, root, n, b);
    StaysEmpty(ids, s, root, if m < n then m else n, if m < n then n else m);
  }

  ghost predicate Busy(s: seq<Entry>, root: string, n: nat) {
    forall k: nat :: k < n ==> !EndsAt(s, root, k)
  }

  /** The ids seen so far are the expanded ones and the queue. */
  ghost predicate SearchState(s: seq<Entry>, root: string, n: nat,
                              done: seq<string>, queue: seq<string>, out: seq<Entry>)
  {
    && |done| == n && done + queue == [root] + EntryIds(out)
    && out == KidsOf(CommentIds(s), s, done)
    && ParentsFirst(CommentIds(s), root, out)
  }

  lemma NextRound(ids: set<string>, s: seq<Entry>, root: string, n: nat, queue: seq<string>)
    requires queue == Search(ids, s, root, n) && queue != []
    ensures Search(ids, s, root, n + 1) == queue[1..] + EntryIds(Kids(ids, s, queue[0]))
    ensures Gathered(ids, s, root, n + 1) == Gathered(ids, s, root, n) + Kids(ids, s, queue[0])
  {
  }

  /** For distinct comment ids nothing is seen twice. */
  ghost predicate SeenOnce(s: seq<Entry>, root: string, n: nat,
                           done: seq<string>, queue: seq<string>, out: seq<Entry>)
  {
    && SearchState(s, root, n, done, queue, out)
    && (DistinctComments(s) && RootOf(s, root) ==> Distinct([root] + EntryIds(out)))
  }

  lemma SeenRound(s: seq<Entry>, root: string, n: nat, done: seq<string>, queue: seq<string>, out: seq<Entry>)
    requires SeenOnce(s, root, n, done, queue, out) && queue != []
    ensures
      var kids := Kids(CommentIds(s), s, queue[0]);
      SeenOnce(s, root, n + 1, done + [queue[0]], queue[1..] + EntryIds(kids), out + kids)
  {
    Halves(queue, 1);
    assert [queue[0]] == queue[..1];
    Associative(done, [queue[0]], queue[1..]);
    ExpandKeeps(s, root, done, queue[0], queue[1..], out);
  }

  lemma SeenStart(s: seq<Entry>, root: string)
    ensures SeenOnce(s, root, 0, [], [root], [])
  {
    NothingMore([root]);
  }

  lemma SeenNext(s: seq<Entry>, root: string, n: nat, before: seq<string>, done: seq<string>)
    requires !EndsAt(s, root, n) && done != [] && done == before + [Search(CommentIds(s), s, root, n)[0]]
    requires SeenAt(s, root, n, before)
    ensures SeenAt(s, root, n + 1, done)
  {
    var queue := Search(CommentIds(s), s, root, n);
    SeenRound(s, root, n, before, queue, Gathered(CommentIds(s), s, root, n));
    NextRound(CommentIds(s), s, root, n, queue);
  }

  /** After `n` rounds: the ids expanded are `done`. */
  ghost predicate SeenAt(s: seq<Entry>, root: string, n: nat, done: seq<string>) {
    SeenOnce(s, root, n, done, Search(CommentIds(s), s, root, n), Gathered(CommentIds(s), s, root, n))
  }

  lemma {:induction false} SearchSeen(s: seq<Entry>, root: string, n: nat) returns (done: seq<string>)
    requires Busy(s, root, n)
    ensures SeenAt(s, root, n, done)
  {
    if n == 0 {
      done := [];
      SeenStart(s, root);
    } else {
      assert !EndsAt(s, root, n - 1);
      var before := SearchSeen(s, root, n - 1);
      done := before + [Search(CommentIds(s), s, root, n - 1)[0]];
      SeenNext(s, root, n - 1, before, done);
    }
  }

  lemma {:induction false} FirstEmpty(s: seq<Entry>, root: string, n: nat) returns (m: nat)
    requires EndsAt(s, root, n)
    ensures m <= n && EndsAt(s, root, m) && Busy(s, root, m)
  {
    if n > 0 && EndsAt(s, root, n - 1) {
      m := FirstEmpty(s, root, n - 1);
    } else {
      m := n;
      forall k: nat | k < n
        ensures !EndsAt(s, root, k)
      {
        if EndsAt(s, root, k) {
          StaysEmpty(CommentIds(s), s, root, k, n - 1);
        }
      }
    }
  }

  /** For distinct comment ids the search ends. */
  lemma DistinctSearchEnds(s: seq<Entry>, root: string)
    requires DistinctComments(s) && RootOf(s, root)
    ensures Ends(s, root)
  {
    var ids := CommentIds(s);
    var n := |ids|;
    if forall k: nat :: !EndsAt(s, root, k) {
      assert !EndsAt(s, root, n);
      var done := SearchSeen(s, root, n);
      SearchBounded(s, root, Gathered(ids, s, root, n), done);
      assert false;
    }
  }

  /** Wherever it ends, it has collected the replies to the root and to all it has collected, parents first. */
  lemma CollectedIsTraversal(s: seq<Entry>, root: string, out: seq<Entry>)
    requires Collected(s, root, out)
    ensures out == KidsOf(CommentIds(s), s, [root] + EntryIds(out))
    ensures ParentsFirst(CommentIds(s), root, out)
    ensures DistinctComments(s) && RootOf(s, root) ==> Distinct([root] + EntryIds(out))
  {
    var n: nat :| CollectedAt(s, root, n, out);
    var m := FirstEmpty(s, root, n);
    StaysEmpty(CommentIds(s), s, root, m, n);
    var done := SearchSeen(s, root, m);
    NothingMore(done);
  }

  /** For distinct comment ids that is a breadth-first bundle. */
  lemma CollectedIsBundle(s: seq<Entry>, root: string, out: seq<Entry>)
    requires DistinctComments(s) && RootOf(s, root) && Collected(s, root, out)
    ensures Bundle(CommentIds(s), s, root, out)
  {
    CollectedIsTraversal(s, root, out);
  }

  lemma RootsAreRoots(s: seq<Entry>, e: Entry)
    requires e in Roots(CommentIds(s), s) && e.kind.Comment?
    ensures RootOf(s, e.id)
  {
    RootsMembers(CommentIds(s), s);
  }

  /** Distinct comment ids: every search ends, and the rows are breadth-first bundles. */
  lemma DistinctIsThreaded(s: seq<Entry>)
    requires DistinctComments(s)
    ensures EverySearchEnds(s)
    ensures forall rows :: Searched(s, rows) ==> Threaded(s, rows)
  {
    var roots := Roots(CommentIds(s), s);
    forall e | e in roots && e.kind.Comment?
      ensures Ends(s, e.id)
    {
      RootsAreRoots(s, e);
      DistinctSearchEnds(s, e.id);
    }
    forall rows | Searched(s, rows)
      ensures Threaded(s, rows)
    {
      forall k | 0 <= k < |rows|
        ensures IsRow(s, roots[k], rows[k])
      {
        SearchedRowIsRow(s, roots[k], rows[k]);
      }
    }
  }

  lemma SearchedRowIsRow(s: seq<Entry>, root: Entry, row: Row)
    requires DistinctComments(s) && root in Roots(CommentIds(s), s) && IsSearchedRow(s, root, row)
    ensures IsRow(s, root, row)
  {
    if root.kind.Comment? {
      RootsAreRoots(s, root);
      CollectedIsBundle(s, root.id, row.replies);
    }
  }

  method CollectDescendants(ghost s: seq<Entry>, children: map<string, seq<Entry>>, root: string)
    returns (out: seq<Entry>)
    requires Table(CommentIds(s), s, children) && Ends(s, root)
    ensures Collected(s, root, out)
  {
    ghost var ids := CommentIds(s);
    out := [];
    var queue := [root];
    ghost var last: nat :| EndsAt(s, root, last);
    ghost var n: nat := 0;
    while |queue| > 0
      invariant queue == Search(ids, s, root, n) && out == Gathered(ids, s, root, n)
      invariant n <= last
      decreases last - n
    {
      var pid := queue[0];
      NextRound(ids, s, root, n, queue);
      out, queue := Expand(ids, s, children, pid, out, queue[1..]);
      n := n + 1;
    }
    assert CollectedAt(s, root, n, out);
  }

  /** const kids = childrenByParent.get(pid); if (!kids) continue; … */
  method Expand(ghost ids: set<string>, ghost s: seq<Entry>, children: map<string, seq<Entry>>,
                pid: string, out0: seq<Entry>, queue0: seq<string>)
    returns (out: seq<Entry>, queue: seq<string>)
    requires Table(ids, s, children)
    ensures out == out0 + Kids(ids, s, pid) && queue == queue0 + EntryIds(Kids(ids, s, pid))
  {
    if pid !in children {
      NothingMore(out0);
      NothingMore(queue0);
      return out0, queue0;
    }
    out, queue := ReadKids(children[pid], out0, queue0);
  }

  /** for (const child of kids) { out.push(child); queue.push(child.id); } */
  method ReadKids(kids: seq<Entry>, out0: seq<Entry>, queue0: seq<string>) returns (out: seq<Entry>, queue: seq<string>)
    ensures out == out0 + kids && queue == queue0 + EntryIds(kids)
  {
    out, queue := out0, queue0;
    for k := 0 to |kids|
      invariant out == out0 + kids[..k] && queue == queue0 + EntryIds(kids[..k])
    {
      assert kids[..k + 1] == kids[..k] + [kids[k]];
      EntryIdsAppend(kids[..k], [kids[k]]);
      out := out + [kids[k]];
      queue := queue + [kids[k].id];
    }
    assert kids[..|kids|] == kids;
  }

  lemma CommentIdsStep(s: seq<Entry>, e: Entry)
    ensures CommentIds(s + [e]) == CommentIds(s) + (if e.kind.Comment? then {e.id} else {})
  {
    assert forall f :: f in s + [e] <==> f in s || f == e;
  }

  lemma TableStep(ids: set<string>, s: seq<Entry>, e: Entry, children: map<string, seq<Entry>>)
    requires Table(ids, s, children) && IsReply(ids, e)
    ensures
      var pid := e.parentId.value;
      Table(ids, s + [e], children[pid := (if pid in children then children[pid] else []) + [e]])
  {
    assert (s + [e])[..|s|] == s;
  }

  lemma RootStep(ids: set<string>, s: seq<Entry>, e: Entry, children: map<string, seq<Entry>>)
    requires Table(ids, s, children) && !IsReply(ids, e)
    ensures Table(ids, s + [e], children) && Roots(ids, s + [e]) == Roots(ids, s) + [e]
  {
    assert (s + [e])[..|s|] == s;
    assert forall pid :: Kids(ids, s + [e], pid) == Kids(ids, s, pid);
  }

  /** The first scan: which comments are loaded. */
  method LoadedComments(entries: seq<Entry>) returns (commentIds: set<string>)
    ensures commentIds == CommentIds(entries)
  {
    commentIds := {};
    for i := 0 to |entries|
      invariant commentIds == CommentIds(entries[..i])
    {
      assert entries[..i + 1] == entries[..i] + [entries[i]];
      CommentIdsStep(entries[..i], entries[i]);
      if entries[i].kind.Comment? {
        commentIds := commentIds + {entries[i].id};
      }
    }
    assert entries[..|entries|] == entries;
  }

  /** The second scan: top-level entries apart, replies filed under their parent. */
  method Partition(entries: seq<Entry>, commentIds: set<string>)
    returns (topLevel: seq<Entry>, children: map<string, seq<Entry>>)
    ensures topLevel == Roots(commentIds, entries)
    ensures Table(commentIds, entries, children)
  {
    topLevel, children := [], map[];
    for i := 0 to |entries|
      invariant topLevel == Roots(commentIds, entries[..i])
      invariant Table(commentIds, entries[..i], children)
    {
      var e := entries[i];
      assert entries[..i + 1] == entries[..i] + [e];
      if e.kind.Comment? && Truthy(e.parentId) && e.parentId.value in commentIds {
        TableStep(commentIds, entries[..i], e, children);
        var list := if e.parentId.value in children then children[e.parentId.value] else [];
        children := children[e.parentId.value := list + [e]];
      } else {
        RootStep(commentIds, entries[..i], e, children);
        topLevel := topLevel + [e];
      }
    }
    assert entries[..|entries|] == entries;
  }

  method BuildTimelineRows(entries: seq<Entry>) returns (rows: seq<Row>)
    requires EverySearchEnds(entries)
    ensures Searched(entries, rows)
    ensures DistinctComments(entries) ==> Threaded(entries, rows)
  {
    var commentIds := LoadedComments(entries);
    var topLevel, children := Partition(entries, commentIds);
    rows := [];
    for k := 0 to |topLevel|
      invariant |rows| == k
      invariant forall j :: 0 <= j < k ==> IsSearchedRow(entries, topLevel[j], rows[j])
    {
      var row := BuildRow(entries, children, topLevel[k]);
      rows := rows + [row];
    }
    if DistinctComments(entries) {
      DistinctIsThreaded(entries);
    }
  }

  /** One row: the entry, and its descendants if it is a comment. */
  method BuildRow(ghost s: seq<Entry>, children: map<string, seq<Entry>>, entry: Entry) returns (row: Row)
    requires Table(CommentIds(s), s, children)
    requires entry.kind.Comment? ==> Ends(s, entry.id)
    ensures IsSearchedRow(s, entry, row)
  {
    if entry.kind.Comment? {
      var replies := CollectDescendants(s, children, entry.id);
      return Row(entry, replies);
    }
    return Row(entry, []);
  }
}
