/** When the search for descendants ends, and what repeated comment ids do to the rows. */
module TimelineSearch {
  import opened Prelude
  import opened TimelineBundles
  import opened TimelineEntry
  import opened TimelineThread

  // ---------------------------------------------------------------- paths of reply links

  /** A comment with the id `y` replies, `n` links down, to `x`. */
  ghost predicate Path(s: seq<Entry>, x: string, y: string, n: nat)
    decreases n
  {
    if n == 0 then x == y else exists z :: Child(s, x, z) && Path(s, z, y, n - 1)
  }

  ghost predicate Child(s: seq<Entry>, x: string, z: string) {
    z in EntryIds(Kids(CommentIds(s), s, x))
  }

  /** An id that can be reached from itself. */
  ghost predicate Loops(s: seq<Entry>, x: string) {
    exists n: nat :: n > 0 && Path(s, x, x, n)
  }

  ghost predicate ReachesLoop(s: seq<Entry>, x: string) {
    exists y, n: nat :: Path(s, x, y, n) && Loops(s, y)
  }

  lemma ChildHasParent(s: seq<Entry>, x: string, z: string)
    requires Child(s, x, z)
    ensures x in CommentIds(s)
  {
    var kids := Kids(CommentIds(s), s, x);
    KidsMembers(CommentIds(s), s, x);
    var i :| 0 <= i < |kids| && kids[i].id == z;
    assert kids[i] in kids;
  }

  // ---------------------------------------------------------------- a loop keeps the queue busy

  lemma LoopBelow(s: seq<Entry>, x: string) returns (z: string)
    requires ReachesLoop(s, x)
    ensures Child(s, x, z) && ReachesLoop(s, z)
  {
    var y, n: nat :| Path(s, x, y, n) && Loops(s, y);
    if n == 0 {
      var k: nat :| k > 0 && Path(s, x, x, k);
      z :| Child(s, x, z) && Path(s, z, x, k - 1);
    } else {
      z :| Child(s, x, z) && Path(s, z, y, n - 1);
    }
  }

  lemma RoundKeeps(s: seq<Entry>, queue: seq<string>, x: string) returns (z: string)
    requires x in queue && ReachesLoop(s, x)
    ensures z in queue[1..] + EntryIds(Kids(CommentIds(s), s, queue[0])) && ReachesLoop(s, z)
  {
    if x == queue[0] {
      z := LoopBelow(s, x);
    } else {
      z := x;
      Halves(queue, 1);
    }
  }

  lemma {:induction false} LoopStaysQueued(s: seq<Entry>, root: string, n: nat) returns (x: string)
    requires ReachesLoop(s, root)
    ensures x in Search(CommentIds(s), s, root, n) && ReachesLoop(s, x)
  {
    if n == 0 {
      x := root;
    } else {
      x := LoopStaysQueued(s, root, n - 1);
      x := RoundKeeps(s, Search(CommentIds(s), s, root, n - 1), x);
    }
  }

  // ---------------------------------------------------------------- without a loop paths are short

  /** The ids along a path. */
  ghost predicate Walk(s: seq<Entry>, nodes: seq<string>) {
    nodes != [] && forall i: nat :: i < |nodes| - 1 ==> Child(s, nodes[i], nodes[i + 1])
  }

  lemma {:induction false} PathWalk(s: seq<Entry>, x: string, y: string, n: nat) returns (nodes: seq<string>)
    requires Path(s, x, y, n)
    ensures |nodes| == n + 1 && nodes[0] == x && Walk(s, nodes)
    decreases n
  {
    if n == 0 {
      nodes := [x];
    } else {
      var z :| Child(s, x, z) && Path(s, z, y, n - 1);
      var rest := PathWalk(s, z, y, n - 1);
      nodes := [x] + rest;
      forall i: nat | i < |nodes| - 1
        ensures Child(s, nodes[i], nodes[i + 1])
      {
        if i > 0 {
          assert Child(s, rest[i - 1], rest[i - 1 + 1]);
        }
      }
    }
  }

  lemma {:induction false} WalkPath(s: seq<Entry>, nodes: seq<string>, i: nat, j: nat)
    requires Walk(s, nodes) && i <= j < |nodes|
    ensures Path(s, nodes[i], nodes[j], j - i)
    decreases j - i
  {
    if i < j {
      WalkPath(s, nodes, i + 1, j);
      assert Child(s, nodes[i], nodes[i + 1]);
    }
  }

  lemma LongWalkLoops(s: seq<Entry>, nodes: seq<string>)
    requires Walk(s, nodes) && |nodes| == |CommentIds(s)| + 2
    ensures ReachesLoop(s, nodes[0])
  {
    var ids, parents := CommentIds(s), nodes[..|nodes| - 1];
    forall x | x in parents
      ensures x in ids
    {
      var i: nat :| i < |parents| && parents[i] == x;
      ChildHasParent(s, nodes[i], nodes[i + 1]);
    }
    if Distinct(parents) {
      Pigeonhole(parents, ids);
      assert false;
    }
    var i: nat, j: nat :| i < j < |parents| && parents[i] == parents[j];
    WalkPath(s, nodes, 0, i);
    WalkPath(s, nodes, i, j);
    assert Loops(s, nodes[i]);
  }

  /** Nothing hangs `d` links below `x`. */
  ghost predicate Shallow(s: seq<Entry>, x: string, d: nat) {
    forall y :: !Path(s, x, y, d)
  }

  lemma NoLoopIsShallow(s: seq<Entry>, x: string, d: nat)
    requires !ReachesLoop(s, x) && d == |CommentIds(s)| + 1
    ensures Shallow(s, x, d)
  {
    if !Shallow(s, x, d) {
      var y :| Path(s, x, y, d);
      var nodes := PathWalk(s, x, y, d);
      LongWalkLoops(s, nodes);
    }
  }

  ghost predicate AllShallow(s: seq<Entry>, queue: seq<string>, d: nat) {
    forall x :: x in queue ==> Shallow(s, x, d)
  }

  lemma SelfAtZero(s: seq<Entry>, x: string)
    ensures !Shallow(s, x, 0)
  {
    assert Path(s, x, x, 0);
  }

  lemma NoneAtZero(s: seq<Entry>, queue: seq<string>)
    requires AllShallow(s, queue, 0)
    ensures queue == []
  {
    if queue != [] {
      SelfAtZero(s, queue[0]);
    }
  }

  lemma ShallowChild(s: seq<Entry>, x: string, z: string, d: nat)
    requires Shallow(s, x, d + 1) && Child(s, x, z)
    ensures Shallow(s, z, d)
  {
    forall y
      ensures !Path(s, z, y, d)
    {
      assert !Path(s, x, y, d + 1);
    }
  }

  // ---------------------------------------------------------------- level by level

  lemma OneRound(s: seq<Entry>, root: string, m: nat, head: string, tail: seq<string>)
    requires Search(CommentIds(s), s, root, m) == [head] + tail
    ensures Search(CommentIds(s), s, root, m + 1) == tail + EntryIds(Kids(CommentIds(s), s, head))
  {
    FirstOff([head], tail);
    assert [head][1..] == [];
    NothingMore(tail);
  }

  lemma LevelGrows(s: seq<Entry>, front: seq<string>, last: string, rest: seq<string>)
    ensures (rest + EntryIds(KidsOf(CommentIds(s), s, front))) + EntryIds(Kids(CommentIds(s), s, last))
         == rest + EntryIds(KidsOf(CommentIds(s), s, front + [last]))
  {
    var before, kids := KidsOf(CommentIds(s), s, front), Kids(CommentIds(s), s, last);
    KidsOfStep(CommentIds(s), s, front, last);
    EntryIdsAppend(before, kids);
    Associative(rest, EntryIds(before), EntryIds(kids));
  }

  /** One round for each id in front of the queue puts the replies to all of them at its end. */
  lemma {:induction false} RoundsOfLevel(s: seq<Entry>, root: string, m: nat, part: seq<string>, rest: seq<string>)
    requires Search(CommentIds(s), s, root, m) == part + rest
    ensures Search(CommentIds(s), s, root, m + |part|) == rest + EntryIds(KidsOf(CommentIds(s), s, part))
    decreases |part|
  {
    if part == [] {
      NothingMore(rest);
    } else {
      var front, last := part[..|part| - 1], part[|part| - 1];
      LastSplit(part);
      Associative(front, [last], rest);
      RoundsOfLevel(s, root, m, front, [last] + rest);
      Associative([last], rest, EntryIds(KidsOf(CommentIds(s), s, front)));
      OneRound(s, root, m + |front|, last, rest + EntryIds(KidsOf(CommentIds(s), s, front)));
      LevelGrows(s, front, last, rest);
    }
  }

  lemma WholeLevel(s: seq<Entry>, root: string, m: nat, queue: seq<string>)
    requires Search(CommentIds(s), s, root, m) == queue
    ensures Search(CommentIds(s), s, root, m + |queue|) == EntryIds(KidsOf(CommentIds(s), s, queue))
  {
    NothingMore(queue);
    RoundsOfLevel(s, root, m, queue, []);
    NothingMore(EntryIds(KidsOf(CommentIds(s), s, queue)));
  }

  lemma IsChild(s: seq<Entry>, e: Entry)
    requires e in s && Reply(s, e)
    ensures Child(s, e.parentId.value, e.id)
  {
    var kids := Kids(CommentIds(s), s, e.parentId.value);
    KidsMembers(CommentIds(s), s, e.parentId.value);
    var i :| 0 <= i < |kids| && kids[i] == e;
    assert EntryIds(kids)[i] == e.id;
  }

  lemma NextLevelShallow(s: seq<Entry>, queue: seq<string>, d: nat)
    requires AllShallow(s, queue, d + 1)
    ensures AllShallow(s, EntryIds(KidsOf(CommentIds(s), s, queue)), d)
  {
    var kids := KidsOf(CommentIds(s), s, queue);
    KidsOfMembers(CommentIds(s), s, queue);
    forall z | z in EntryIds(kids)
      ensures Shallow(s, z, d)
    {
      var i :| 0 <= i < |kids| && EntryIds(kids)[i] == z;
      assert kids[i] in kids;
      IsChild(s, kids[i]);
      ShallowChild(s, kids[i].parentId.value, z, d);
    }
  }

  lemma NextLevel(s: seq<Entry>, root: string, m: nat, queue: seq<string>, d: nat) returns (next: seq<string>)
    requires queue == Search(CommentIds(s), s, root, m) && AllShallow(s, queue, d + 1)
    ensures next == Search(CommentIds(s), s, root, m + |queue|) && AllShallow(s, next, d)
  {
    next := EntryIds(KidsOf(CommentIds(s), s, queue));
    WholeLevel(s, root, m, queue);
    NextLevelShallow(s, queue, d);
  }

  lemma {:induction false} ShallowEnds(s: seq<Entry>, root: string, m: nat, queue: seq<string>, d: nat)
    requires queue == Search(CommentIds(s), s, root, m) && AllShallow(s, queue, d)
    ensures Ends(s, root)
    decreases d
  {
    if d == 0 {
      NoneAtZero(s, queue);
      assert EndsAt(s, root, m);
    } else {
      var next := NextLevel(s, root, m, queue, d - 1);
      ShallowEnds(s, root, m + |queue|, next, d - 1);
    }
  }

  /**
   * For any list, repeated ids included: the search from `root` ends if and only if no id that
   * the reply links reach from `root` is reached again from itself.
   */
  lemma SearchEndsIff(s: seq<Entry>, root: string)
    ensures Ends(s, root) <==> !ReachesLoop(s, root)
  {
    if ReachesLoop(s, root) {
      forall n: nat
        ensures !EndsAt(s, root, n)
      {
        var x := LoopStaysQueued(s, root, n);
      }
    } else {
      NoLoopIsShallow(s, root, |CommentIds(s)| + 1);
      ShallowEnds(s, root, 0, [root], |CommentIds(s)| + 1);
    }
  }

  // ---------------------------------------------------------------- repeated ids

  /** A reply that repeats its parent's id keeps the search busy for ever. */
  lemma ReplyWithParentsId(s: seq<Entry>, e: Entry)
    requires e in s && Reply(s, e) && e.id == e.parentId.value
    ensures !Ends(s, e.id)
  {
    IsChild(s, e);
    assert Path(s, e.id, e.id, 0);
    assert Path(s, e.id, e.id, 1);
    assert Loops(s, e.id);
    SearchEndsIff(s, e.id);
  }

  /** Two top-level comments with one id both show the replies to it. */
  lemma RepeatedRootRepeatsReplies(s: seq<Entry>, rows: seq<Row>, j: nat, k: nat)
    requires Searched(s, rows) && j < k < |rows|
    requires rows[j].entry.kind.Comment? && rows[k].entry.kind.Comment? && rows[j].entry.id == rows[k].entry.id
    ensures rows[j].replies == rows[k].replies
    ensures forall e :: e in rows[j].replies ==> multiset(AllReplies(rows))[e] >= 2
  {
    CollectedOnce(s, rows[j].entry.id, rows[j].replies, rows[k].replies);
    forall e | e in rows[j].replies
      ensures multiset(AllReplies(rows))[e] >= 2
    {
      ShownInBoth(rows, j, k, e);
    }
  }

  lemma {:induction false} ShownIn(rows: seq<Row>, j: nat, e: Entry)
    requires j < |rows| && e in rows[j].replies
    ensures multiset(AllReplies(rows))[e] >= 1
  {
    var front, last := rows[..|rows| - 1], rows[|rows| - 1];
    if j < |front| {
      ShownIn(front, j, e);
    }
    assert multiset(AllReplies(front) + last.replies) == multiset(AllReplies(front)) + multiset(last.replies);
  }

  lemma {:induction false} ShownInBoth(rows: seq<Row>, j: nat, k: nat, e: Entry)
    requires j < k < |rows| && e in rows[j].replies && e in rows[k].replies
    ensures multiset(AllReplies(rows))[e] >= 2
  {
    var front, last := rows[..|rows| - 1], rows[|rows| - 1];
    if k < |front| {
      ShownInBoth(front, j, k, e);
    } else {
      ShownIn(front, j, e);
    }
    assert multiset(AllReplies(front) + last.replies) == multiset(AllReplies(front)) + multiset(last.replies);
  }
}
