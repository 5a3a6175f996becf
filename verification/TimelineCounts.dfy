/** How often the rows show each entry, for any list, repeated comment ids included. */
module TimelineCounts {
  import opened Prelude
  import opened TimelineBundles
  import opened TimelineEntry
  import opened TimelineOrder
  import opened TimelineSearch
  import opened TimelineThread

  /** How many comments have the id `x`. */
  function CommentCount(s: seq<Entry>, x: string): nat {
    if s == [] then 0
    else CommentCount(s[..|s| - 1], x) + (if s[|s| - 1].kind.Comment? && s[|s| - 1].id == x then 1 else 0)
  }

  /** Every parent that is loaded is loaded once. */
  ghost predicate ParentsUnique(s: seq<Entry>) {
    forall e :: e in s && Reply(s, e) ==> CommentCount(s, e.parentId.value) == 1
  }

  /** What exact conservation takes: no parent is repeated, and no id is reached from itself. */
  ghost predicate Sound(s: seq<Entry>) {
    ParentsUnique(s) && forall x :: !Loops(s, x)
  }

  /** Every id that the searches of the rows take off their queues. */
  function Popped(rows: seq<Row>): seq<string> {
    if rows == [] then []
    else
      var last := rows[|rows| - 1];
      Popped(rows[..|rows| - 1]) + (if last.entry.kind.Comment? then [last.entry.id] + EntryIds(last.replies) else [])
  }

  ghost predicate AllSearched(s: seq<Entry>, rows: seq<Row>) {
    forall k :: 0 <= k < |rows| ==> IsSearchedRow(s, rows[k].entry, rows[k])
  }

  lemma SearchedRows(s: seq<Entry>, rows: seq<Row>)
    requires Searched(s, rows)
    ensures AllSearched(s, rows) && RowEntries(rows) == Roots(CommentIds(s), s)
  {
    RowEntriesOf(rows, Roots(CommentIds(s), s));
  }

  // ---------------------------------------------------------------- entries and their multiplicity

  lemma {:induction false} KidsOfConcat(ids: set<string>, s: seq<Entry>, a: seq<string>, b: seq<string>)
    ensures KidsOf(ids, s, a + b) == KidsOf(ids, s, a) + KidsOf(ids, s, b)
  {
    if b == [] {
      NothingMore(a);
      NothingMore(KidsOf(ids, s, a));
    } else {
      var front, last := b[..|b| - 1], b[|b| - 1];
      KidsOfConcat(ids, s, a, front);
      LastOfConcat(a, b);
      Associative(KidsOf(ids, s, a), KidsOf(ids, s, front), Kids(ids, s, last));
    }
  }

  lemma RowReplies(s: seq<Entry>, row: Row)
    requires IsSearchedRow(s, row.entry, row)
    ensures row.replies ==
      KidsOf(CommentIds(s), s, if row.entry.kind.Comment? then [row.entry.id] + EntryIds(row.replies) else [])
  {
    if row.entry.kind.Comment? {
      CollectedIsTraversal(s, row.entry.id, row.replies);
    }
  }

  /** The replies shown are the replies to the ids popped. */
  lemma {:induction false} RepliesOfPopped(s: seq<Entry>, rows: seq<Row>)
    requires AllSearched(s, rows)
    ensures AllReplies(rows) == KidsOf(CommentIds(s), s, Popped(rows))
  {
    if rows != [] {
      var front, last := rows[..|rows| - 1], rows[|rows| - 1];
      RepliesOfPopped(s, front);
      RowReplies(s, last);
      KidsOfConcat(CommentIds(s), s, Popped(front),
                   if last.entry.kind.Comment? then [last.entry.id] + EntryIds(last.replies) else []);
    }
  }

  lemma {:induction false} KidsCount(ids: set<string>, s: seq<Entry>, pid: string, e: Entry)
    ensures multiset(Kids(ids, s, pid))[e] == if IsReply(ids, e) && e.parentId.value == pid then multiset(s)[e] else 0
  {
    if s != [] {
      KidsCount(ids, s[..|s| - 1], pid, e);
      LastSplit(s);
    }
  }

  lemma CountLast(pids: seq<string>, x: string)
    requires pids != []
    ensures multiset(pids)[x] == multiset(pids[..|pids| - 1])[x] + (if pids[|pids| - 1] == x then 1 else 0)
  {
    LastSplit(pids);
  }

  /** So many copies for each of so many parents. */
  function Times(parents: nat, copies: nat): nat {
    if parents == 0 then 0 else Times(parents - 1, copies) + copies
  }

  lemma {:induction false} OnceIff(parents: nat, copies: nat)
    requires copies > 0
    ensures Times(parents, copies) == copies <==> parents == 1
  {
    if parents > 1 {
      OnceIff(parents - 1, copies);
      assert Times(parents - 1, copies) >= copies;
    } else if parents == 1 {
      assert Times(0, copies) == 0;
    }
  }

  lemma KidsOfStepCount(ids: set<string>, s: seq<Entry>, pids: seq<string>, e: Entry)
    requires pids != []
    ensures multiset(KidsOf(ids, s, pids))[e] == multiset(KidsOf(ids, s, pids[..|pids| - 1]))[e] +
      (if IsReply(ids, e) && e.parentId.value == pids[|pids| - 1] then multiset(s)[e] else 0)
  {
    KidsCount(ids, s, pids[|pids| - 1], e);
    Grow(KidsOf(ids, s, pids[..|pids| - 1]), Kids(ids, s, pids[|pids| - 1]));
  }

  lemma {:induction false} KidsOfCount(ids: set<string>, s: seq<Entry>, pids: seq<string>, e: Entry)
    ensures multiset(KidsOf(ids, s, pids))[e] ==
      if IsReply(ids, e) then Times(multiset(pids)[e.parentId.value], multiset(s)[e]) else 0
  {
    if pids != [] {
      KidsOfCount(ids, s, pids[..|pids| - 1], e);
      KidsOfStepCount(ids, s, pids, e);
      if IsReply(ids, e) {
        CountLast(pids, e.parentId.value);
      }
    }
  }

  lemma {:induction false} RootsCount(ids: set<string>, s: seq<Entry>, e: Entry)
    ensures multiset(Roots(ids, s))[e] == if IsReply(ids, e) then 0 else multiset(s)[e]
  {
    if s != [] {
      RootsCount(ids, s[..|s| - 1], e);
      LastSplit(s);
    }
  }

  /** A reply is shown as often as its parent is popped, anything else as often as it is loaded. */
  lemma ShownCount(s: seq<Entry>, rows: seq<Row>, e: Entry)
    requires Searched(s, rows)
    ensures multiset(RowEntries(rows) + AllReplies(rows))[e] ==
      if Reply(s, e) then Times(multiset(Popped(rows))[e.parentId.value], multiset(s)[e]) else multiset(s)[e]
  {
    SearchedRows(s, rows);
    RepliesOfPopped(s, rows);
    KidsOfCount(CommentIds(s), s, Popped(rows), e);
    RootsCount(CommentIds(s), s, e);
    Grow(RowEntries(rows), AllReplies(rows));
  }

  ghost predicate PoppedOnce(s: seq<Entry>, pids: seq<string>) {
    forall e :: e in s && Reply(s, e) ==> multiset(pids)[e.parentId.value] == 1
  }

  lemma ConservedIsOnce(s: seq<Entry>, rows: seq<Row>)
    requires Searched(s, rows) && multiset(RowEntries(rows) + AllReplies(rows)) == multiset(s)
    ensures PoppedOnce(s, Popped(rows))
  {
    forall e | e in s && Reply(s, e)
      ensures multiset(Popped(rows))[e.parentId.value] == 1
    {
      ShownCount(s, rows, e);
      OnceIff(multiset(Popped(rows))[e.parentId.value], multiset(s)[e]);
    }
  }

  lemma OnceIsShownOnce(s: seq<Entry>, rows: seq<Row>, e: Entry)
    requires Searched(s, rows) && PoppedOnce(s, Popped(rows))
    ensures multiset(RowEntries(rows) + AllReplies(rows))[e] == multiset(s)[e]
  {
    ShownCount(s, rows, e);
    if Reply(s, e) && e in s {
      OnceIff(multiset(Popped(rows))[e.parentId.value], multiset(s)[e]);
    } else if Reply(s, e) {
      NoCopies(multiset(Popped(rows))[e.parentId.value]);
    }
  }

  lemma {:induction false} NoCopies(parents: nat)
    ensures Times(parents, 0) == 0
  {
    if parents > 0 {
      NoCopies(parents - 1);
    }
  }

  lemma SameCounts(a: multiset<Entry>, b: multiset<Entry>)
    requires forall e :: a[e] == b[e]
    ensures a == b
  {
  }

  lemma OnceIsConserved(s: seq<Entry>, rows: seq<Row>)
    requires Searched(s, rows) && PoppedOnce(s, Popped(rows))
    ensures multiset(RowEntries(rows) + AllReplies(rows)) == multiset(s)
  {
    forall e
      ensures multiset(RowEntries(rows) + AllReplies(rows))[e] == multiset(s)[e]
    {
      OnceIsShownOnce(s, rows, e);
    }
    SameCounts(multiset(RowEntries(rows) + AllReplies(rows)), multiset(s));
  }

  // ---------------------------------------------------------------- how often an id is popped

  /** The replies with the id `x`, each as often as its parent is among `pids`. */
  ghost function ReplyCount(ids: set<string>, s: seq<Entry>, pids: seq<string>, x: string): nat {
    if s == [] then 0
    else
      var e := s[|s| - 1];
      ReplyCount(ids, s[..|s| - 1], pids, x)
        + (if IsReply(ids, e) && e.id == x then multiset(pids)[e.parentId.value] else 0)
  }

  lemma {:induction false} NoParents(ids: set<string>, s: seq<Entry>, x: string)
    ensures ReplyCount(ids, s, [], x) == 0
  {
    if s != [] {
      NoParents(ids, s[..|s| - 1], x);
    }
  }

  lemma EntryIdsLast(s: seq<Entry>, e: Entry)
    ensures multiset(EntryIds(s + [e])) == multiset(EntryIds(s)) + multiset{e.id}
  {
    EntryIdsAppend(s, [e]);
    Grow(EntryIds(s), EntryIds([e]));
    assert EntryIds([e]) == [e.id];
  }

  lemma KidIdsLast(ids: set<string>, s: seq<Entry>, pid: string, x: string)
    requires s != []
    ensures
      var e := s[|s| - 1];
      multiset(EntryIds(Kids(ids, s, pid)))[x] == multiset(EntryIds(Kids(ids, s[..|s| - 1], pid)))[x] +
        (if IsReply(ids, e) && e.parentId.value == pid && e.id == x then 1 else 0)
  {
    var kids := Kids(ids, s[..|s| - 1], pid);
    EntryIdsLast(kids, s[|s| - 1]);
    NothingMore(kids);
  }

  lemma CountMore(pids: seq<string>, pid: string, x: string)
    ensures multiset(pids + [pid])[x] == multiset(pids)[x] + (if x == pid then 1 else 0)
  {
    Grow(pids, [pid]);
  }

  lemma {:induction false} OneMoreParent(ids: set<string>, s: seq<Entry>, pids: seq<string>, pid: string, x: string)
    ensures ReplyCount(ids, s, pids + [pid], x) ==
      ReplyCount(ids, s, pids, x) + multiset(EntryIds(Kids(ids, s, pid)))[x]
  {
    if s != [] {
      var e := s[|s| - 1];
      OneMoreParent(ids, s[..|s| - 1], pids, pid, x);
      KidIdsLast(ids, s, pid, x);
      if IsReply(ids, e) {
        CountMore(pids, pid, e.parentId.value);
      }
    }
  }

  lemma {:induction false} KidsIdCount(ids: set<string>, s: seq<Entry>, pids: seq<string>, x: string)
    ensures multiset(EntryIds(KidsOf(ids, s, pids)))[x] == ReplyCount(ids, s, pids, x)
  {
    if pids == [] {
      NoParents(ids, s, x);
    } else {
      var front, last := pids[..|pids| - 1], pids[|pids| - 1];
      KidsIdCount(ids, s, front, x);
      LastSplit(pids);
      OneMoreParent(ids, s, front, last, x);
      EntryIdsAppend(KidsOf(ids, s, front), Kids(ids, s, last));
      Grow(EntryIds(KidsOf(ids, s, front)), EntryIds(Kids(ids, s, last)));
    }
  }

  lemma {:induction false} PoppedOfRows(s: seq<Entry>, rows: seq<Row>, x: string)
    requires AllSearched(s, rows)
    ensures multiset(Popped(rows))[x] == CommentCount(RowEntries(rows), x) + multiset(EntryIds(AllReplies(rows)))[x]
  {
    if rows != [] {
      var front, last := rows[..|rows| - 1], rows[|rows| - 1];
      PoppedOfRows(s, front, x);
      PoppedOfRow(s, last, Popped(front), x);
      EntryIdsAppend(AllReplies(front), last.replies);
      Grow(EntryIds(AllReplies(front)), EntryIds(last.replies));
      LastOff(RowEntries(front), last.entry);
    }
  }

  lemma PoppedOfRow(s: seq<Entry>, row: Row, before: seq<string>, x: string)
    requires IsSearchedRow(s, row.entry, row)
    ensures multiset(before + (if row.entry.kind.Comment? then [row.entry.id] + EntryIds(row.replies) else []))[x] ==
      multiset(before)[x] + multiset(EntryIds(row.replies))[x]
        + (if row.entry.kind.Comment? && row.entry.id == x then 1 else 0)
  {
    Grow(before, [row.entry.id] + EntryIds(row.replies));
    Grow([row.entry.id], EntryIds(row.replies));
    NothingMore(before);
  }

  /** An id is popped for each top-level comment with it, and for each reply with it as often as that is shown. */
  lemma PoppedCount(s: seq<Entry>, rows: seq<Row>, x: string)
    requires Searched(s, rows)
    ensures multiset(Popped(rows))[x] ==
      CommentCount(Roots(CommentIds(s), s), x) + ReplyCount(CommentIds(s), s, Popped(rows), x)
  {
    SearchedRows(s, rows);
    PoppedOfRows(s, rows, x);
    RepliesOfPopped(s, rows);
    KidsIdCount(CommentIds(s), s, Popped(rows), x);
  }

  // ---------------------------------------------------------------- popped once: parents are unique, links do not loop

  lemma {:induction false} CountSplits(ids: set<string>, s: seq<Entry>, pids: seq<string>, x: string)
    requires forall e :: e in s && IsReply(ids, e) ==> multiset(pids)[e.parentId.value] == 1
    ensures CommentCount(s, x) == CommentCount(Roots(ids, s), x) + ReplyCount(ids, s, pids, x)
  {
    if s != [] {
      var front, e := s[..|s| - 1], s[|s| - 1];
      LastSplit(s);
      CountSplits(ids, front, pids, x);
      LastOff(Roots(ids, front), e);
      NothingMore(Roots(ids, front));
    }
  }

  lemma OnceIsUnique(s: seq<Entry>, rows: seq<Row>)
    requires Searched(s, rows) && PoppedOnce(s, Popped(rows))
    ensures ParentsUnique(s)
  {
    forall e | e in s && Reply(s, e)
      ensures CommentCount(s, e.parentId.value) == 1
    {
      CountSplits(CommentIds(s), s, Popped(rows), e.parentId.value);
      PoppedCount(s, rows, e.parentId.value);
    }
  }

  lemma {:induction false} PathLonger(s: seq<Entry>, x: string, y: string, z: string, n: nat)
    requires Path(s, x, y, n) && Child(s, y, z)
    ensures Path(s, x, z, n + 1)
    decreases n
  {
    if n == 0 {
      assert Path(s, z, z, 0);
    } else {
      var w :| Child(s, x, w) && Path(s, w, y, n - 1);
      PathLonger(s, w, y, z, n - 1);
    }
  }

  /** What a search has seen hangs below its root. */
  lemma {:induction false} SeenIsReached(s: seq<Entry>, root: string, out: seq<Entry>, j: nat) returns (n: nat)
    requires ParentsFirst(CommentIds(s), root, out) && j <= |out| && forall e :: e in out ==> e in s
    ensures Path(s, root, ([root] + EntryIds(out))[j], n)
    decreases j
  {
    if j == 0 {
      n := 0;
    } else {
      var e, earlier := out[j - 1], [root] + EntryIds(out[..j - 1]);
      assert ParentBefore(CommentIds(s), root, out, j - 1);
      var i :| 0 <= i < |earlier| && earlier[i] == e.parentId.value;
      assert ([root] + EntryIds(out))[i] == earlier[i];
      n := SeenIsReached(s, root, out, i);
      assert e in out;
      IsChild(s, e);
      PathLonger(s, root, e.parentId.value, e.id, n);
      n := n + 1;
    }
  }

  lemma {:induction false} PoppedRow(rows: seq<Row>, x: string) returns (k: nat)
    requires x in Popped(rows)
    ensures k < |rows| && rows[k].entry.kind.Comment? && x in [rows[k].entry.id] + EntryIds(rows[k].replies)
  {
    if x in Popped(rows[..|rows| - 1]) {
      k := PoppedRow(rows[..|rows| - 1], x);
    } else {
      k := |rows| - 1;
    }
  }

  /** No id that a row's search has taken off its queue loops. */
  lemma PoppedDoesNotLoop(s: seq<Entry>, rows: seq<Row>, x: string)
    requires Searched(s, rows) && x in Popped(rows)
    ensures !Loops(s, x)
  {
    var k := PoppedRow(rows, x);
    var root, out := rows[k].entry.id, rows[k].replies;
    SearchedRows(s, rows);
    CollectedIsTraversal(s, root, out);
    KidsOfMembers(CommentIds(s), s, [root] + EntryIds(out));
    var j :| 0 <= j <= |out| && ([root] + EntryIds(out))[j] == x;
    var n := SeenIsReached(s, root, out, j);
    var m: nat :| CollectedAt(s, root, m, out);
    assert Ends(s, root);
    SearchEndsIff(s, root);
  }

  lemma LoopHasReply(s: seq<Entry>, x: string) returns (e: Entry)
    requires Loops(s, x)
    ensures e in s && Reply(s, e) && e.parentId.value == x
  {
    var n: nat :| n > 0 && Path(s, x, x, n);
    var z :| Child(s, x, z) && Path(s, z, x, n - 1);
    var kids := Kids(CommentIds(s), s, x);
    KidsMembers(CommentIds(s), s, x);
    var i :| 0 <= i < |kids| && kids[i].id == z;
    e := kids[i];
    assert e in kids;
  }

  lemma OnceHasNoLoop(s: seq<Entry>, rows: seq<Row>, x: string)
    requires Searched(s, rows) && PoppedOnce(s, Popped(rows))
    ensures !Loops(s, x)
  {
    if Loops(s, x) {
      var e := LoopHasReply(s, x);
      assert x in Popped(rows);
      PoppedDoesNotLoop(s, rows, x);
    }
  }

  // ---------------------------------------------------------------- and the other way round

  lemma {:induction false} NoneWithId(ids: set<string>, s: seq<Entry>, pids: seq<string>, x: string)
    requires CommentCount(s, x) == 0
    ensures CommentCount(Roots(ids, s), x) == 0 && ReplyCount(ids, s, pids, x) == 0
  {
    if s != [] {
      NoneWithId(ids, s[..|s| - 1], pids, x);
      LastOff(Roots(ids, s[..|s| - 1]), s[|s| - 1]);
      NothingMore(Roots(ids, s[..|s| - 1]));
    }
  }

  /** The one comment with the id, at the top or a reply. */
  lemma {:induction false} OneWithId(ids: set<string>, s: seq<Entry>, pids: seq<string>, x: string)
    returns (p: Entry)
    requires CommentCount(s, x) == 1
    ensures p in s && p.kind.Comment? && p.id == x
    ensures CommentCount(Roots(ids, s), x) == if IsReply(ids, p) then 0 else 1
    ensures ReplyCount(ids, s, pids, x) == if IsReply(ids, p) then multiset(pids)[p.parentId.value] else 0
  {
    var front, last := s[..|s| - 1], s[|s| - 1];
    LastOff(Roots(ids, front), last);
    NothingMore(Roots(ids, front));
    if last.kind.Comment? && last.id == x {
      NoneWithId(ids, front, pids, x);
      p := last;
    } else {
      p := OneWithId(ids, front, pids, x);
    }
  }

  lemma WalkUp(s: seq<Entry>, nodes: seq<string>, p: Entry)
    requires Walk(s, nodes) && p in s && Reply(s, p) && p.id == nodes[0]
    ensures Walk(s, [p.parentId.value] + nodes)
  {
    IsChild(s, p);
    var longer := [p.parentId.value] + nodes;
    forall i: nat | i < |longer| - 1
      ensures Child(s, longer[i], longer[i + 1])
    {
      if i > 0 {
        assert Child(s, nodes[i - 1], nodes[i - 1 + 1]);
      }
    }
  }

  /** A parent is popped once if its own parent is; going up, no chain is longer than the ids. */
  lemma {:induction false} PoppedOnceUp(s: seq<Entry>, rows: seq<Row>, nodes: seq<string>)
    requires Searched(s, rows) && ParentsUnique(s) && forall x :: !Loops(s, x)
    requires Walk(s, nodes) && |nodes| <= |CommentIds(s)| + 2 && CommentCount(s, nodes[0]) == 1
    ensures multiset(Popped(rows))[nodes[0]] == 1
    decreases |CommentIds(s)| + 2 - |nodes|
  {
    var ids := CommentIds(s);
    if |nodes| == |ids| + 2 {
      LongWalkLoops(s, nodes);
      assert false;
    } else {
      var p := OneWithId(ids, s, Popped(rows), nodes[0]);
      PoppedCount(s, rows, nodes[0]);
      if Reply(s, p) {
        WalkUp(s, nodes, p);
        PoppedOnceUp(s, rows, [p.parentId.value] + nodes);
      }
    }
  }

  lemma UniqueIsOnce(s: seq<Entry>, rows: seq<Row>)
    requires Searched(s, rows) && ParentsUnique(s) && forall x :: !Loops(s, x)
    ensures PoppedOnce(s, Popped(rows))
  {
    forall e | e in s && Reply(s, e)
      ensures multiset(Popped(rows))[e.parentId.value] == 1
    {
      PoppedOnceUp(s, rows, [e.parentId.value]);
    }
  }

  /**
   * For any list on which the searches end: every entry is shown exactly as often as it is loaded
   * if and only if every loaded parent is one comment and no id is reached from itself.
   */
  lemma NothingLostOrRepeatedIff(s: seq<Entry>, rows: seq<Row>)
    requires Searched(s, rows)
    ensures multiset(RowEntries(rows) + AllReplies(rows)) == multiset(s) <==> Sound(s)
  {
    if multiset(RowEntries(rows) + AllReplies(rows)) == multiset(s) {
      ConservedIsOnce(s, rows);
      OnceIsUnique(s, rows);
      forall x
        ensures !Loops(s, x)
      {
        OnceHasNoLoop(s, rows, x);
      }
    }
    if Sound(s) {
      UniqueIsOnce(s, rows);
      OnceIsConserved(s, rows);
    }
  }

  // ---------------------------------------------------------------- two lists

  /** A comment, two replies to it with one id, and a reply to that id. */
  ghost predicate RepeatedId(s: seq<Entry>) {
    s == [CommentOf("r", None, ""), CommentOf("c", Some("r"), "first"),
          CommentOf("c", Some("r"), "second"), CommentOf("d", Some("c"), "")]
  }

  lemma RepeatedIdKids(s: seq<Entry>, pid: string)
    requires RepeatedId(s)
    ensures Kids(CommentIds(s), s, pid) == if pid == "r" then [s[1], s[2]] else if pid == "c" then [s[3]] else []
  {
    var ids := CommentIds(s);
    assert s[0] in s && s[1] in s;
    assert "r" in ids && "c" in ids;
    FourKids(ids, s, pid, "r", "c");
  }

  lemma FourKids(ids: set<string>, s: seq<Entry>, pid: string, x: string, y: string)
    requires |s| == 4 && x != y && !IsReply(ids, s[0])
    requires IsReply(ids, s[1]) && IsReply(ids, s[2]) && IsReply(ids, s[3])
    requires s[1].parentId.value == x && s[2].parentId.value == x && s[3].parentId.value == y
    ensures Kids(ids, s, pid) == if pid == x then [s[1], s[2]] else if pid == y then [s[3]] else []
  {
    KidsOfFour(ids, s, pid);
    assert s[..1] == [s[0]];
    KidsOfOne(ids, s[0], pid);
    KidsOfOne(ids, s[1], pid);
    KidsOfOne(ids, s[2], pid);
    KidsOfOne(ids, s[3], pid);
  }

  ghost predicate At(s: seq<Entry>, root: string, n: nat, queue: seq<string>, out: seq<Entry>) {
    Search(CommentIds(s), s, root, n) == queue && Gathered(CommentIds(s), s, root, n) == out
  }

  /** One round of a search, given the replies to the head of its queue. */
  lemma Round(s: seq<Entry>, root: string, n: nat, queue: seq<string>, out: seq<Entry>, kids: seq<Entry>,
              next: seq<string>, longer: seq<Entry>)
    requires At(s, root, n, queue, out) && queue != [] && Kids(CommentIds(s), s, queue[0]) == kids
    requires next == queue[1..] + EntryIds(kids) && longer == out + kids
    ensures At(s, root, n + 1, next, longer)
  {
    NextRound(CommentIds(s), s, root, n, queue);
  }

  lemma PairThenOne(r: string, c: string, d: string, x: Entry, y: Entry, z: Entry)
    requires x.id == c && y.id == c && z.id == d
    ensures [c, c] == [r][1..] + EntryIds([x, y]) && [x, y] == [] + [x, y]
    ensures [c, d] == [c, c][1..] + EntryIds([z]) && [x, y, z] == [x, y] + [z]
  {
  }

  lemma OneThenNone(c: string, d: string, x: Entry, y: Entry, z: Entry)
    requires z.id == d
    ensures [d, d] == [c, d][1..] + EntryIds([z]) && [x, y, z, z] == [x, y, z] + [z]
    ensures [d] == [d, d][1..] + EntryIds([]) && [] == [d][1..] + EntryIds([])
    ensures [x, y, z, z] == [x, y, z, z] + []
  {
  }

  /** Five rounds from a queue that holds `r`, whose replies `x` and `y` share the id `c`, to which `z` replies. */
  lemma FiveRounds(s: seq<Entry>, root: string, n: nat, r: string, c: string, d: string, x: Entry, y: Entry, z: Entry)
    requires At(s, root, n, [r], [])
    requires Kids(CommentIds(s), s, r) == [x, y] && Kids(CommentIds(s), s, c) == [z] && Kids(CommentIds(s), s, d) == []
    requires x.id == c && y.id == c && z.id == d
    ensures Collected(s, root, [x, y, z, z])
  {
    PairThenOne(r, c, d, x, y, z);
    OneThenNone(c, d, x, y, z);
    Round(s, root, n, [r], [], [x, y], [c, c], [x, y]);
    Round(s, root, n + 1, [c, c], [x, y], [z], [c, d], [x, y, z]);
    Round(s, root, n + 2, [c, d], [x, y, z], [z], [d, d], [x, y, z, z]);
    Round(s, root, n + 3, [d, d], [x, y, z, z], [], [d], [x, y, z, z]);
    Round(s, root, n + 4, [d], [x, y, z, z], [], [], [x, y, z, z]);
    assert CollectedAt(s, root, n + 5, [x, y, z, z]);
  }

  lemma RepeatedIdSearch(s: seq<Entry>)
    requires RepeatedId(s)
    ensures Collected(s, "r", [s[1], s[2], s[3], s[3]])
  {
    RepeatedIdKids(s, "r");
    RepeatedIdKids(s, "c");
    RepeatedIdKids(s, "d");
    FiveRounds(s, "r", 0, "r", "c", "d", s[1], s[2], s[3]);
  }

  lemma OneRoot(ids: set<string>, s: seq<Entry>)
    requires |s| == 4 && !IsReply(ids, s[0])
    requires IsReply(ids, s[1]) && IsReply(ids, s[2]) && IsReply(ids, s[3])
    ensures Roots(ids, s) == [s[0]]
  {
    assert s[..3][..2] == s[..2] && s[..2][..1] == s[..1] && s[..1][..0] == [];
    assert Roots(ids, s[..1]) == [s[0]];
    assert Roots(ids, s[..2]) == [s[0]];
    assert Roots(ids, s[..3]) == [s[0]];
  }

  lemma RepeatedIdRoots(s: seq<Entry>)
    requires RepeatedId(s)
    ensures Roots(CommentIds(s), s) == [s[0]]
  {
    assert s[0] in s && s[1] in s;
    assert "r" in CommentIds(s) && "c" in CommentIds(s);
    OneRoot(CommentIds(s), s);
  }

  /** The one row shows the reply to the repeated id twice. */
  lemma RepeatedIdShowsTwice(s: seq<Entry>)
    requires RepeatedId(s)
    ensures Searched(s, [Row(s[0], [s[1], s[2], s[3], s[3]])])
  {
    RepeatedIdRoots(s);
    RepeatedIdSearch(s);
  }

  /** Two comments that reply to each other have no row at all. */
  lemma CycleShowsNothing(s: seq<Entry>)
    requires s == [CommentOf("a", Some("b"), ""), CommentOf("b", Some("a"), "")]
    ensures Searched(s, [])
  {
    var ids := CommentIds(s);
    assert s[0] in s && s[1] in s;
    assert "a" in ids && "b" in ids;
    assert s[..1][..0] == [];
    assert Roots(ids, s[..1]) == [];
    assert Roots(ids, s) == [];
  }
}
