/** The issue timeline as it is shown: coalesced, then grouped by thread. */
module TimelinePipeline {
  import opened Prelude
  import opened TimelineBundles
  import opened TimelineCoalesce
  import opened TimelineCounts
  import opened TimelineEntry
  import opened TimelineSearch
  import opened TimelineThread

  /** buildTimelineRows(coalesceTimeline(entries)) */
  method TimelineData(entries: seq<Entry>) returns (rows: seq<Row>)
    requires EverySearchEnds(Coalesced(entries))
    ensures Searched(Coalesced(entries), rows)
  {
    var coalesced := CoalesceTimeline(entries);
    rows := BuildTimelineRows(coalesced);
  }

  // ---------------------------------------------------------------- grouping only looks at comments

  lemma {:induction false} IdsOfComments(s: seq<Entry>)
    ensures CommentIds(CommentsOf(s)) == CommentIds(s)
  {
    if s != [] {
      var front, last := s[..|s| - 1], s[|s| - 1];
      IdsOfComments(front);
      LastSplit(s);
      CommentIdsStep(front, last);
      CommentIdsStep(CommentsOf(front), last);
      NothingMore(CommentsOf(front));
    }
  }

  lemma {:induction false} KidsOfComments(ids: set<string>, s: seq<Entry>, pid: string)
    ensures Kids(ids, CommentsOf(s), pid) == Kids(ids, s, pid)
  {
    if s != [] {
      var front, last := s[..|s| - 1], s[|s| - 1];
      KidsOfComments(ids, front, pid);
      LastOff(CommentsOf(front), last);
      NothingMore(CommentsOf(front));
      NothingMore(Kids(ids, front, pid));
    }
  }

  lemma {:induction false} CountOfComments(s: seq<Entry>, x: string)
    ensures CommentCount(CommentsOf(s), x) == CommentCount(s, x)
  {
    if s != [] {
      var front, last := s[..|s| - 1], s[|s| - 1];
      CountOfComments(front, x);
      LastOff(CommentsOf(front), last);
      NothingMore(CommentsOf(front));
    }
  }

  lemma {:induction false} CommentsAre(s: seq<Entry>)
    ensures forall e :: e in CommentsOf(s) <==> e in s && e.kind.Comment?
  {
    if s != [] {
      CommentsAre(s[..|s| - 1]);
      LastSplit(s);
    }
  }

  lemma SameKids(a: seq<Entry>, b: seq<Entry>, pid: string)
    requires CommentsOf(a) == CommentsOf(b)
    ensures CommentIds(a) == CommentIds(b) && Kids(CommentIds(a), a, pid) == Kids(CommentIds(b), b, pid)
  {
    IdsOfComments(a);
    IdsOfComments(b);
    KidsOfComments(CommentIds(a), a, pid);
    KidsOfComments(CommentIds(b), b, pid);
  }

  lemma {:induction false} SamePath(a: seq<Entry>, b: seq<Entry>, x: string, y: string, n: nat)
    requires CommentsOf(a) == CommentsOf(b) && Path(a, x, y, n)
    ensures Path(b, x, y, n)
    decreases n
  {
    if n > 0 {
      var z :| Child(a, x, z) && Path(a, z, y, n - 1);
      SameKids(a, b, x);
      SamePath(a, b, z, y, n - 1);
      assert Child(b, x, z);
    }
  }

  lemma SameLoops(a: seq<Entry>, b: seq<Entry>, x: string)
    requires CommentsOf(a) == CommentsOf(b) && Loops(a, x)
    ensures Loops(b, x)
  {
    var n: nat :| n > 0 && Path(a, x, x, n);
    SamePath(a, b, x, x, n);
  }

  lemma SameUniqueness(a: seq<Entry>, b: seq<Entry>)
    requires CommentsOf(a) == CommentsOf(b) && ParentsUnique(a)
    ensures ParentsUnique(b)
  {
    IdsOfComments(a);
    IdsOfComments(b);
    forall e | e in b && Reply(b, e)
      ensures CommentCount(b, e.parentId.value) == 1
    {
      CommentsAre(a);
      CommentsAre(b);
      assert e in CommentsOf(b);
      assert e in a && Reply(a, e);
      CountOfComments(a, e.parentId.value);
      CountOfComments(b, e.parentId.value);
    }
  }

  // ---------------------------------------------------------------- totals

  lemma {:induction false} TotalConcat(a: seq<Entry>, b: seq<Entry>)
    ensures Total(a + b) == Total(a) + Total(b)
  {
    if b == [] {
      NothingMore(a);
    } else {
      TotalConcat(a, b[..|b| - 1]);
      LastOfConcat(a, b);
    }
  }

  lemma TotalOfOne(e: Entry)
    ensures Total([e]) == e.count.GetOr(1)
  {
    assert [e][..0] == [];
  }

  lemma Cut(s: seq<Entry>, i: nat)
    requires i < |s|
    ensures s == s[..i] + ([s[i]] + s[i + 1..])
    ensures multiset(s) == multiset(s[..i] + s[i + 1..]) + multiset{s[i]}
  {
    assert s == s[..i] + ([s[i]] + s[i + 1..]);
  }

  lemma TotalWithout(s: seq<Entry>, i: nat)
    requires i < |s|
    ensures Total(s) == Total(s[..i] + s[i + 1..]) + s[i].count.GetOr(1)
  {
    Cut(s, i);
    TotalConcat(s[..i], [s[i]] + s[i + 1..]);
    TotalConcat([s[i]], s[i + 1..]);
    TotalConcat(s[..i], s[i + 1..]);
    TotalOfOne(s[i]);
  }

  lemma CancelOne(a: multiset<Entry>, b: multiset<Entry>, e: Entry)
    requires a + multiset{e} == b + multiset{e}
    ensures a == b
  {
    assert a == (a + multiset{e}) - multiset{e};
    assert b == (b + multiset{e}) - multiset{e};
  }

  lemma FindLast(a: seq<Entry>, b: seq<Entry>) returns (i: nat)
    requires a != [] && multiset(a) == multiset(b)
    ensures i < |b| && b[i] == a[|a| - 1]
    ensures multiset(a[..|a| - 1]) == multiset(b[..i] + b[i + 1..])
  {
    LastSplit(a);
    assert a[|a| - 1] in multiset(b);
    i :| 0 <= i < |b| && b[i] == a[|a| - 1];
    Cut(b, i);
    CancelOne(multiset(a[..|a| - 1]), multiset(b[..i] + b[i + 1..]), a[|a| - 1]);
  }

  lemma NothingIn(a: seq<Entry>, b: seq<Entry>)
    requires multiset(a) == multiset(b) && a == []
    ensures b == []
  {
    assert |a| == |multiset(a)| && |b| == |multiset(b)|;
  }

  lemma {:induction false} TotalPermutes(a: seq<Entry>, b: seq<Entry>)
    requires multiset(a) == multiset(b)
    ensures Total(a) == Total(b)
    decreases |a|
  {
    if a == [] {
      NothingIn(a, b);
    } else {
      var i := FindLast(a, b);
      TotalWithout(b, i);
      TotalPermutes(a[..|a| - 1], b[..i] + b[i + 1..]);
    }
  }

  // ---------------------------------------------------------------- what is shown

  /** Coalescing changes nothing about which searches end. */
  lemma CoalescingKeepsSearches(entries: seq<Entry>, root: string)
    ensures Ends(Coalesced(entries), root) <==> Ends(entries, root)
  {
    CommentsPassThrough(entries);
    SearchEndsIff(entries, root);
    SearchEndsIff(Coalesced(entries), root);
    if ReachesLoop(entries, root) {
      SameReach(entries, Coalesced(entries), root);
    }
    if ReachesLoop(Coalesced(entries), root) {
      SameReach(Coalesced(entries), entries, root);
    }
  }

  lemma SameReach(a: seq<Entry>, b: seq<Entry>, x: string)
    requires CommentsOf(a) == CommentsOf(b) && ReachesLoop(a, x)
    ensures ReachesLoop(b, x)
  {
    var y, n: nat :| Path(a, x, y, n) && Loops(a, y);
    SamePath(a, b, x, y, n);
    SameLoops(a, b, y);
  }

  lemma SameSound(a: seq<Entry>, b: seq<Entry>)
    requires CommentsOf(a) == CommentsOf(b) && Sound(a)
    ensures Sound(b)
  {
    SameUniqueness(a, b);
    forall x
      ensures !Loops(b, x)
    {
      if Loops(b, x) {
        SameLoops(b, a, x);
      }
    }
  }

  /**
   * The rows and replies show the coalesced timeline, every entry of it as often as it is there, if
   * and only if every parent in the input is one comment and no id is reached from itself. For
   * input without counts the counts shown then add up to the number of entries.
   */
  lemma TimelineCountsAgree(entries: seq<Entry>, rows: seq<Row>)
    requires Searched(Coalesced(entries), rows)
    ensures multiset(RowEntries(rows) + AllReplies(rows)) == multiset(Coalesced(entries)) <==> Sound(entries)
    ensures Sound(entries) && (forall k :: 0 <= k < |entries| ==> entries[k].count.None?) ==>
      Total(RowEntries(rows) + AllReplies(rows)) == |entries|
  {
    CommentsPassThrough(entries);
    NothingLostOrRepeatedIff(Coalesced(entries), rows);
    if Sound(entries) {
      SameSound(entries, Coalesced(entries));
      TotalPermutes(RowEntries(rows) + AllReplies(rows), Coalesced(entries));
      if forall k :: 0 <= k < |entries| ==> entries[k].count.None? {
        CountsAddUp(entries);
      }
    }
    if Sound(Coalesced(entries)) {
      SameSound(Coalesced(entries), entries);
    }
  }
}
