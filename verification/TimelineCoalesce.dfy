/** apps/mobile/lib/timeline-coalesce.ts: runs of like activities become one entry with a count. */
module TimelineCoalesce {
  import opened Prelude
  import opened TimelineEntry

  const COALESCE_MS := 2 * 60 * 1000
  const NO_TIME_LIMIT_ACTIONS := {"task_completed", "task_failed"}
  const NEVER_COALESCE_ACTIONS := {"squad_leader_evaluated"}

  predicate SameActivity(prev: Entry, entry: Entry) {
    && entry.kind.Activity? && prev.kind.Activity?
    && entry.action.GetOr("") !in NEVER_COALESCE_ACTIONS
    && prev.action == entry.action && prev.actorType == entry.actorType && prev.actorId == entry.actorId
  }

  predicate CloseEnough(prev: Entry, entry: Entry) {
    || entry.action.GetOr("") in NO_TIME_LIMIT_ACTIONS
    || (entry.createdAt.Some? && prev.createdAt.Some?
        && -COALESCE_MS <= entry.createdAt.value - prev.createdAt.value <= COALESCE_MS)
  }

  predicate CanMerge(prev: Entry, entry: Entry) {
    SameActivity(prev, entry) && CloseEnough(prev, entry)
  }

  /** The output after each further entry: the last element is overwritten or a new one pushed. */
  function Coalesced(entries: seq<Entry>): seq<Entry> {
    if entries == [] then []
    else
      var out, entry := Coalesced(entries[..|entries| - 1]), entries[|entries| - 1];
      if out != [] && CanMerge(out[|out| - 1], entry) then
        out[|out| - 1 := entry.(count := Some(out[|out| - 1].count.GetOr(1) + 1))]
      else out + [entry]
  }

  method CoalesceTimeline(entries: seq<Entry>) returns (out: seq<Entry>)
    ensures out == Coalesced(entries)
  {
    out := [];
    for i := 0 to |entries|
      invariant out == Coalesced(entries[..i])
    {
      var entry := entries[i];
      assert entries[..i + 1][..i] == entries[..i];
      if entry.kind.Activity? && |out| > 0 {
        var prev := out[|out| - 1];
        if SameActivity(prev, entry) && CloseEnough(prev, entry) {
          out := out[|out| - 1 := entry.(count := Some(prev.count.GetOr(1) + 1))];
          continue;
        }
      }
      out := out + [entry];
    }
    assert entries[..|entries|] == entries;
  }

  // ---------------------------------------------------------------- blocks

  /** Where the longest suffix begins whose neighbours all merge. */
  function RunStart(entries: seq<Entry>): (lo: nat)
    requires entries != []
    ensures lo < |entries|
  {
    var n := |entries|;
    if n >= 2 && CanMerge(entries[n - 2], entries[n - 1]) then RunStart(entries[..n - 1]) else n - 1
  }

  /** What a block of input becomes: its last entry, counting the block. */
  function BlockEntry(block: seq<Entry>): Entry
    requires block != []
  {
    if |block| == 1 then block[0]
    else block[|block| - 1].(count := Some(block[0].count.GetOr(1) + |block| - 1))
  }

  /** The input cut into maximal runs of mergeable neighbours, one entry a run. */
  function BlocksOf(entries: seq<Entry>): seq<Entry> {
    if entries == [] then []
    else BlocksOf(entries[..RunStart(entries)]) + [BlockEntry(entries[RunStart(entries)..])]
  }

  /** A block is contiguous, its neighbours merge, and it cannot be extended to the left. */
  lemma {:induction false} RunIsMaximal(entries: seq<Entry>)
    requires entries != []
    ensures forall k :: RunStart(entries) < k < |entries| ==> CanMerge(entries[k - 1], entries[k])
    ensures RunStart(entries) > 0 ==> !CanMerge(entries[RunStart(entries) - 1], entries[RunStart(entries)])
  {
    var n := |entries|;
    if n >= 2 && CanMerge(entries[n - 2], entries[n - 1]) {
      RunIsMaximal(entries[..n - 1]);
    }
  }

  lemma LastBlock(entries: seq<Entry>, e: Entry)
    requires entries != []
    ensures BlocksOf(entries) != []
    ensures CanMerge(BlocksOf(entries)[|BlocksOf(entries)| - 1], e) <==> CanMerge(entries[|entries| - 1], e)
    ensures CanMerge(e, BlocksOf(entries)[|BlocksOf(entries)| - 1]) <==> CanMerge(e, entries[|entries| - 1])
  {
  }

  lemma JoinBlock(block: seq<Entry>, e: Entry)
    requires block != []
    ensures BlockEntry(block + [e]) == e.(count := Some(BlockEntry(block).count.GetOr(1) + 1))
  {
  }

  /** Replacing the last of several entries. */
  lemma ReplaceLast<T>(s: seq<T>, x: T, y: T)
    ensures (s + [x])[|s| := y] == s + [y]
  {
  }

  lemma CutInside<T>(s: seq<T>, x: T, lo: nat)
    requires lo <= |s|
    ensures (s + [x])[..lo] == s[..lo] && (s + [x])[lo..] == s[lo..] + [x]
  {
  }

  lemma RunOfLonger(front: seq<Entry>, e: Entry, all: seq<Entry>)
    requires front != [] && |all| == |front| + 1 && all[..|all| - 1] == front
    requires all[|all| - 1] == e && all[|all| - 2] == front[|front| - 1]
    ensures RunStart(all) == if CanMerge(front[|front| - 1], e) then RunStart(front) else |front|
  {
  }

  lemma RunGrows(front: seq<Entry>, e: Entry)
    requires front != []
    ensures RunStart(front + [e]) == if CanMerge(front[|front| - 1], e) then RunStart(front) else |front|
  {
    LastOff(front, e);
    RunOfLonger(front, e, front + [e]);
  }

  /** The last entry joins the last block … */
  lemma EntryJoins(front: seq<Entry>, e: Entry)
    requires front != [] && CanMerge(front[|front| - 1], e)
    ensures BlocksOf(front) != []
    ensures
      var blocks := BlocksOf(front);
      BlocksOf(front + [e]) == blocks[|blocks| - 1 := e.(count := Some(blocks[|blocks| - 1].count.GetOr(1) + 1))]
  {
    var lo := RunStart(front);
    RunGrows(front, e);
    CutInside(front, e, lo);
    JoinBlock(front[lo..], e);
    ReplaceLast(BlocksOf(front[..lo]), BlockEntry(front[lo..]), BlockEntry(front[lo..] + [e]));
  }

  /** … or starts its own. */
  lemma EntryStarts(front: seq<Entry>, e: Entry)
    requires front != [] && !CanMerge(front[|front| - 1], e)
    ensures BlocksOf(front + [e]) == BlocksOf(front) + [e]
  {
    RunGrows(front, e);
    SuffixOf(front, [e]);
  }

  lemma OneBlock(e: Entry)
    ensures BlocksOf([e]) == [e]
  {
    assert [e][..0] == [] && [e][0..] == [e];
  }

  /** The loop's output is the sequence of blocks. */
  lemma {:induction false} CoalescedIsBlocks(entries: seq<Entry>)
    ensures Coalesced(entries) == BlocksOf(entries)
  {
    if |entries| == 1 {
      OneBlock(entries[0]);
      assert entries == [entries[0]];
    } else if entries != [] {
      var front, e := entries[..|entries| - 1], entries[|entries| - 1];
      CoalescedIsBlocks(front);
      LastBlock(front, e);
      LastSplit(entries);
      if CanMerge(front[|front| - 1], e) {
        EntryJoins(front, e);
      } else {
        EntryStarts(front, e);
      }
    }
  }

  // ---------------------------------------------------------------- counts and comments

  function Total(s: seq<Entry>): int {
    if s == [] then 0 else Total(s[..|s| - 1]) + s[|s| - 1].count.GetOr(1)
  }

  lemma TotalLast(s: seq<Entry>, e: Entry)
    requires s != []
    ensures Total(s[|s| - 1 := e]) == Total(s[..|s| - 1]) + e.count.GetOr(1)
    ensures Total(s + [e]) == Total(s) + e.count.GetOr(1)
  {
    var t := s[|s| - 1 := e];
    assert t[..|t| - 1] == s[..|s| - 1];
    assert (s + [e])[..|s|] == s;
  }

  /** For input without counts, the counts of the output add up to the length of the input. */
  lemma {:induction false} CountsAddUp(entries: seq<Entry>)
    requires forall k :: 0 <= k < |entries| ==> entries[k].count.None?
    ensures Total(Coalesced(entries)) == |entries|
  {
    if entries != [] {
      var front, entry := entries[..|entries| - 1], entries[|entries| - 1];
      CountsAddUp(front);
      var out := Coalesced(front);
      if out == [] {
        assert [entry][..0] == [];
      } else {
        TotalLast(out, entry);
        TotalLast(out, entry.(count := Some(out[|out| - 1].count.GetOr(1) + 1)));
      }
    }
  }

  function CommentsOf(s: seq<Entry>): seq<Entry> {
    if s == [] then []
    else CommentsOf(s[..|s| - 1]) + (if s[|s| - 1].kind.Activity? then [] else [s[|s| - 1]])
  }

  /** Comments pass through unchanged, all of them, in order. */
  lemma {:induction false} CommentsPassThrough(entries: seq<Entry>)
    ensures CommentsOf(Coalesced(entries)) == CommentsOf(entries)
  {
    if entries != [] {
      var front, entry := entries[..|entries| - 1], entries[|entries| - 1];
      CommentsPassThrough(front);
      var out, r := Coalesced(front), Coalesced(entries);
      if out != [] && CanMerge(out[|out| - 1], entry) {
        assert r[..|r| - 1] == out[..|out| - 1];
      } else {
        assert r[..|r| - 1] == out;
      }
    }
  }

  // ---------------------------------------------------------------- a second pass

  /** The documented input order. */
  ghost predicate Ascending(entries: seq<Entry>) {
    && (forall k :: 0 <= k < |entries| ==> entries[k].createdAt.Some?)
    && (forall j, k :: 0 <= j < k < |entries| ==> entries[j].createdAt.value <= entries[k].createdAt.value)
  }

  lemma {:induction false} RunIsUniform(entries: seq<Entry>, k: nat)
    requires entries != [] && RunStart(entries) < k < |entries|
    ensures SameActivity(entries[RunStart(entries)], entries[k])
    decreases k
  {
    RunIsMaximal(entries);
    assert CanMerge(entries[k - 1], entries[k]);
    if k - 1 > RunStart(entries) {
      RunIsUniform(entries, k - 1);
    }
  }

  /** With ascending times no two neighbouring output entries could still merge. */
  lemma {:induction false} NeighboursStayApart(entries: seq<Entry>)
    requires Ascending(entries)
    ensures forall j :: 0 < j < |BlocksOf(entries)| ==> !CanMerge(BlocksOf(entries)[j - 1], BlocksOf(entries)[j])
  {
    if entries != [] {
      var lo, n := RunStart(entries), |entries|;
      NeighboursStayApart(entries[..lo]);
      if lo > 0 {
        RunIsMaximal(entries);
        if lo < n - 1 {
          RunIsUniform(entries, n - 1);
        }
        assert entries[lo - 1].createdAt.value <= entries[lo].createdAt.value <= entries[n - 1].createdAt.value;
        assert !CanMerge(entries[lo - 1], entries[n - 1]);
        LastBlock(entries, entries[lo - 1]);
        LastBlock(entries[..lo], BlockEntry(entries[lo..]));
      }
    }
  }

  lemma {:induction false} ApartIsFixed(s: seq<Entry>)
    requires forall j :: 0 < j < |s| ==> !CanMerge(s[j - 1], s[j])
    ensures Coalesced(s) == s
  {
    if s != [] {
      ApartIsFixed(s[..|s| - 1]);
    }
  }

  /** Coalescing a coalesced timeline changes nothing. */
  lemma SecondPassChangesNothing(entries: seq<Entry>)
    requires Ascending(entries)
    ensures Coalesced(Coalesced(entries)) == Coalesced(entries)
  {
    CoalescedIsBlocks(entries);
    NeighboursStayApart(entries);
    ApartIsFixed(Coalesced(entries));
  }

  /** The last entry of every run. */
  function RunEnds(entries: seq<Entry>): seq<Entry> {
    if entries == [] then [] else RunEnds(entries[..RunStart(entries)]) + [entries[|entries| - 1]]
  }

  ghost predicate SameForMerging(a: Entry, b: Entry) {
    b == a.(count := b.count)
  }

  lemma {:induction false} BlocksAreRunEnds(entries: seq<Entry>)
    ensures |BlocksOf(entries)| == |RunEnds(entries)|
    ensures forall j :: 0 <= j < |RunEnds(entries)| ==> SameForMerging(RunEnds(entries)[j], BlocksOf(entries)[j])
  {
    if entries != [] {
      BlocksAreRunEnds(entries[..RunStart(entries)]);
    }
  }

  /** Two runs that stand next to each other would merge by their last entries. */
  ghost predicate RunsMeet(entries: seq<Entry>, j: nat) {
    0 < j < |RunEnds(entries)| && CanMerge(RunEnds(entries)[j - 1], RunEnds(entries)[j])
  }

  lemma {:induction false} NeverLonger(s: seq<Entry>)
    ensures |Coalesced(s)| <= |s|
  {
    if s != [] {
      NeverLonger(s[..|s| - 1]);
    }
  }

  lemma {:induction false} MeetingShortens(s: seq<Entry>, j: nat)
    requires 0 < j < |s| && CanMerge(s[j - 1], s[j])
    ensures |Coalesced(s)| < |s|
  {
    var front := s[..|s| - 1];
    if j < |front| {
      MeetingShortens(front, j);
    } else {
      CoalescedIsBlocks(front);
      LastBlock(front, s[j]);
      NeverLonger(front);
    }
  }

  /**
   * Which neighbours become one entry: two activities of one actor with the same action, which is
   * not an evaluation by a squad leader, and is the end of a task or at most two minutes apart.
   */
  lemma PairMergesIff(a: Entry, b: Entry)
    ensures |Coalesced([a, b])| == 1 <==>
      && a.kind == Activity && b.kind == Activity
      && a.action == b.action && a.actorType == b.actorType && a.actorId == b.actorId
      && b.action != Some("squad_leader_evaluated")
      && (b.action == Some("task_completed") || b.action == Some("task_failed")
          || (a.createdAt.Some? && b.createdAt.Some?
              && -120000 <= b.createdAt.value - a.createdAt.value <= 120000))
    ensures Coalesced([a, b]) == [a, b] || Coalesced([a, b]) == [b.(count := Some(a.count.GetOr(1) + 1))]
  {
    assert [a, b][..1] == [a] && [a][..0] == [];
    assert Coalesced([a]) == [a];
    assert [a][0 := b.(count := Some(a.count.GetOr(1) + 1))] == [b.(count := Some(a.count.GetOr(1) + 1))];
  }

  /**
   * Whatever the order: a second pass changes nothing if and only if no two neighbouring runs of
   * the input could merge by their last entries.
   */
  lemma SecondPassIff(entries: seq<Entry>)
    ensures Coalesced(Coalesced(entries)) == Coalesced(entries) <==> !exists j: nat :: RunsMeet(entries, j)
  {
    var out := Coalesced(entries);
    CoalescedIsBlocks(entries);
    BlocksAreRunEnds(entries);
    if j: nat :| RunsMeet(entries, j) {
      MeetingShortens(out, j);
    } else {
      forall j | 0 < j < |out|
        ensures !CanMerge(out[j - 1], out[j])
      {
        assert !RunsMeet(entries, j);
      }
      ApartIsFixed(out);
    }
  }

  /** Three like activities, the third between the others in time: a second pass merges on. */
  lemma UnorderedInputMergesOn(entries: seq<Entry>)
    requires entries == [ActivityAt(0), ActivityAt(200000), ActivityAt(100000)]
    ensures Coalesced(Coalesced(entries)) != Coalesced(entries)
  {
    var a, b, c := ActivityAt(0), ActivityAt(200000), ActivityAt(100000);
    assert !CanMerge(a, b) && CanMerge(b, c) && CanMerge(a, c);
    assert entries[..2] == [a, b] && entries[..1] == [a];
    RunOfLonger([a, b], c, entries);
    RunOfLonger([a], b, [a, b]);
    assert RunStart(entries) == 1;
    assert RunEnds([a]) == [a];
    assert RunEnds(entries) == [a, c];
    assert RunsMeet(entries, 1);
    SecondPassIff(entries);
  }
}
