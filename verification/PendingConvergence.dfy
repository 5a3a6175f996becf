/**
 * The send response and the task:queued event of one queued send race each other. When the queue
 * ends up the same whatever the order, and however often each is delivered.
 */
module PendingConvergence {
  import opened Prelude
  import opened Sorting
  import opened PendingQueue
  import opened PendingRuns

  ghost predicate HasRow(rows: set<QueuedTask>, id: string) {
    exists t :: t in rows && t.taskId == id
  }

  ghost predicate HasRich(rows: set<QueuedTask>, id: string) {
    exists t :: t in rows && t.taskId == id && Rich(t)
  }

  /**
   * For every task there is at most one rich observation and, where none is rich and no row
   * of the task is queued yet, at most one sparse observation.
   */
  ghost predicate Settled(start: set<QueuedTask>, obs: set<QueuedTask>) {
    forall t, u ::
      t in obs && u in obs && t.taskId == u.taskId && Decides(start, obs, t) && Decides(start, obs, u) ==> t == u
  }

  ghost predicate Decides(start: set<QueuedTask>, obs: set<QueuedTask>, t: QueuedTask) {
    Rich(t) || (!HasRich(obs, t.taskId) && !HasRow(start, t.taskId))
  }

  /** One row per task: the rich observation, else the row already queued, else the sparse observation. */
  ghost function Survivors(start: set<QueuedTask>, obs: set<QueuedTask>): set<QueuedTask> {
    (set t | t in obs && Decides(start, obs, t)) + (set t | t in start && !HasRich(obs, t.taskId))
  }

  ghost predicate StrictlySorted(p: Platform, q: seq<QueuedTask>) {
    forall i, j :: 0 <= i < j < |q| ==> Compare(p, q[i], q[j]) < 0
  }

  /**
   * No row without a readable time has an id between two rows whose times and ids
   * disagree. Holds whenever all times are readable, or none is.
   */
  ghost predicate NoCrossing(p: Platform, rows: set<QueuedTask>) {
    forall a, b, c :: a in rows && b in rows && c in rows && Crossing(p, a, b, c) ==> false
  }

  ghost predicate Crossing(p: Platform, a: QueuedTask, b: QueuedTask, c: QueuedTask) {
    && p.parse(a.createdAt).Some? && p.parse(b.createdAt).Some? && p.parse(c.createdAt).None?
    && p.parse(a.createdAt).value < p.parse(b.createdAt).value
    && p.collate(b.taskId, c.taskId) < 0 && p.collate(c.taskId, a.taskId) < 0
  }

  lemma CompareAntisymmetric(p: Platform, a: QueuedTask, b: QueuedTask)
    requires TotalCollation(p)
    ensures Compare(p, a, b) < 0 <==> Compare(p, b, a) > 0
    ensures Compare(p, a, b) == 0 ==> a.taskId == b.taskId
    ensures Compare(p, a, a) == 0
  {
    assert p.collate(a.taskId, b.taskId) == 0 <==> a.taskId == b.taskId;
    assert p.collate(a.taskId, a.taskId) == 0;
    assert p.collate(a.taskId, b.taskId) < 0 <==> p.collate(b.taskId, a.taskId) > 0;
    assert p.collate(b.taskId, a.taskId) < 0 <==> p.collate(a.taskId, b.taskId) > 0;
  }

  /** Among three rows the comparison cycles exactly at a crossing. */
  lemma CompareTransitive(p: Platform, a: QueuedTask, b: QueuedTask, c: QueuedTask)
    requires TotalCollation(p)
    requires a.taskId != c.taskId
    requires Compare(p, a, b) < 0 && Compare(p, b, c) < 0
    ensures Compare(p, a, c) < 0 <==> !Crossing(p, a, b, c) && !Crossing(p, b, c, a) && !Crossing(p, c, a, b)
  {
    var x, y, z := a.taskId, b.taskId, c.taskId;
    assert p.collate(x, y) < 0 && p.collate(y, z) < 0 ==> p.collate(x, z) < 0;
    assert p.collate(y, z) < 0 && p.collate(z, x) < 0 ==> p.collate(y, x) < 0;
    assert p.collate(z, x) < 0 && p.collate(x, y) < 0 ==> p.collate(z, y) < 0;
    assert p.collate(x, y) < 0 <==> p.collate(y, x) > 0;
    assert p.collate(y, z) < 0 <==> p.collate(z, y) > 0;
    assert p.collate(x, z) < 0 <==> p.collate(z, x) > 0;
    assert p.collate(z, x) < 0 <==> p.collate(x, z) > 0;
    assert p.collate(x, z) == 0 <==> x == z;
    assert p.collate(x, y) == 0 <==> x == y;
    assert p.collate(y, z) == 0 <==> y == z;
  }

  // ------------------------------------------------ sorting under the comparison

  /** Readable times everywhere, or nowhere, rule out a crossing. */
  lemma UniformTimesNeverCross(p: Platform, rows: set<QueuedTask>)
    requires (forall t :: t in rows ==> p.parse(t.createdAt).Some?)
          || (forall t :: t in rows ==> p.parse(t.createdAt).None?)
    ensures NoCrossing(p, rows)
  {
  }

  lemma StrictOrder(p: Platform, q: seq<QueuedTask>)
    requires TotalCollation(p) && Distinct(Ids(q)) && NoCrossing(p, SetOf(q))
    ensures Consistent((a, b) => Compare(p, a, b), q)
  {
    SameIdSameRow(q);
    var cmp := (a: QueuedTask, b: QueuedTask) => Compare(p, a, b);
    forall a, b | a in q && b in q
      ensures cmp(a, b) <= 0 || cmp(b, a) <= 0
    {
      CompareAntisymmetric(p, a, b);
    }
    forall a, b, c | a in q && b in q && c in q && cmp(a, b) <= 0 && cmp(b, c) <= 0
      ensures cmp(a, c) <= 0
    {
      CompareAntisymmetric(p, a, b);
      CompareAntisymmetric(p, b, c);
      CompareAntisymmetric(p, a, c);
      if a != b && b != c && a != c {
        assert a in SetOf(q) && b in SetOf(q) && c in SetOf(q);
        CompareTransitive(p, a, b, c);
      }
    }
  }

  lemma SortedStrictly(p: Platform, q: seq<QueuedTask>)
    requires TotalCollation(p) && Distinct(Ids(q)) && NoCrossing(p, SetOf(q))
    ensures StrictlySorted(p, Sort((a, b) => Compare(p, a, b), q))
  {
    var cmp := (a: QueuedTask, b: QueuedTask) => Compare(p, a, b);
    var r := Sort(cmp, q);
    StrictOrder(p, q);
    SortSorts(cmp, q);
    SortMembers(cmp, q);
    SortPermutes(cmp, q);
    RowsDistinct(q);
    DistinctPermutation(q, r);
    SameIdSameRow(q);
    forall i, j | 0 <= i < j < |r|
      ensures Compare(p, r[i], r[j]) < 0
    {
      assert cmp(r[i], r[j]) <= 0;
      assert r[i] in q && r[j] in q;
      CompareAntisymmetric(p, r[i], r[j]);
    }
  }

  /** There is at most one strictly sorted arrangement of a set of rows. */
  lemma {:induction false} SortedUnique(p: Platform, a: seq<QueuedTask>, b: seq<QueuedTask>)
    requires TotalCollation(p)
    requires StrictlySorted(p, a) && StrictlySorted(p, b) && SetOf(a) == SetOf(b)
    ensures a == b
  {
    if a == [] {
      SetOfEmpty(b);
    } else {
      assert a[0] in SetOf(a);
      assert a[0] in b;
      assert b[0] in SetOf(b);
      assert b[0] in a;
      var k :| 0 <= k < |b| && b[k] == a[0];
      var j :| 0 <= j < |a| && a[j] == b[0];
      CompareAntisymmetric(p, a[0], b[0]);
      assert a[0] == b[0];
      TailSet(p, a);
      TailSet(p, b);
      SortedUnique(p, a[1..], b[1..]);
    }
  }

  lemma TailSet(p: Platform, a: seq<QueuedTask>)
    requires TotalCollation(p) && a != [] && StrictlySorted(p, a)
    ensures SetOf(a[1..]) == SetOf(a) - {a[0]} && StrictlySorted(p, a[1..])
  {
    CompareAntisymmetric(p, a[0], a[0]);
    assert a == [a[0]] + a[1..];
    assert a[0] !in a[1..];
  }

  /** What strictly sorted means: by time where both are readable and differ, else by id. */
  lemma SortedByTimeThenId(p: Platform, q: seq<QueuedTask>, i: nat, j: nat)
    requires StrictlySorted(p, q) && i < j < |q|
    ensures
      var s, t := p.parse(q[i].createdAt), p.parse(q[j].createdAt);
      if s.Some? && t.Some? && s != t then s.value < t.value else p.collate(q[i].taskId, q[j].taskId) < 0
  {
    assert Compare(p, q[i], q[j]) < 0;
  }

  /**
   * Rows with distinct ids have an order that respects the comparison exactly when no
   * crossing is among them: otherwise the comparator handed to sort is cyclic and the
   * order is up to the engine.
   */
  lemma ArrangementExistsIff(p: Platform, q: seq<QueuedTask>)
    requires TotalCollation(p) && Distinct(Ids(q))
    ensures (exists r :: multiset(r) == multiset(q) && StrictlySorted(p, r)) <==> NoCrossing(p, SetOf(q))
  {
    if NoCrossing(p, SetOf(q)) {
      SortedStrictly(p, q);
      SortPermutes((a, b) => Compare(p, a, b), q);
    }
    if r :| multiset(r) == multiset(q) && StrictlySorted(p, r) {
      SameMembers(r, q);
      SortedHasNoCrossing(p, r);
    }
  }

  lemma SameMembers(a: seq<QueuedTask>, b: seq<QueuedTask>)
    requires multiset(a) == multiset(b)
    ensures SetOf(a) == SetOf(b)
  {
    forall t
      ensures t in a <==> t in b
    {
      assert t in multiset(a) <==> t in multiset(b);
    }
  }

  /** Two rows that compare one way stand that way round. */
  lemma StrictlyAfter(p: Platform, r: seq<QueuedTask>, a: QueuedTask, b: QueuedTask)
    requires TotalCollation(p) && StrictlySorted(p, r) && a in r && b in r && Compare(p, a, b) < 0
    ensures forall i, j :: 0 <= i < |r| && 0 <= j < |r| && r[i] == a && r[j] == b ==> i < j
  {
    CompareAntisymmetric(p, a, b);
  }

  lemma SortedHasNoCrossing(p: Platform, r: seq<QueuedTask>)
    requires TotalCollation(p) && StrictlySorted(p, r)
    ensures NoCrossing(p, SetOf(r))
  {
    forall a, b, c | a in SetOf(r) && b in SetOf(r) && c in SetOf(r)
      ensures !Crossing(p, a, b, c)
    {
      if Crossing(p, a, b, c) {
        StrictlyAfter(p, r, a, b);
        StrictlyAfter(p, r, b, c);
        StrictlyAfter(p, r, c, a);
        assert false;
      }
    }
  }

  // ------------------------------------------------ which row of a task survives

  lemma RichStep(obs: seq<QueuedTask>, id: string)
    requires obs != []
    ensures
      var front, last := obs[..|obs| - 1], obs[|obs| - 1];
      HasRich(SetOf(obs), id) <==> HasRich(SetOf(front), id) || (last.taskId == id && Rich(last))
  {
    LastObservation(obs);
  }

  /** How one more observation changes the row kept for `id`. */
  lemma BestLast(q: seq<QueuedTask>, t: QueuedTask, id: string)
    ensures id in Ids(q + [t]) <==> id in Ids(q) || id == t.taskId
    ensures id in Ids(q + [t]) ==>
      Best(q + [t], id) == if t.taskId == id && (Rich(t) || id !in Ids(q)) then t else Best(q, id)
  {
    UniqueStep(q, t);
  }

  /** The choice `best` among the rows `q` and the observations behind them. */
  ghost predicate Chosen(q: seq<QueuedTask>, obs: seq<QueuedTask>, id: string, best: QueuedTask) {
    if HasRich(SetOf(obs), id) then best in obs && Rich(best)
    else if id in Ids(q) then best == Best(q, id)
    else best in obs
  }

  lemma ChosenLast(q: seq<QueuedTask>, obs: seq<QueuedTask>, id: string, best: QueuedTask)
    requires obs != [] && id in Ids(q + obs[..|obs| - 1]) && Chosen(q, obs[..|obs| - 1], id, best)
    ensures
      var last := obs[|obs| - 1];
      Chosen(q, obs, id, if last.taskId == id && Rich(last) then last else best)
  {
    LastSplit(obs);
    RichStep(obs, id);
  }

  /** The first observation of a task nothing else is known of. */
  lemma ChosenFirst(q: seq<QueuedTask>, obs: seq<QueuedTask>, id: string)
    requires obs != [] && obs[|obs| - 1].taskId == id && id !in Ids(q + obs[..|obs| - 1])
    ensures Chosen(q, obs, id, obs[|obs| - 1])
  {
    var front := obs[..|obs| - 1];
    LastSplit(obs);
    IdsAppend(q, front);
    RichStep(obs, id);
    RowIds(front, id);
  }

  lemma BestOfLonger(q: seq<QueuedTask>, obs: seq<QueuedTask>, id: string)
    requires obs != []
    ensures
      var front, last := q + obs[..|obs| - 1], obs[|obs| - 1];
      && (id in Ids(q + obs) <==> id in Ids(front) || id == last.taskId)
      && (id in Ids(q + obs) ==>
            Best(q + obs, id) ==
              if last.taskId == id && (Rich(last) || id !in Ids(front)) then last else Best(front, id))
  {
    BestLast(q + obs[..|obs| - 1], obs[|obs| - 1], id);
    LastSplit(obs);
    Associative(q, obs[..|obs| - 1], [obs[|obs| - 1]]);
  }

  lemma ChosenOfNone(q: seq<QueuedTask>, obs: seq<QueuedTask>, id: string)
    requires obs == [] && id in Ids(q)
    ensures q + obs == q && Chosen(q, obs, id, Best(q, id))
  {
    NothingMore(q);
  }

  lemma ChosenStep(q: seq<QueuedTask>, obs: seq<QueuedTask>, id: string, best: QueuedTask)
    requires obs != [] && id in Ids(q + obs)
    requires id in Ids(q + obs[..|obs| - 1]) ==> best == Best(q + obs[..|obs| - 1], id)
    requires id in Ids(q + obs[..|obs| - 1]) ==> Chosen(q, obs[..|obs| - 1], id, best)
    ensures Chosen(q, obs, id, Best(q + obs, id))
  {
    BestOfLonger(q, obs, id);
    if id in Ids(q + obs[..|obs| - 1]) {
      ChosenLast(q, obs, id, best);
    } else {
      ChosenFirst(q, obs, id);
    }
  }

  lemma {:induction false} BestOf(q: seq<QueuedTask>, obs: seq<QueuedTask>, id: string)
    requires id in Ids(q + obs)
    ensures Chosen(q, obs, id, Best(q + obs, id))
    decreases |obs|
  {
    if obs == [] {
      NothingMore(q);
      ChosenOfNone(q, obs, id);
    } else {
      var before := q + obs[..|obs| - 1];
      if id in Ids(before) {
        BestOf(q, obs[..|obs| - 1], id);
        ChosenStep(q, obs, id, Best(before, id));
      } else {
        ChosenStep(q, obs, id, obs[0]);
      }
    }
  }

  lemma RowIds(q: seq<QueuedTask>, id: string)
    ensures id in Ids(q) <==> HasRow(SetOf(q), id)
  {
    MemberIds(q, id);
    if t :| t in SetOf(q) && t.taskId == id {
      assert t in q;
    }
    if t :| t in q && t.taskId == id {
      assert t in SetOf(q);
    }
  }

  lemma BestIsSurvivor(q: seq<QueuedTask>, obs: seq<QueuedTask>, id: string)
    requires Distinct(Ids(q)) && id in Ids(q + obs)
    ensures Best(q + obs, id) in Survivors(SetOf(q), SetOf(obs))
  {
    BestOf(q, obs, id);
    RowIds(q, id);
  }

  lemma SurvivorIsBest(q: seq<QueuedTask>, obs: seq<QueuedTask>, t: QueuedTask)
    requires Distinct(Ids(q)) && Settled(SetOf(q), SetOf(obs)) && t in Survivors(SetOf(q), SetOf(obs))
    ensures t.taskId in Ids(q + obs) && Best(q + obs, t.taskId) == t
  {
    MemberIds(q + obs, t.taskId);
    assert t in q + obs;
    BestIsSurvivor(q, obs, t.taskId);
    BestOf(q, obs, t.taskId);
    RowIds(q, t.taskId);
    if t in q {
      var i :| 0 <= i < |q| && q[i] == t;
      BestOfDistinct(q, i);
    }
  }

  /** The surviving rows, as a function of what was queued and what arrived, not of the order. */
  lemma UniqueIsSurvivors(q: seq<QueuedTask>, obs: seq<QueuedTask>)
    requires Distinct(Ids(q)) && Settled(SetOf(q), SetOf(obs))
    ensures SetOf(Unique(q + obs)) == Survivors(SetOf(q), SetOf(obs))
  {
    UniqueRows(q + obs);
    forall t
      ensures t in Unique(q + obs) <==> t in Survivors(SetOf(q), SetOf(obs))
    {
      if t in Unique(q + obs) {
        BestIsSurvivor(q, obs, t.taskId);
      }
      if t in Survivors(SetOf(q), SetOf(obs)) {
        SurvivorIsBest(q, obs, t);
      }
    }
  }

  // ------------------------------------------------ the theorem

  function Arrivals(obs: seq<QueuedTask>): seq<Event> {
    seq(|obs|, i requires 0 <= i < |obs| => Enqueued(obs[i], None))
  }

  ghost predicate BehindHead(cur: PendingTask, obs: seq<QueuedTask>) {
    HasHead(cur) && forall t :: t in obs ==> t.taskId != cur.taskId.value
  }

  lemma NormalizeSorts(p: Platform, q: seq<QueuedTask>)
    requires TotalCollation(p) && NoCrossing(p, SetOf(Unique(q)))
    ensures StrictlySorted(p, NormalizeQueue(p, q))
  {
    SortedStrictly(p, Unique(q));
  }

  lemma ArrivalStep(p: Platform, cur: PendingTask, obs: seq<QueuedTask>)
    requires HasHead(cur) && obs != [] && obs[|obs| - 1].taskId != cur.taskId.value
    requires Run(p, cur, Arrivals(obs[..|obs| - 1])).taskId == cur.taskId
    ensures
      var prev := Run(p, cur, Arrivals(obs[..|obs| - 1]));
      Run(p, cur, Arrivals(obs)) == prev.(queued := Some(NormalizeQueue(p, Queue(prev) + [obs[|obs| - 1]])))
  {
    assert Arrivals(obs)[..|obs| - 1] == Arrivals(obs[..|obs| - 1]);
  }

  lemma LastObservation(obs: seq<QueuedTask>)
    requires obs != []
    ensures SetOf(obs) == SetOf(obs[..|obs| - 1]) + {obs[|obs| - 1]}
  {
    LastSplit(obs);
  }

  lemma KeptRow(q: seq<QueuedTask>, kept: seq<QueuedTask>, id: string)
    requires SetOf(kept) == SetOf(Unique(q)) && Distinct(Ids(kept))
    ensures id in Ids(kept) <==> id in Ids(q)
    ensures id in Ids(kept) ==> Best(kept, id) == Best(q, id)
  {
    UniqueRows(q);
    RowIds(kept, id);
    RowIds(Unique(q), id);
    if id in Ids(kept) {
      assert Best(kept, id) in SetOf(kept);
    }
  }

  lemma KeptThenNext(q: seq<QueuedTask>, kept: seq<QueuedTask>, t: QueuedTask, id: string)
    requires SetOf(kept) == SetOf(Unique(q)) && Distinct(Ids(kept))
    ensures id in Ids(kept + [t]) <==> id in Ids(q + [t])
    ensures id in Ids(kept + [t]) ==> Best(kept + [t], id) == Best(q + [t], id)
  {
    KeptRow(q, kept, id);
    BestLast(q, t, id);
    BestLast(kept, t, id);
  }

  /** Forgetting superseded rows before the next arrival loses nothing. */
  lemma UniqueAbsorbs(q: seq<QueuedTask>, kept: seq<QueuedTask>, t: QueuedTask)
    requires SetOf(kept) == SetOf(Unique(q)) && Distinct(Ids(kept))
    ensures SetOf(Unique(kept + [t])) == SetOf(Unique(q + [t]))
  {
    UniqueRows(q + [t]);
    UniqueRows(kept + [t]);
    forall u
      ensures u in Unique(kept + [t]) <==> u in Unique(q + [t])
    {
      KeptThenNext(q, kept, t, u.taskId);
    }
  }

  /** After each arrival behind a head: the head untouched, the unique rows of everything seen, sorted. */
  lemma {:induction false} ArrivalsKeepRows(p: Platform, cur: PendingTask, obs: seq<QueuedTask>)
    requires BehindHead(cur, obs) && obs != []
    ensures
      var r, rows := Run(p, cur, Arrivals(obs)), SetOf(Unique(Queue(cur) + obs));
      && r.queued.Some? && r == cur.(queued := r.queued)
      && SetOf(Queue(r)) == rows && Distinct(Ids(Queue(r)))
      && (TotalCollation(p) && NoCrossing(p, rows) ==> StrictlySorted(p, Queue(r)))
  {
    var front, last := obs[..|obs| - 1], obs[|obs| - 1];
    var prev := Run(p, cur, Arrivals(front));
    LastSplit(obs);
    Associative(Queue(cur), front, [last]);
    if front == [] {
      assert prev == cur;
      NothingMore(Queue(cur));
    } else {
      ArrivalsKeepRows(p, cur, front);
      UniqueAbsorbs(Queue(cur) + front, Queue(prev), last);
    }
    ArrivalStep(p, cur, obs);
    NormalizeIds(p, Queue(prev) + [last]);
    assert SetOf(NormalizeQueue(p, Queue(prev) + [last])) == SetOf(Unique(Queue(prev) + [last]));
    if TotalCollation(p) && NoCrossing(p, SetOf(Unique(Queue(cur) + obs))) {
      NormalizeSorts(p, Queue(prev) + [last]);
    }
  }

  ghost predicate SameOutcome(p: Platform, cur: PendingTask, one: seq<QueuedTask>, two: seq<QueuedTask>) {
    Run(p, cur, Arrivals(one)) == Run(p, cur, Arrivals(two))
  }

  /** Every delivery of the same observations, permuted or repeated at will, leaves the same state. */
  ghost predicate Converges(p: Platform, cur: PendingTask, one: seq<QueuedTask>) {
    forall two :: SetOf(two) == SetOf(one) ==> SameOutcome(p, cur, one, two)
  }

  lemma SameSetBehindHead(cur: PendingTask, one: seq<QueuedTask>, two: seq<QueuedTask>)
    requires BehindHead(cur, one) && SetOf(two) == SetOf(one)
    ensures BehindHead(cur, two) && (one == [] <==> two == [])
  {
    SetOfEmpty(one);
    SetOfEmpty(two);
    forall t | t in two
      ensures t in one
    {
      assert t in SetOf(two);
    }
  }

  lemma SettledConverges(p: Platform, cur: PendingTask, one: seq<QueuedTask>, two: seq<QueuedTask>)
    requires TotalCollation(p) && WellFormed(cur) && BehindHead(cur, one) && SetOf(two) == SetOf(one)
    requires Settled(SetOf(Queue(cur)), SetOf(one)) && NoCrossing(p, Survivors(SetOf(Queue(cur)), SetOf(one)))
    ensures SameOutcome(p, cur, one, two)
  {
    SameSetBehindHead(cur, one, two);
    if one != [] {
      ArrivalsKeepRows(p, cur, one);
      ArrivalsKeepRows(p, cur, two);
      UniqueIsSurvivors(Queue(cur), one);
      UniqueIsSurvivors(Queue(cur), two);
      SortedUnique(p, Queue(Run(p, cur, Arrivals(one))), Queue(Run(p, cur, Arrivals(two))));
    }
  }

  lemma DifferentRows(p: Platform, cur: PendingTask, one: seq<QueuedTask>, two: seq<QueuedTask>, id: string)
    requires BehindHead(cur, one) && BehindHead(cur, two) && one != [] && two != []
    requires id in Ids(Queue(cur) + one) && id in Ids(Queue(cur) + two)
    requires Best(Queue(cur) + one, id) != Best(Queue(cur) + two, id)
    ensures !SameOutcome(p, cur, one, two)
  {
    ArrivalsKeepRows(p, cur, one);
    ArrivalsKeepRows(p, cur, two);
    KeptRow(Queue(cur) + one, Queue(Run(p, cur, Arrivals(one))), id);
    KeptRow(Queue(cur) + two, Queue(Run(p, cur, Arrivals(two))), id);
  }

  lemma LatestRichWins(q: seq<QueuedTask>, obs: seq<QueuedTask>, t: QueuedTask)
    requires t in obs && Rich(t)
    ensures SetOf(obs + [t]) == SetOf(obs)
    ensures t.taskId in Ids(q + (obs + [t])) && Best(q + (obs + [t]), t.taskId) == t
  {
    Associative(q, obs, [t]);
    UniqueStep(q + obs, t);
  }

  lemma FirstSparseWins(q: seq<QueuedTask>, obs: seq<QueuedTask>, t: QueuedTask)
    requires t in obs && !HasRich(SetOf(obs), t.taskId) && t.taskId !in Ids(q)
    ensures SetOf([t] + obs) == SetOf(obs)
    ensures t.taskId in Ids(q + ([t] + obs)) && Best(q + ([t] + obs), t.taskId) == t
  {
    Associative(q, [t], obs);
    UniqueStep(q, t);
    IdsAppend(q + [t], obs);
    BestOf(q + [t], obs, t.taskId);
  }

  /** Two observations that could both decide: each can be delivered so that it does. */
  lemma UnsettledDiverges(p: Platform, cur: PendingTask, obs: seq<QueuedTask>, t: QueuedTask, u: QueuedTask)
    requires BehindHead(cur, obs) && t in obs && u in obs && t.taskId == u.taskId && t != u
    requires Decides(SetOf(Queue(cur)), SetOf(obs), t) && Decides(SetOf(Queue(cur)), SetOf(obs), u)
    ensures !Converges(p, cur, obs)
  {
    assert t in SetOf(obs) && u in SetOf(obs);
    if Rich(t) {
      LatestRichWins(Queue(cur), obs, t);
      LatestRichWins(Queue(cur), obs, u);
      TwoOutcomes(p, cur, obs, obs + [t], obs + [u], t.taskId);
    } else {
      RowIds(Queue(cur), t.taskId);
      FirstSparseWins(Queue(cur), obs, t);
      FirstSparseWins(Queue(cur), obs, u);
      TwoOutcomes(p, cur, obs, [t] + obs, [u] + obs, t.taskId);
    }
  }

  lemma TwoOutcomes(p: Platform, cur: PendingTask, obs: seq<QueuedTask>,
                    one: seq<QueuedTask>, two: seq<QueuedTask>, id: string)
    requires BehindHead(cur, obs) && obs != [] && SetOf(one) == SetOf(obs) && SetOf(two) == SetOf(obs)
    requires id in Ids(Queue(cur) + one) && id in Ids(Queue(cur) + two)
    requires Best(Queue(cur) + one, id) != Best(Queue(cur) + two, id)
    ensures !Converges(p, cur, obs)
  {
    SameSetBehindHead(cur, obs, one);
    SameSetBehindHead(cur, obs, two);
    DifferentRows(p, cur, one, two, id);
    assert !SameOutcome(p, cur, obs, one) || !SameOutcome(p, cur, obs, two);
  }

  /** An unsettled delivery depends on the order, whatever the times are and however the platform collates. */
  lemma ConvergingIsSettled(p: Platform, cur: PendingTask, obs: seq<QueuedTask>)
    requires BehindHead(cur, obs) && Converges(p, cur, obs)
    ensures Settled(SetOf(Queue(cur)), SetOf(obs))
  {
    var start := SetOf(Queue(cur));
    if !Settled(start, SetOf(obs)) {
      var t, u :| t in SetOf(obs) && u in SetOf(obs) && t.taskId == u.taskId && t != u
               && Decides(start, SetOf(obs), t) && Decides(start, SetOf(obs), u);
      UnsettledDiverges(p, cur, obs, t, u);
    }
  }

  /**
   * Arrival-order convergence, for any head, any queue and any observations: every delivery leaves
   * the same state only if the observations are settled; and if the surviving rows of a settled
   * delivery have an order at all, every delivery does. Behind the untouched head there is then
   * one row per task, sorted by time and id.
   */
  lemma ArrivalOrderConvergesIff(p: Platform, cur: PendingTask, obs: seq<QueuedTask>)
    requires BehindHead(cur, obs)
    ensures Converges(p, cur, obs) ==> Settled(SetOf(Queue(cur)), SetOf(obs))
    ensures
      TotalCollation(p) && WellFormed(cur) && NoCrossing(p, Survivors(SetOf(Queue(cur)), SetOf(obs))) ==>
        && (Converges(p, cur, obs) <==> Settled(SetOf(Queue(cur)), SetOf(obs)))
        && (Settled(SetOf(Queue(cur)), SetOf(obs)) && obs != [] ==>
              var q := Queue(Run(p, cur, Arrivals(obs)));
              SetOf(q) == Survivors(SetOf(Queue(cur)), SetOf(obs)) && StrictlySorted(p, q))
  {
    if Converges(p, cur, obs) {
      ConvergingIsSettled(p, cur, obs);
    }
    if TotalCollation(p) && WellFormed(cur) && NoCrossing(p, Survivors(SetOf(Queue(cur)), SetOf(obs)))
       && Settled(SetOf(Queue(cur)), SetOf(obs))
    {
      SettledIsSorted(p, cur, obs);
    }
  }

  lemma SettledIsSorted(p: Platform, cur: PendingTask, obs: seq<QueuedTask>)
    requires TotalCollation(p) && WellFormed(cur) && BehindHead(cur, obs) && Settled(SetOf(Queue(cur)), SetOf(obs))
    requires NoCrossing(p, Survivors(SetOf(Queue(cur)), SetOf(obs)))
    ensures Converges(p, cur, obs)
    ensures obs != [] ==>
      var q := Queue(Run(p, cur, Arrivals(obs)));
      SetOf(q) == Survivors(SetOf(Queue(cur)), SetOf(obs)) && StrictlySorted(p, q)
  {
    forall two | SetOf(two) == SetOf(obs)
      ensures SameOutcome(p, cur, obs, two)
    {
      SettledConverges(p, cur, obs, two);
    }
    if obs != [] {
      ArrivalsKeepRows(p, cur, obs);
      UniqueIsSurvivors(Queue(cur), obs);
    }
  }

  /** The next arrival puts a prioritized queue back in order, as if nothing had been prioritized. */
  lemma ArrivalForgetsPriority(p: Platform, cur: PendingTask, id: string, t: QueuedTask)
    requires TotalCollation(p) && WellFormed(cur) && BehindHead(cur, [t])
    requires NoCrossing(p, Survivors(SetOf(Queue(cur)), {t}))
    ensures Run(p, Prioritize(cur, id), Arrivals([t])) == Run(p, cur, Arrivals([t]))
  {
    var next := Prioritize(cur, id);
    PrioritizePermutes(cur, id);
    SameMembers(Queue(next), Queue(cur));
    SetOfOne(t);
    ArrivalsKeepRows(p, next, [t]);
    ArrivalsKeepRows(p, cur, [t]);
    UniqueIsSurvivors(Queue(next), [t]);
    UniqueIsSurvivors(Queue(cur), [t]);
    SortedUnique(p, Queue(Run(p, next, Arrivals([t]))), Queue(Run(p, cur, Arrivals([t]))));
  }

  /**
   * The smallest case: two observations of one task behind an empty queue commute exactly
   * when they are equal or one of them alone is rich.
   */
  lemma PairCommutesIff(p: Platform, cur: PendingTask, t: QueuedTask, u: QueuedTask)
    requires BehindHead(cur, [t, u])
    requires Queue(cur) == [] && t.taskId == u.taskId
    ensures Run(p, cur, Arrivals([t, u])) == Run(p, cur, Arrivals([u, t])) <==> t == u || Rich(t) != Rich(u)
  {
    PairQueue(p, cur, t, u);
    PairQueue(p, cur, u, t);
  }

  lemma PairQueue(p: Platform, cur: PendingTask, t: QueuedTask, u: QueuedTask)
    requires BehindHead(cur, [t, u])
    requires Queue(cur) == [] && t.taskId == u.taskId
    ensures Run(p, cur, Arrivals([t, u])) == cur.(queued := Some([if Rich(u) then u else t]))
  {
    var one := cur.(queued := Some([t]));
    assert t in [t, u];
    assert [t, u][..1] == [t] && [t][..0] == [];
    assert Run(p, cur, Arrivals([])) == cur;
    ArrivalStep(p, cur, [t]);
    NormalizeOne(p, t);
    NothingMore([t]);
    assert Run(p, cur, Arrivals([t])) == one;
    ArrivalStep(p, cur, [t, u]);
    PairNormal(p, t, u);
  }

  lemma PairNormal(p: Platform, t: QueuedTask, u: QueuedTask)
    requires t.taskId == u.taskId
    ensures NormalizeQueue(p, [t] + [u]) == [if Rich(u) then u else t]
  {
    SingleNormal(p, [t] + [u], t.taskId);
    UniqueStep([t], u);
    assert Ids([t])[0] == t.taskId;
  }

  lemma SingleNormal(p: Platform, q: seq<QueuedTask>, id: string)
    requires q != [] && forall t :: t in q ==> t.taskId == id
    ensures id in Ids(q) && NormalizeQueue(p, q) == [Best(q, id)]
  {
    var r := NormalizeQueue(p, q);
    NormalizeIds(p, q);
    UniqueRows(q);
    assert Ids(q)[0] == id;
    assert id in SetOf(Ids(r));
    forall x | x in Ids(r)
      ensures x in {id}
    {
      assert x in SetOf(Ids(r));
    }
    Pigeonhole(Ids(r), {id});
    assert r[0] in Unique(q);
  }

  // ------------------------------------------------ a witness for both sides

  /** Code-unit order: one total collation. */
  function CodeUnits(a: string, b: string): int {
    if a == [] then (if b == [] then 0 else -1)
    else if b == [] then 1
    else if a[0] != b[0] then a[0] as int - b[0] as int
    else CodeUnits(a[1..], b[1..])
  }

  lemma {:induction false} CodeUnitsOrder(a: string, b: string, c: string)
    ensures CodeUnits(a, b) == 0 <==> a == b
    ensures CodeUnits(a, b) < 0 <==> CodeUnits(b, a) > 0
    ensures CodeUnits(a, b) < 0 && CodeUnits(b, c) < 0 ==> CodeUnits(a, c) < 0
  {
    if a != [] && b != [] {
      assert a == [a[0]] + a[1..] && b == [b[0]] + b[1..];
      CodeUnitsOrder(a[1..], b[1..], if c == [] then [] else c[1..]);
    }
  }

  lemma CodeUnitsTotal(p: Platform)
    requires p.collate == CodeUnits
    ensures TotalCollation(p)
  {
    forall x, y
      ensures p.collate(x, y) == 0 <==> x == y
      ensures p.collate(x, y) < 0 <==> p.collate(y, x) > 0
    {
      CodeUnitsOrder(x, y, y);
    }
    forall x, y, z | p.collate(x, y) < 0 && p.collate(y, z) < 0
      ensures p.collate(x, z) < 0
    {
      CodeUnitsOrder(x, y, z);
    }
  }

  /**
   * Two rows with readable times and one without, ids against times: whatever the readable
   * times are, no order of the three satisfies the comparator.
   */
  lemma MixedTimesHaveNoOrder(p: Platform, early: string, late: string, unreadable: string)
    requires p.collate == CodeUnits
    requires p.parse(early).Some? && p.parse(late).Some? && p.parse(early).value < p.parse(late).value
    requires p.parse(unreadable).None?
    ensures
      var q := [QueuedTask("c", QUEUED, early, None, None), QueuedTask("a", QUEUED, late, None, None),
                QueuedTask("b", QUEUED, unreadable, None, None)];
      !exists r :: multiset(r) == multiset(q) && StrictlySorted(p, r)
  {
    var a, b, c := QueuedTask("c", QUEUED, early, None, None), QueuedTask("a", QUEUED, late, None, None),
                   QueuedTask("b", QUEUED, unreadable, None, None);
    var q := [a, b, c];
    CodeUnitsTotal(p);
    assert "c"[0] != "a"[0] && "c"[0] != "b"[0] && "a"[0] != "b"[0];
    assert Ids(q) == ["c", "a", "b"];
    ArrangementExistsIff(p, q);
    assert q[0] in SetOf(q) && q[1] in SetOf(q) && q[2] in SetOf(q);
    assert Crossing(p, a, b, c);
  }
}
