/** What every run of the pending-chat reducer keeps, loses and shows. */
module PendingRuns {
  import opened Prelude
  import opened Sorting
  import opened PendingQueue

  lemma UniqueRows(q: seq<QueuedTask>)
    ensures forall t :: t in Unique(q) <==> t.taskId in Ids(q) && t == Best(q, t.taskId)
  {
    var ids := Firsts(Ids(q));
    forall t
      ensures t in Unique(q) <==> t.taskId in Ids(q) && t == Best(q, t.taskId)
    {
      if t in Unique(q) {
        var i :| 0 <= i < |ids| && Unique(q)[i] == t;
        assert ids[i] in Ids(q);
      }
      if t.taskId in Ids(q) && t == Best(q, t.taskId) {
        assert t.taskId in ids;
        var i :| 0 <= i < |ids| && ids[i] == t.taskId;
        assert Unique(q)[i] == t;
      }
    }
  }

  /** Sorting the unique rows keeps them, so it keeps their ids distinct. */
  lemma NormalizeIds(p: Platform, q: seq<QueuedTask>)
    ensures multiset(NormalizeQueue(p, q)) == multiset(Unique(q))
    ensures forall t :: t in NormalizeQueue(p, q) <==> t in Unique(q)
    ensures Distinct(Ids(NormalizeQueue(p, q)))
    ensures SetOf(Ids(NormalizeQueue(p, q))) == SetOf(Ids(q))
  {
    var u, r := Unique(q), NormalizeQueue(p, q);
    var cmp := (a: QueuedTask, b: QueuedTask) => Compare(p, a, b);
    SortPermutes(cmp, u);
    SortMembers(cmp, u);
    assert forall i, j :: 0 <= i < j < |u| ==> Ids(u)[i] != Ids(u)[j];
    assert Distinct(u);
    DistinctPermutation(u, r);
    forall i, j | 0 <= i < j < |r|
      ensures Ids(r)[i] != Ids(r)[j]
    {
      assert r[i] in u && r[j] in u;
      UniqueRows(q);
    }
    forall x
      ensures x in Ids(r) <==> x in Ids(q)
    {
      MemberIds(r, x);
      MemberIds(u, x);
    }
  }

  lemma EnqueueHeadless(p: Platform, cur: PendingTask, task: QueuedTask, queued: bool)
    requires WellFormed(cur) && !HasHead(cur)
    ensures WellFormed(Enqueue(p, cur, task, queued))
    ensures Known(Enqueue(p, cur, task, queued)) <= Known(cur) + {task.taskId}
  {
    if queued {
      SetOfOne(task.taskId);
      assert Ids([task]) == [task.taskId];
    } else {
      WithoutIdSet(Queue(cur), task.taskId);
      NormalizeIds(p, Without(Queue(cur), task.taskId));
      var r := Enqueue(p, cur, task, queued);
      assert task.taskId in Ids(Queue(r)) <==> task.taskId in SetOf(Ids(Queue(r)));
    }
  }

  lemma SetOfOne<T>(x: T)
    ensures SetOf([x]) == {x}
  {
  }

  lemma EnqueueOnHead(p: Platform, cur: PendingTask, task: QueuedTask, queued: bool)
    requires WellFormed(cur) && HasHead(cur) && cur.taskId.value == task.taskId
    ensures WellFormed(Enqueue(p, cur, task, queued))
    ensures Known(Enqueue(p, cur, task, queued)) <= Known(cur) + {task.taskId}
  {
    WithoutAbsent(Queue(cur), task.taskId);
  }

  lemma EnqueueBehind(p: Platform, cur: PendingTask, task: QueuedTask)
    requires WellFormed(cur) && HasHead(cur) && cur.taskId.value != task.taskId
    ensures WellFormed(Enqueue(p, cur, task, true))
    ensures Known(Enqueue(p, cur, task, true)) <= Known(cur) + {task.taskId}
  {
    var q := Queue(cur) + [task];
    NormalizeIds(p, q);
    IdsAppend(Queue(cur), [task]);
    assert Ids([task]) == [task.taskId];
    var r := Enqueue(p, cur, task, true);
    assert Queue(r) == NormalizeQueue(p, q);
    assert cur.taskId.value in Ids(Queue(r)) <==> cur.taskId.value in SetOf(Ids(Queue(r)));
    assert cur.taskId.value in SetOf(Ids(q)) <==> cur.taskId.value in Ids(q);
  }

  lemma EnqueueKeeps(p: Platform, cur: PendingTask, task: QueuedTask, queued: bool)
    requires WellFormed(cur)
    ensures WellFormed(Enqueue(p, cur, task, queued))
    ensures Known(Enqueue(p, cur, task, queued)) <= Known(cur) + {task.taskId}
  {
    if !HasHead(cur) {
      EnqueueHeadless(p, cur, task, queued);
    } else if cur.taskId.value == task.taskId {
      EnqueueOnHead(p, cur, task, queued);
    } else if queued {
      EnqueueBehind(p, cur, task);
    } else {
      assert Ids([]) == [];
    }
  }

  /** The row a head that never ran becomes again. */
  function WaitingAgain(head: PendingTask): QueuedTask
    requires head.taskId.Some?
  {
    QueuedTask(head.taskId.value, "queued", head.createdAt.GetOr(""), None, None)
  }

  /**
   * An event for the head itself sets its status and nothing else, but for the hold text: that is
   * the event's, else the one there, while the head waits for its directory, and gone otherwise.
   */
  lemma PromoteHead(cur: PendingTask, id: string, status: string,
                    createdAt: Option<string>, waitReason: Option<string>)
    requires cur.taskId == Some(id)
    ensures
      var r := Promote(cur, id, status, createdAt, waitReason);
      && r.status == Some(status)
      && r.waitReason == (if status != "waiting_local_directory" then None
                          else if waitReason.Some? then waitReason else cur.waitReason)
      && r.taskId == cur.taskId && r.createdAt == cur.createdAt && r.messageId == cur.messageId
      && r.content == cur.content && r.supportsQueue == cur.supportsQueue
      && (forall t :: t in Queue(r) <==> t in Queue(cur) && t.taskId != id)
      && (id !in Ids(Queue(cur)) ==> Queue(r) == Queue(cur))
  {
    if id !in Ids(Queue(cur)) {
      WithoutAbsent(Queue(cur), id);
    }
  }

  /** An event for a task that is neither the head nor queued, or without a head, changes nothing. */
  lemma UnknownTaskIgnored(cur: PendingTask, id: string, status: string,
                           createdAt: Option<string>, waitReason: Option<string>)
    requires cur.taskId != Some(id) && (!HasHead(cur) || forall t :: t in Queue(cur) ==> t.taskId != id)
    ensures Promote(cur, id, status, createdAt, waitReason) == cur
  {
    MemberIds(Queue(cur), id);
  }

  /**
   * Promoting a queued task keeps every id but that of a previous head that is no longer
   * waiting to run, which leaves; the order behind the new head is the old order, with a
   * head that never ran put back in front.
   */
  lemma PromoteConserves(cur: PendingTask, id: string, status: string,
                         createdAt: Option<string>, waitReason: Option<string>)
    requires WellFormed(cur) && HasHead(cur) && id in Ids(Queue(cur))
    ensures
      var r := Promote(cur, id, status, createdAt, waitReason);
      var headWaits := cur.status == None || cur.status == Some("queued");
      var row := Find(Queue(cur), id).value;
      && r.taskId == Some(id) && r.status == Some(status)
      && r.waitReason == (if status == "waiting_local_directory" then waitReason else None)
      && r.messageId == row.messageId && r.content == row.content && r.supportsQueue == cur.supportsQueue
      && r.createdAt == Some(if row.createdAt != "" then row.createdAt else createdAt.GetOr(""))
      && Queue(r) == (if headWaits then [WaitingAgain(cur)] else []) + Without(Queue(cur), id)
      && Known(r) == Known(cur) - (if headWaits then {} else {cur.taskId.value})
      && WellFormed(r)
  {
    PromoteShape(cur, id, status, createdAt, waitReason);
    var headWaits := cur.status == None || cur.status == Some("queued");
    SwapHead(SetOf(Ids(Queue(cur))), cur.taskId.value, id, headWaits);
  }

  function InFront(cur: PendingTask): seq<QueuedTask>
    requires HasHead(cur)
  {
    if cur.status == None || cur.status == Some("queued") then [WaitingAgain(cur)] else []
  }

  lemma PromotedQueue(cur: PendingTask, id: string, status: string,
                      createdAt: Option<string>, waitReason: Option<string>)
    requires WellFormed(cur) && HasHead(cur) && id in Ids(Queue(cur))
    requires var queue := InFront(cur) + Without(Queue(cur), id); Unique(queue) == queue
    ensures
      var r := Promote(cur, id, status, createdAt, waitReason);
      r.taskId == Some(id) && Queue(r) == InFront(cur) + Without(Queue(cur), id)
  {
  }

  /** The promoted state, its queue and the ids in it. */
  lemma PromoteShape(cur: PendingTask, id: string, status: string,
                     createdAt: Option<string>, waitReason: Option<string>)
    requires WellFormed(cur) && HasHead(cur) && id in Ids(Queue(cur))
    ensures
      var r, rest := Promote(cur, id, status, createdAt, waitReason), Without(Queue(cur), id);
      var headWaits := cur.status == None || cur.status == Some("queued");
      && r.taskId == Some(id)
      && Queue(r) == (if headWaits then [WaitingAgain(cur)] else []) + rest
      && Ids(Queue(r)) == (if headWaits then [cur.taskId.value] else []) + Ids(rest)
      && Distinct(Ids(Queue(r)))
      && SetOf(Ids(Queue(r))) == (if headWaits then {cur.taskId.value} else {}) + (SetOf(Ids(Queue(cur))) - {id})
      && id !in Ids(Queue(r))
  {
    var q, front := Queue(cur), InFront(cur);
    BehindNewHead(q, id, front);
    PromotedQueue(cur, id, status, createdAt, waitReason);
    assert id in Ids(front + Without(q, id)) <==> id in SetOf(Ids(front + Without(q, id)));
  }

  lemma SwapHead<T>(queue: set<T>, head: T, next: T, keep: bool)
    requires next in queue && head !in queue
    ensures {next} + ((if keep then {head} else {}) + (queue - {next}))
         == ({head} + queue) - (if keep then {} else {head})
  {
  }

  /** The queue a promotion leaves, given what it puts in front. */
  lemma BehindNewHead(q: seq<QueuedTask>, id: string, front: seq<QueuedTask>)
    requires Distinct(Ids(q))
    requires |front| <= 1 && (front != [] ==> front[0].taskId !in Ids(q))
    ensures
      var r := front + Without(q, id);
      && Unique(r) == r
      && Distinct(Ids(r))
      && Ids(r) == (if front == [] then [] else [front[0].taskId]) + Ids(Without(q, id))
      && SetOf(Ids(r)) == (if front == [] then {} else {front[0].taskId}) + (SetOf(Ids(q)) - {id})
  {
    WithoutIdSet(q, id);
    PrependDistinct(front, Without(q, id));
    UniqueIdentity(front + Without(q, id));
  }

  lemma WithoutIdSet(q: seq<QueuedTask>, id: string)
    requires Distinct(Ids(q))
    ensures Distinct(Ids(Without(q, id)))
    ensures SetOf(Ids(Without(q, id))) == SetOf(Ids(q)) - {id}
  {
    WithoutIds(q, id);
  }

  lemma PrependDistinct(front: seq<QueuedTask>, rest: seq<QueuedTask>)
    requires |front| <= 1 && Distinct(Ids(rest))
    requires front != [] ==> front[0].taskId !in Ids(rest)
    ensures Ids(front + rest) == Ids(front) + Ids(rest)
    ensures Distinct(Ids(front + rest))
    ensures Ids(front) == if front == [] then [] else [front[0].taskId]
    ensures SetOf(Ids(front + rest)) == SetOf(Ids(front)) + SetOf(Ids(rest))
    ensures SetOf(Ids(front)) == if front == [] then {} else {front[0].taskId}
  {
    IdsAppend(front, rest);
  }

  lemma PromoteKeeps(cur: PendingTask, id: string, status: string,
                     createdAt: Option<string>, waitReason: Option<string>)
    requires WellFormed(cur)
    ensures WellFormed(Promote(cur, id, status, createdAt, waitReason))
    ensures Known(Promote(cur, id, status, createdAt, waitReason)) <= Known(cur)
    ensures HasHead(Promote(cur, id, status, createdAt, waitReason)) ==> HasHead(cur)
  {
    if cur.taskId == Some(id) {
      WithoutIdSet(Queue(cur), id);
    } else if HasHead(cur) && id in Ids(Queue(cur)) {
      PromoteConserves(cur, id, status, createdAt, waitReason);
    }
  }

  /** Removing a queued task drops exactly its id and leaves everything else. */
  lemma RemoveQueuedConserves(cur: PendingTask, id: string)
    requires WellFormed(cur) && HasHead(cur) && cur.taskId.value != id
    ensures
      var r := Remove(cur, id);
      && WellFormed(r) && Known(r) == Known(cur) - {id}
      && r == cur.(queued := Some(Without(Queue(cur), id)))
  {
    WithoutIdSet(Queue(cur), id);
    assert cur.taskId.value in Ids(Without(Queue(cur), id))
      <==> cur.taskId.value in SetOf(Ids(Without(Queue(cur), id)));
  }

  /** Removing the head drops exactly its id; the queue front takes over as it is, the rest stays in order. */
  lemma RemoveHeadConserves(cur: PendingTask)
    requires WellFormed(cur) && HasHead(cur)
    ensures
      var r, q := Remove(cur, cur.taskId.value), Queue(cur);
      if q == [] then r == EMPTY
      else
        && WellFormed(r) && Known(r) == Known(cur) - {cur.taskId.value}
        && r.taskId == Some(q[0].taskId) && r.status == Some(q[0].status) && r.createdAt == Some(q[0].createdAt)
        && r.messageId == q[0].messageId && r.content == q[0].content && Queue(r) == q[1..]
        && r.waitReason == None && r.supportsQueue == cur.supportsQueue
  {
    var q, id := Queue(cur), cur.taskId.value;
    WithoutAbsent(q, id);
    UniqueIdentity(q);
    if q != [] {
      IdsTail(q);
      assert id in Ids(q) <==> id in SetOf(Ids(q));
    }
  }

  lemma IdsTail(q: seq<QueuedTask>)
    requires q != [] && Distinct(Ids(q))
    ensures Ids(q) == [q[0].taskId] + Ids(q[1..])
    ensures Distinct(Ids(q[1..])) && q[0].taskId !in Ids(q[1..])
    ensures SetOf(Ids(q)) == {q[0].taskId} + SetOf(Ids(q[1..]))
  {
    assert Ids(q[1..]) == Ids(q)[1..];
  }

  lemma {:induction false} WithoutAbsent(q: seq<QueuedTask>, id: string)
    requires id !in Ids(q)
    ensures Without(q, id) == q
  {
    if q != [] {
      var front, last := q[..|q| - 1], q[|q| - 1];
      LastSplit(q);
      IdsAppend(front, [last]);
      assert Ids([last]) == [last.taskId];
      WithoutAbsent(front, id);
    }
  }

  /** Without a head there is nothing to remove or to prioritize, and what waits is dropped. */
  lemma HeadlessIsCleared(cur: PendingTask, id: string)
    requires cur.taskId == None || cur.taskId == Some("")
    ensures Remove(cur, id) == Prioritize(cur, id) == PendingTask(None, None, None, None, None, None, None, None)
  {
  }

  /** Prioritizing permutes the queue: the chosen task first, the others in their old order. */
  lemma PrioritizePermutes(cur: PendingTask, id: string)
    requires WellFormed(cur) && HasHead(cur)
    ensures
      var r := Prioritize(cur, id);
      && multiset(Queue(r)) == multiset(Queue(cur))
      && Without(Queue(r), id) == Without(Queue(cur), id)
      && (id in Ids(Queue(cur)) ==> Queue(r)[0].taskId == id)
      && r == cur.(queued := r.queued)
      && WellFormed(r) && Known(r) == Known(cur)
  {
    var q := Queue(cur);
    if id in Ids(q) {
      PickPermutes(q, id);
      var picked := [Find(q, id).value] + Without(q, id);
      var r := Prioritize(cur, id);
      assert r == cur.(queued := Some(picked));
      assert Queue(r) == picked;
      assert forall x :: x in SetOf(Ids(picked)) <==> x in Ids(picked);
    } else {
      assert Prioritize(cur, id) == cur;
    }
  }

  lemma PickPermutes(q: seq<QueuedTask>, id: string)
    requires Distinct(Ids(q)) && id in Ids(q)
    ensures
      var r := [Find(q, id).value] + Without(q, id);
      && multiset(r) == multiset(q)
      && Without(r, id) == Without(q, id)
      && Distinct(Ids(r)) && SetOf(Ids(r)) == SetOf(Ids(q))
  {
    var chosen := Find(q, id).value;
    PickIds(q, chosen);
    PickMembers(q, chosen);
    RowsDistinct(q);
    RowsDistinct([chosen] + Without(q, id));
    DistinctSameMultiset(q, [chosen] + Without(q, id));
  }

  lemma PickIds(q: seq<QueuedTask>, chosen: QueuedTask)
    requires Distinct(Ids(q)) && chosen in q
    ensures
      var r := [chosen] + Without(q, chosen.taskId);
      && Without(r, chosen.taskId) == Without(q, chosen.taskId)
      && Distinct(Ids(r)) && SetOf(Ids(r)) == SetOf(Ids(q))
  {
    var id, rest := chosen.taskId, Without(q, chosen.taskId);
    MemberIds(q, id);
    WithoutIdSet(q, id);
    assert id in Ids(rest) <==> id in SetOf(Ids(rest));
    PrependDistinct([chosen], rest);
    WithoutAbsent(rest, id);
    WithoutFront(chosen, rest, id);
    PutBack(SetOf(Ids(q)), id);
  }

  lemma PutBack<T>(s: set<T>, x: T)
    requires x in s
    ensures {x} + (s - {x}) == s
  {
  }

  lemma PickMembers(q: seq<QueuedTask>, chosen: QueuedTask)
    requires Distinct(Ids(q)) && chosen in q
    ensures SetOf([chosen] + Without(q, chosen.taskId)) == SetOf(q)
  {
    SameIdSameRow(q);
    forall t
      ensures t in [chosen] + Without(q, chosen.taskId) <==> t in q
    {
    }
  }

  lemma {:induction false} WithoutFront(t: QueuedTask, rest: seq<QueuedTask>, id: string)
    requires t.taskId == id
    ensures Without([t] + rest, id) == Without(rest, id)
  {
    var q := [t] + rest;
    if rest != [] {
      WithoutFront(t, rest[..|rest| - 1], id);
      assert q[..|q| - 1] == [t] + rest[..|rest| - 1];
    }
  }

  lemma RowsDistinct(q: seq<QueuedTask>)
    requires Distinct(Ids(q))
    ensures Distinct(q)
  {
    assert forall i :: 0 <= i < |q| ==> Ids(q)[i] == q[i].taskId;
  }

  lemma SameIdSameRow(q: seq<QueuedTask>)
    requires Distinct(Ids(q))
    ensures forall t, u :: t in q && u in q && t.taskId == u.taskId ==> t == u
  {
    assert forall i :: 0 <= i < |q| ==> Ids(q)[i] == q[i].taskId;
  }

  ghost function EnqueuedIds(events: seq<Event>): set<string> {
    set e | e in events && e.Enqueued? :: e.task.taskId
  }

  lemma StepKeeps(p: Platform, cur: PendingTask, e: Event)
    requires WellFormed(cur)
    ensures WellFormed(Step(p, cur, e))
    ensures Known(Step(p, cur, e)) <= Known(cur) + EnqueuedIds([e])
    ensures !HasHead(cur) && !e.Enqueued? ==> !HasHead(Step(p, cur, e))
  {
    match e
    case Enqueued(task, queued) =>
      EnqueueKeeps(p, cur, task, queued.GetOr(QueuedByDefault(cur, task)));
      assert e in [e];
    case Promoted(id, status, createdAt, waitReason) =>
      PromoteKeeps(cur, id, status, createdAt, waitReason);
    case Removed(id) =>
      if HasHead(cur) {
        if cur.taskId.value == id {
          RemoveHeadConserves(cur);
        } else {
          RemoveQueuedConserves(cur, id);
        }
      }
    case Prioritized(id) =>
      if HasHead(cur) {
        PrioritizePermutes(cur, id);
      }
  }

  /**
   * Every run keeps queue ids distinct, the head out of the queue and a wait reason only on
   * a waiting head, and mentions no id that was neither there nor enqueued; without an
   * enqueue, a state without a head never gets one.
   */
  lemma {:induction false} RunKeeps(p: Platform, cur: PendingTask, events: seq<Event>)
    requires WellFormed(cur)
    ensures WellFormed(Run(p, cur, events))
    ensures Known(Run(p, cur, events)) <= Known(cur) + EnqueuedIds(events)
    ensures !HasHead(cur) && (forall e :: e in events ==> !e.Enqueued?) ==> !HasHead(Run(p, cur, events))
  {
    if events != [] {
      var front, last := events[..|events| - 1], events[|events| - 1];
      assert events == front + [last];
      RunKeeps(p, cur, front);
      StepKeeps(p, Run(p, cur, front), last);
      assert EnqueuedIds(front) <= EnqueuedIds(events);
      assert EnqueuedIds([last]) <= EnqueuedIds(events);
    }
  }

  /** The queue capability the server announced survives every event that leaves anything. */
  lemma CapabilitySurvives(p: Platform, cur: PendingTask, e: Event)
    ensures Step(p, cur, e) == EMPTY || Step(p, cur, e).supportsQueue == cur.supportsQueue
  {
    match e
    case Enqueued(task, queued) =>
      var r := Enqueue(p, cur, task, queued.GetOr(QueuedByDefault(cur, task)));
      assert r.supportsQueue == cur.supportsQueue;
    case Promoted(id, status, createdAt, waitReason) =>
      assert Promote(cur, id, status, createdAt, waitReason).supportsQueue == cur.supportsQueue;
    case Removed(id) =>
    case Prioritized(id) =>
  }

  // ------------------------------------------------ observations of the head itself

  /**
   * Observing the head again never downgrades it: a status past "queued", its start time, its
   * hold explanation and its queue survive, and a second delivery changes nothing more.
   */
  lemma HeadNeverDowngraded(p: Platform, cur: PendingTask, task: QueuedTask, queued: bool)
    requires WellFormed(cur) && HasHead(cur) && cur.taskId.value == task.taskId
    ensures
      var r := Enqueue(p, cur, task, queued);
      && r.taskId == cur.taskId && Queue(r) == Queue(cur)
      && r.status == (if cur.status in {None, Some(""), Some("queued")} then Some(task.status) else cur.status)
      && r.createdAt == (if cur.createdAt in {None, Some("")} then Some(task.createdAt) else cur.createdAt)
      && r.waitReason == cur.waitReason && r.supportsQueue == cur.supportsQueue
      && r.messageId == (if task.messageId.Some? then task.messageId else cur.messageId)
      && r.content == (if task.content.Some? then task.content else cur.content)
      && Enqueue(p, r, task, queued) == r
  {
    WithoutAbsent(Queue(cur), task.taskId);
  }

  /** The sparse echo of a head already known in full changes nothing. */
  lemma SparseEchoOfHead(p: Platform, cur: PendingTask, rich: QueuedTask, queued: bool)
    requires WellFormed(cur) && HasHead(cur) && cur.taskId.value == rich.taskId
    ensures
      var r := Enqueue(p, cur, rich, queued);
      Enqueue(p, r, rich.(messageId := None, content := None), queued) == r
  {
    HeadNeverDowngraded(p, cur, rich, queued);
    WithoutAbsent(Queue(cur), rich.taskId);
  }

  /** `task` is the head, as it was sent. */
  predicate HeadIs(r: PendingTask, task: QueuedTask) {
    && r.taskId == Some(task.taskId) && r.status == Some(task.status) && r.createdAt == Some(task.createdAt)
    && r.messageId == task.messageId && r.content == task.content && r.waitReason == None
  }

  /**
   * By default a first task becomes the head, in front of the other rows that were waiting for
   * one, and a later one queues behind it.
   */
  lemma FirstTaskBecomesHead(p: Platform, cur: PendingTask, task: QueuedTask)
    requires cur.taskId == None || cur.taskId == Some("")
    ensures
      var r := Step(p, cur, Enqueued(task, None));
      && HeadIs(r, task) && r.supportsQueue == cur.supportsQueue
      && (forall id :: id in Ids(Queue(r)) <==> id in Ids(Queue(cur)) && id != task.taskId)
  {
    WithoutIds(Queue(cur), task.taskId);
    NormalizeIds(p, Without(Queue(cur), task.taskId));
    var r := Step(p, cur, Enqueued(task, None));
    forall id
      ensures id in Ids(Queue(r)) <==> id in Ids(Queue(cur)) && id != task.taskId
    {
      assert id in Ids(Queue(r)) <==> id in SetOf(Ids(Queue(r)));
      assert id in Ids(Without(Queue(cur), task.taskId)) <==> id in SetOf(Ids(Without(Queue(cur), task.taskId)));
    }
  }

  /** A task known not to queue replaces another head and everything behind it. */
  lemma IdleSendReplaces(p: Platform, cur: PendingTask, task: QueuedTask)
    requires HasHead(cur) && cur.taskId != Some(task.taskId)
    ensures
      var r := Step(p, cur, Enqueued(task, Some(false)));
      HeadIs(r, task) && r.supportsQueue == cur.supportsQueue && Queue(r) == []
  {
  }

  /** A queued task without a head is kept as the only row, without making it the head. */
  lemma QueuedBeforeHead(p: Platform, cur: PendingTask, task: QueuedTask)
    requires cur.taskId == None || cur.taskId == Some("")
    ensures
      var r := Step(p, cur, Enqueued(task, Some(true)));
      r.taskId == None && r.supportsQueue == cur.supportsQueue && Queue(r) == [task]
  {
  }

  /**
   * A follow-up whose response overtakes the head's is kept behind it. Only one is: without a
   * head each queued arrival replaces the row before it, until a refetch.
   */
  lemma FollowUpBeforeHead(p: Platform, first: QueuedTask, followUp: QueuedTask, head: QueuedTask)
    requires head.taskId != "" && followUp.taskId != head.taskId
    ensures
      var r := Enqueue(p, Enqueue(p, Enqueue(p, EMPTY, first, true), followUp, true), head, false);
      r.taskId == Some(head.taskId) && Queue(r) == [followUp]
  {
    var waiting := EMPTY.(queued := Some([followUp]));
    assert Enqueue(p, Enqueue(p, EMPTY, first, true), followUp, true) == waiting;
    NormalizeOne(p, followUp);
    assert Ids([followUp]) == [followUp.taskId];
    WithoutAbsent(Queue(waiting), head.taskId);
  }

  lemma NormalizeOne(p: Platform, t: QueuedTask)
    ensures NormalizeQueue(p, [t]) == [t]
  {
    UniqueIdentity([t]);
    SortIdentity((a, b) => Compare(p, a, b), [t]);
  }
}
