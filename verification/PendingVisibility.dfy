/** Which messages the queue keeps out of the settled transcript. */
module PendingVisibility {
  import opened Prelude
  import opened PendingQueue

  /** The part of a chat message the filter reads. */
  datatype Message = Message(id: string, taskId: Option<string>)

  /** new Map(rich rows' [message_id, task_id]).get(messageId): the last row wins. */
  function QueuedFor(q: seq<QueuedTask>, messageId: string): Option<string> {
    if q == [] then None
    else if Rich(q[|q| - 1]) && q[|q| - 1].messageId.value == messageId then Some(q[|q| - 1].taskId)
    else QueuedFor(q[..|q| - 1], messageId)
  }

  predicate Hidden(q: seq<QueuedTask>, m: Message) {
    QueuedFor(q, m.id).Some? && QueuedFor(q, m.id) == m.taskId
  }

  function Visible(messages: seq<Message>, q: seq<QueuedTask>): seq<Message> {
    if messages == [] then []
    else Visible(messages[..|messages| - 1], q)
         + (if Hidden(q, messages[|messages| - 1]) then [] else [messages[|messages| - 1]])
  }

  function HideQueuedMessages(messages: seq<Message>, pending: PendingTask): seq<Message> {
    Visible(messages, Queue(pending))
  }

  ghost predicate DistinctMessages(q: seq<QueuedTask>) {
    forall t, u :: t in q && u in q && Rich(t) && Rich(u) && t.messageId == u.messageId ==> t.taskId == u.taskId
  }

  lemma {:induction false} VisibleMembers(messages: seq<Message>, q: seq<QueuedTask>)
    ensures forall m :: m in Visible(messages, q) <==> m in messages && !Hidden(q, m)
  {
    if messages != [] {
      var front := messages[..|messages| - 1];
      VisibleMembers(front, q);
      assert messages == front + [messages[|messages| - 1]];
    }
  }

  /** Hiding takes single messages out and moves none. */
  lemma {:induction false} VisibleConcat(a: seq<Message>, b: seq<Message>, q: seq<QueuedTask>)
    ensures Visible(a + b, q) == Visible(a, q) + Visible(b, q)
  {
    if b == [] {
      NothingMore(a);
      NothingMore(Visible(a, q));
    } else {
      VisibleConcat(a, b[..|b| - 1], q);
      LastOfConcat(a, b);
      Associative(Visible(a, q), Visible(b[..|b| - 1], q), if Hidden(q, b[|b| - 1]) then [] else [b[|b| - 1]]);
    }
  }

  /** The transcript that is shown keeps its order and its repetitions: it is cut at each hidden message. */
  lemma TranscriptKeepsOrder(a: seq<Message>, m: Message, b: seq<Message>, q: seq<QueuedTask>)
    ensures Visible(a + [m] + b, q) == Visible(a, q) + (if Hidden(q, m) then [] else [m]) + Visible(b, q)
    ensures q == [] ==> Visible(a, q) == a
  {
    VisibleConcat(a + [m], b, q);
    VisibleConcat(a, [m], q);
    assert [m][..0] == [];
    if q == [] {
      NothingHidden(a);
    }
  }

  lemma {:induction false} NothingHidden(messages: seq<Message>)
    ensures Visible(messages, []) == messages
  {
    if messages != [] {
      NothingHidden(messages[..|messages| - 1]);
      LastSplit(messages);
    }
  }

  lemma {:induction false} QueuedForRow(q: seq<QueuedTask>, messageId: string)
    ensures QueuedFor(q, messageId).Some? <==> exists t :: t in q && Rich(t) && t.messageId.value == messageId
    ensures QueuedFor(q, messageId).Some? ==>
      exists t :: t in q && Rich(t) && t.messageId.value == messageId && t.taskId == QueuedFor(q, messageId).value
  {
    if q != [] {
      var front, last := q[..|q| - 1], q[|q| - 1];
      assert q == front + [last];
      QueuedForRow(front, messageId);
      assert last in q;
    }
  }

  /** With distinct message ids a message is hidden exactly when its own task is queued under it. */
  lemma HiddenIff(q: seq<QueuedTask>, m: Message)
    requires DistinctMessages(q)
    ensures Hidden(q, m) <==>
      exists t :: t in q && t.messageId == Some(m.id) && m.id != "" && m.taskId == Some(t.taskId)
  {
    QueuedForRow(q, m.id);
  }

  /** A queue whose rich rows all come from `q` hides no message that `q` shows. */
  lemma FewerRowsHideLess(q: seq<QueuedTask>, r: seq<QueuedTask>, messages: seq<Message>)
    requires DistinctMessages(q)
    requires forall t :: t in r && Rich(t) ==> t in q
    ensures forall m :: m in Visible(messages, q) ==> m in Visible(messages, r)
  {
    VisibleMembers(messages, q);
    VisibleMembers(messages, r);
    forall m | m in messages && Hidden(r, m)
      ensures Hidden(q, m)
    {
      HiddenIff(r, m);
      HiddenIff(q, m);
    }
  }

  /** Promoting, removing and prioritizing never hide a message that was visible. */
  lemma LifecycleEventsHideNothing(p: Platform, cur: PendingTask, e: Event, messages: seq<Message>)
    requires DistinctMessages(Queue(cur)) && !e.Enqueued?
    ensures forall m :: m in HideQueuedMessages(messages, cur) ==>
                          m in HideQueuedMessages(messages, Step(p, cur, e))
  {
    FewerRowsHideLess(Queue(cur), Queue(Step(p, cur, e)), messages);
  }

  /**
   * The condition is exact: every removal is safe for every message if and only if no
   * message id is claimed by rows of two tasks.
   */
  lemma RemovalsHideNothingIff(q: seq<QueuedTask>)
    ensures (forall id, m :: Hidden(Without(q, id), m) ==> Hidden(q, m)) <==> DistinctMessages(q)
  {
    if DistinctMessages(q) {
      forall id, m | Hidden(Without(q, id), m)
        ensures Hidden(q, m)
      {
        HiddenIff(Without(q, id), m);
        HiddenIff(q, m);
      }
    } else {
      var t, u :| t in q && u in q && Rich(t) && Rich(u) && t.messageId == u.messageId && t.taskId != u.taskId;
      var id, m := SharedMessageGetsHidden(q, t, u);
      assert Hidden(Without(q, id), m) && !Hidden(q, m);
    }
  }

  /** Removing the row that won the map uncovers an older claim on the same message. */
  lemma SharedMessageGetsHidden(q: seq<QueuedTask>, t: QueuedTask, u: QueuedTask) returns (id: string, m: Message)
    requires t in q && u in q && Rich(t) && Rich(u) && t.messageId == u.messageId && t.taskId != u.taskId
    ensures Hidden(Without(q, id), m) && !Hidden(q, m)
  {
    QueuedForRow(q, t.messageId.value);
    id := QueuedFor(q, t.messageId.value).value;
    var rest := Without(q, id);
    assert t.taskId != id ==> t in rest;
    assert u.taskId != id ==> u in rest;
    QueuedForRow(rest, t.messageId.value);
    m := Message(t.messageId.value, QueuedFor(rest, t.messageId.value));
  }
}
