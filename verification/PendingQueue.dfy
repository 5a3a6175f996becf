/**
 * packages/core/chat/pending.ts: the head task of a chat session and the follow-ups
 * queued behind it, as a reducer over events that arrive in any network order.
 */
module PendingQueue {
  import opened Prelude
  import opened Sorting

  const QUEUED := "queued"
  const WAITING := "waiting_local_directory"

  datatype QueuedTask = QueuedTask(
    taskId: string, status: string, createdAt: string,
    messageId: Option<string>, content: Option<string>)

  /** `undefined` and the empty object behave alike everywhere, so both are `EMPTY`. */
  datatype PendingTask = PendingTask(
    taskId: Option<string>, status: Option<string>, createdAt: Option<string>,
    messageId: Option<string>, content: Option<string>,
    waitReason: Option<string>, supportsQueue: Option<bool>,
    queued: Option<seq<QueuedTask>>)

  const EMPTY := PendingTask(None, None, None, None, None, None, None, None)

  /** Date.parse (None for NaN) and String.prototype.localeCompare. */
  datatype Platform = Platform(parse: string -> Option<int>, collate: (string, string) -> int)

  /** What the source relies on: ids are totally ordered by localeCompare. */
  ghost predicate TotalCollation(p: Platform) {
    && (forall a, b :: p.collate(a, b) == 0 <==> a == b)
    && (forall a, b :: p.collate(a, b) < 0 <==> p.collate(b, a) > 0)
    && (forall a, b, c :: p.collate(a, b) < 0 && p.collate(b, c) < 0 ==> p.collate(a, c) < 0)
  }

  // ---------------------------------------------------------------- the code

  function Compare(p: Platform, left: QueuedTask, right: QueuedTask): int {
    var l, r := p.parse(left.createdAt), p.parse(right.createdAt);
    if l.Some? && r.Some? && l.value != r.value then l.value - r.value
    else p.collate(left.taskId, right.taskId)
  }

  predicate Rich(t: QueuedTask) {
    Truthy(t.messageId)
  }

  function Ids(q: seq<QueuedTask>): (ids: seq<string>)
    ensures |ids| == |q| && forall i :: 0 <= i < |q| ==> ids[i] == q[i].taskId
  {
    seq(|q|, i requires 0 <= i < |q| => q[i].taskId)
  }

  lemma IdsAppend(q: seq<QueuedTask>, r: seq<QueuedTask>)
    ensures Ids(q + r) == Ids(q) + Ids(r)
  {
  }

  /** The latest rich observation of `id`, or its first observation when none is rich. */
  function Best(q: seq<QueuedTask>, id: string): (t: QueuedTask)
    requires id in Ids(q)
    ensures t in q && t.taskId == id
  {
    var front, last := q[..|q| - 1], q[|q| - 1];
    if last.taskId == id && (Rich(last) || id !in Ids(front)) then last else Best(front, id)
  }

  function Unique(q: seq<QueuedTask>): (r: seq<QueuedTask>)
    ensures Ids(r) == Firsts(Ids(q))
    ensures forall t :: t in r ==> t in q
  {
    var ids := Firsts(Ids(q));
    var r := seq(|ids|, i requires 0 <= i < |ids| => assert ids[i] in Ids(q); Best(q, ids[i]));
    assert forall i :: 0 <= i < |ids| ==> r[i].taskId == ids[i] && ids[i] in Ids(q);
    assert Ids(r) == ids;
    r
  }

  /** How one more observation changes the map: its key order and its rows. */
  lemma UniqueStep(q: seq<QueuedTask>, task: QueuedTask)
    ensures Firsts(Ids(q + [task])) == Firsts(Ids(q)) + (if task.taskId in Ids(q) then [] else [task.taskId])
    ensures forall id :: id in Ids(q + [task]) <==> id in Ids(q) || id == task.taskId
    ensures forall id :: id in Ids(q) && (id != task.taskId || !Rich(task)) ==> Best(q + [task], id) == Best(q, id)
    ensures Rich(task) || task.taskId !in Ids(q) ==> Best(q + [task], task.taskId) == task
  {
    var all := q + [task];
    IdsAppend(q, [task]);
    assert Ids(all) == Ids(q) + [task.taskId];
    assert Ids(all)[..|all| - 1] == Ids(q);
    assert all[..|all| - 1] == q;
    assert Ids(all)[|q|] == task.taskId;
  }

  /** The Map after `q`: its keys in insertion order and the row stored for each. */
  ghost predicate MapHolds(order: seq<string>, byId: map<string, QueuedTask>, q: seq<QueuedTask>) {
    && order == Firsts(Ids(q))
    && (forall id :: id in byId <==> id in Ids(q))
    && (forall id :: id in byId ==> byId[id] == Best(q, id))
  }

  lemma MapSet(order: seq<string>, byId: map<string, QueuedTask>, q: seq<QueuedTask>, task: QueuedTask)
    requires MapHolds(order, byId, q)
    ensures
      var order' := if task.taskId in byId then order else order + [task.taskId];
      var byId' := if task.taskId !in byId || Rich(task) then byId[task.taskId := task] else byId;
      MapHolds(order', byId', q + [task])
  {
    UniqueStep(q, task);
  }

  lemma MapKeys(order: seq<string>, byId: map<string, QueuedTask>, q: seq<QueuedTask>)
    requires MapHolds(order, byId, q)
    ensures forall k :: 0 <= k < |order| ==> order[k] in byId
  {
    forall k | 0 <= k < |order|
      ensures order[k] in byId
    {
      assert order[k] in Firsts(Ids(q));
    }
  }

  lemma MapValues(order: seq<string>, byId: map<string, QueuedTask>, q: seq<QueuedTask>, r: seq<QueuedTask>)
    requires MapHolds(order, byId, q) && |r| == |order|
    requires forall k :: 0 <= k < |order| ==> order[k] in byId && r[k] == byId[order[k]]
    ensures r == Unique(q)
  {
  }

  lemma NextPrefix<T>(s: seq<T>, i: nat)
    requires i < |s|
    ensures s[..i + 1] == s[..i] + [s[i]]
  {
  }

  /** `new Map`, filled in a loop, then its values in insertion order. */
  method UniqueQueue(tasks: seq<QueuedTask>) returns (r: seq<QueuedTask>)
    ensures r == Unique(tasks)
  {
    var byId: map<string, QueuedTask> := map[];
    var order: seq<string> := [];
    for i := 0 to |tasks|
      invariant MapHolds(order, byId, tasks[..i])
    {
      var task := tasks[i];
      NextPrefix(tasks, i);
      MapSet(order, byId, tasks[..i], task);
      if task.taskId !in byId || Rich(task) {
        order := if task.taskId in byId then order else order + [task.taskId];
        byId := byId[task.taskId := task];
      }
    }
    Whole(tasks);
    MapKeys(order, byId, tasks);
    r := [];
    for i := 0 to |order|
      invariant |r| == i
      invariant forall k :: 0 <= k < i ==> r[k] == byId[order[k]]
    {
      r := r + [byId[order[i]]];
    }
    MapValues(order, byId, tasks, r);
  }

  function NormalizeQueue(p: Platform, tasks: seq<QueuedTask>): seq<QueuedTask> {
    Sort((a, b) => Compare(p, a, b), Unique(tasks))
  }

  /** queue.filter(task => task.task_id !== id) */
  function Without(q: seq<QueuedTask>, id: string): (r: seq<QueuedTask>)
    ensures forall t :: t in r <==> t in q && t.taskId != id
  {
    if q == [] then []
    else
      var front, last := q[..|q| - 1], q[|q| - 1];
      assert q == front + [last];
      if last.taskId != id then Without(front, id) + [last] else Without(front, id)
  }

  /** queue.find(task => task.task_id === id) */
  function Find(q: seq<QueuedTask>, id: string): (r: Option<QueuedTask>)
    ensures r.Some? <==> id in Ids(q)
    ensures r.Some? ==> r.value in q && r.value.taskId == id
  {
    if q == [] then None
    else if q[0].taskId == id then assert id == Ids(q)[0]; Some(q[0])
    else
      assert Ids(q) == [q[0].taskId] + Ids(q[1..]);
      Find(q[1..], id)
  }

  predicate HasHead(cur: PendingTask) {
    Truthy(cur.taskId)
  }

  function Queue(cur: PendingTask): seq<QueuedTask> {
    cur.queued.GetOr([])
  }

  /** {...task}: a queued task spread into a fresh pending task. */
  function AsHead(task: QueuedTask): PendingTask {
    PendingTask(Some(task.taskId), Some(task.status), Some(task.createdAt),
                task.messageId, task.content, None, None, None)
  }

  function AsSummary(task: PendingTask): Option<QueuedTask> {
    if !HasHead(task) then None
    else Some(QueuedTask(task.taskId.value, task.status.GetOr(QUEUED), task.createdAt.GetOr(""), None, None))
  }

  /** The default of the `queued` parameter. */
  predicate QueuedByDefault(cur: PendingTask, task: QueuedTask) {
    HasHead(cur) && cur.taskId != Some(task.taskId)
  }

  function Enqueue(p: Platform, cur: PendingTask, task: QueuedTask, queued: bool): PendingTask {
    if !HasHead(cur) then
      if queued then EMPTY.(supportsQueue := cur.supportsQueue, queued := Some([task]))
      else AsHead(task).(supportsQueue := cur.supportsQueue,
                         queued := Some(NormalizeQueue(p, Without(Queue(cur), task.taskId))))
    else if cur.taskId.value == task.taskId then
      var status := if Truthy(cur.status) && cur.status != Some(QUEUED) then cur.status else Some(task.status);
      cur.(taskId := Some(task.taskId), status := status,
           createdAt := if Truthy(cur.createdAt) then cur.createdAt else Some(task.createdAt),
           messageId := task.messageId.Or(cur.messageId), content := task.content.Or(cur.content),
           queued := Some(Without(Queue(cur), task.taskId)))
    else if !queued then AsHead(task).(supportsQueue := cur.supportsQueue, queued := Some([]))
    else cur.(queued := Some(NormalizeQueue(p, Queue(cur) + [task])))
  }

  function ResolveWaitReason(status: string, incoming: Option<string>, existing: Option<string>): Option<string> {
    if status != WAITING then None else incoming.Or(existing)
  }

  function Promote(cur: PendingTask, id: string, status: string,
                   createdAt: Option<string>, waitReason: Option<string>): PendingTask
  {
    var queue := Queue(cur);
    if cur.taskId == Some(id) then
      cur.(status := Some(status), waitReason := ResolveWaitReason(status, waitReason, cur.waitReason),
           queued := Some(Without(queue, id)))
    else
      var promoted := Find(queue, id);
      if !HasHead(cur) || promoted.None? then cur
      else
        var previous := AsSummary(cur);
        AsHead(promoted.value).(
          supportsQueue := cur.supportsQueue, status := Some(status),
          waitReason := ResolveWaitReason(status, waitReason, None),
          createdAt := Some(if promoted.value.createdAt != "" then promoted.value.createdAt
                            else if Truthy(createdAt) then createdAt.value else ""),
          queued := Some(Unique(
            (if previous.Some? && previous.value.status == QUEUED then [previous.value] else [])
            + Without(queue, id))))
  }

  function Remove(cur: PendingTask, id: string): PendingTask {
    if !HasHead(cur) then EMPTY
    else if cur.taskId.value != id then cur.(queued := Some(Without(Queue(cur), id)))
    else
      var rest := Unique(Without(Queue(cur), id));
      if rest == [] then EMPTY
      else AsHead(rest[0]).(supportsQueue := cur.supportsQueue, queued := Some(rest[1..]))
  }

  function Prioritize(cur: PendingTask, id: string): PendingTask {
    if !HasHead(cur) then EMPTY
    else
      var selected := Find(Queue(cur), id);
      if selected.None? then cur
      else cur.(queued := Some([selected.value] + Without(Queue(cur), id)))
  }

  // ------------------------------------------------------------ runs of events

  datatype Event =
    | Enqueued(task: QueuedTask, queued: Option<bool>)
    | Promoted(id: string, status: string, createdAt: Option<string>, waitReason: Option<string>)
    | Removed(id: string)
    | Prioritized(id: string)

  function Step(p: Platform, cur: PendingTask, e: Event): PendingTask {
    match e
    case Enqueued(task, queued) => Enqueue(p, cur, task, queued.GetOr(QueuedByDefault(cur, task)))
    case Promoted(id, status, createdAt, waitReason) => Promote(cur, id, status, createdAt, waitReason)
    case Removed(id) => Remove(cur, id)
    case Prioritized(id) => Prioritize(cur, id)
  }

  function Run(p: Platform, cur: PendingTask, events: seq<Event>): PendingTask {
    if events == [] then cur else Step(p, Run(p, cur, events[..|events| - 1]), events[|events| - 1])
  }

  /** Every task id the state mentions. */
  ghost function Known(cur: PendingTask): set<string> {
    (if cur.taskId.Some? then {cur.taskId.value} else {}) + SetOf(Ids(Queue(cur)))
  }

  ghost predicate WellFormed(cur: PendingTask) {
    && Distinct(Ids(Queue(cur)))
    && (HasHead(cur) ==> cur.taskId.value !in Ids(Queue(cur)))
    && (cur.waitReason.Some? ==> cur.status == Some(WAITING))
  }

  // ---------------------------------------------------------------- lemmas: lists

  lemma {:induction false} BestOfDistinct(q: seq<QueuedTask>, i: nat)
    requires Distinct(Ids(q)) && i < |q|
    ensures q[i].taskId in Ids(q) && Best(q, q[i].taskId) == q[i]
  {
    assert Ids(q)[i] == q[i].taskId;
    var front, last := q[..|q| - 1], q[|q| - 1];
    assert Ids(front) == Ids(q)[..|q| - 1];
    if i < |q| - 1 {
      assert Ids(q)[i] != Ids(q)[|q| - 1];
      BestOfDistinct(front, i);
      assert front[i] == q[i];
    } else {
      assert last.taskId !in Ids(front);
    }
  }

  lemma UniqueIdentity(q: seq<QueuedTask>)
    requires Distinct(Ids(q))
    ensures Unique(q) == q
  {
    FirstsIdentity(Ids(q));
    forall i | 0 <= i < |q|
      ensures Unique(q)[i] == q[i]
    {
      BestOfDistinct(q, i);
    }
  }

  lemma {:induction false} WithoutIds(q: seq<QueuedTask>, id: string)
    ensures forall x :: x in Ids(Without(q, id)) <==> x in Ids(q) && x != id
    ensures Distinct(Ids(q)) ==> Distinct(Ids(Without(q, id)))
  {
    forall x
      ensures x in Ids(Without(q, id)) <==> x in Ids(q) && x != id
    {
      MemberIds(q, x);
      MemberIds(Without(q, id), x);
    }
    if q != [] && Distinct(Ids(q)) {
      var front, last := q[..|q| - 1], q[|q| - 1];
      assert Ids(front) == Ids(q)[..|q| - 1];
      WithoutIds(front, id);
      var kept := Without(front, id);
      IdsAppend(kept, [last]);
      assert Ids(q)[|q| - 1] == last.taskId;
      assert last.taskId !in Ids(front);
      assert last.taskId !in Ids(kept);
      DistinctAppend(Ids(kept), last.taskId);
    }
  }

  lemma MemberIds(q: seq<QueuedTask>, id: string)
    ensures id in Ids(q) <==> exists t :: t in q && t.taskId == id
  {
    if id in Ids(q) {
      var i :| 0 <= i < |q| && Ids(q)[i] == id;
      assert q[i] in q;
    }
    if t :| t in q && t.taskId == id {
      var i :| 0 <= i < |q| && q[i] == t;
      assert Ids(q)[i] == id;
    }
  }

  lemma DistinctAppend(s: seq<string>, x: string)
    ensures Distinct(s + [x]) <==> Distinct(s) && x !in s
  {
    if Distinct(s + [x]) {
      assert (s + [x])[..|s|] == s;
      assert forall i :: 0 <= i < |s| ==> s[i] == (s + [x])[i] && (s + [x])[|s|] == x;
    }
  }
}
