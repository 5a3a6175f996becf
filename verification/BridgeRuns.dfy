/** What holds of the bridge after every interleaving of its callbacks. */
module BridgeRuns {
  import opened Prelude
  import opened PluginBridge

  // ---------------------------------------------------------------- request ids

  lemma {:induction false} DecimalInjective(m: nat, n: nat)
    requires Decimal(m) == Decimal(n)
    ensures m == n
  {
    DigitInjective(m % 10, n % 10);
    DecimalLength(m);
    DecimalLength(n);
    if m >= 10 {
      var a, b := Decimal(m), Decimal(n);
      assert a[|a| - 1] == Digit(m % 10) && b[|b| - 1] == Digit(n % 10);
      assert a[..|a| - 1] == Decimal(m / 10) && b[..|b| - 1] == Decimal(n / 10);
      DecimalInjective(m / 10, n / 10);
    }
  }

  lemma DecimalLength(n: nat)
    ensures |Decimal(n)| >= 1 && (n >= 10 ==> |Decimal(n)| >= 2)
  {
  }

  lemma DigitInjective(m: nat, n: nat)
    requires m < 10 && n < 10
    ensures Digit(m) == Digit(n) <==> m == n
  {
  }

  /** What a decimal number says. */
  function Value(s: string): int {
    if s == [] then 0 else 10 * Value(s[..|s| - 1]) + (s[|s| - 1] as int - '0' as int)
  }

  lemma DigitValue(n: nat)
    requires n < 10
    ensures Digit(n) as int == '0' as int + n && '0' <= Digit(n) <= '9'
  {
  }

  lemma ValueAppend(s: string, c: char)
    ensures Value(s + [c]) == 10 * Value(s) + (c as int - '0' as int)
  {
    LastOff(s, c);
  }

  lemma NumberAppend(s: string, c: char)
    requires IsNumber(s) && '0' <= c <= '9'
    ensures IsNumber(s + [c])
  {
  }

  predicate IsNumber(s: string) {
    forall k :: 0 <= k < |s| ==> '0' <= s[k] <= '9'
  }

  lemma {:induction false} DecimalValue(n: nat)
    ensures Value(Decimal(n)) == n && IsNumber(Decimal(n))
  {
    DigitValue(n % 10);
    if n >= 10 {
      DecimalValue(n / 10);
      ValueAppend(Decimal(n / 10), Digit(n % 10));
      NumberAppend(Decimal(n / 10), Digit(n % 10));
    } else {
      ValueAppend([], Digit(n));
      NothingMore([Digit(n)]);
    }
  }

  /** A request id is the letter r and the number of the request, in decimal. */
  lemma RequestIdReads(n: nat)
    ensures RequestId(n)[..1] == "r" && Value(RequestId(n)[1..]) == n
  {
    DecimalValue(n);
    assert RequestId(n)[1..] == Decimal(n);
  }

  /** Request ids never repeat. */
  lemma RequestIdInjective(m: nat, n: nat)
    requires RequestId(m) == RequestId(n)
    ensures m == n
  {
    assert RequestId(m)[1..] == Decimal(m) && RequestId(n)[1..] == Decimal(n);
    DecimalInjective(m, n);
  }

  // ---------------------------------------------------------------- the invariant

  ghost function SettledIds(settled: seq<(string, Outcome)>): seq<string> {
    seq(|settled|, i requires 0 <= i < |settled| => settled[i].0)
  }

  ghost function IssuedIds(n: nat): set<string> {
    set k | 1 <= k <= n :: RequestId(k)
  }

  /** Issued requests are the disjoint union of pending and settled; each settles at most once. */
  ghost predicate Accounted(s: BridgeState) {
    var done := SettledIds(s.settled);
    && Distinct(done)
    && s.pending.Keys !! SetOf(done)
    && s.pending.Keys + SetOf(done) == IssuedIds(s.sequence)
  }

  /** Before the port there is only the queue; after it, the queue is gone for good. */
  ghost predicate Ordered(s: BridgeState) {
    && (s.port.None? ==> s.posted == [] && s.sequence == 0)
    && (s.port.Some? ==> s.queued == [])
  }

  ghost predicate Bounded(s: BridgeState) {
    && s.announced <= ANNOUNCE_ATTEMPTS + 1
    && s.announced <= s.attempts
    && (s.announced < s.attempts ==> !s.beating)
    && (s.port.None? && !s.beating ==> s.announced == ANNOUNCE_ATTEMPTS + 1)
  }

  ghost predicate Invariant(s: BridgeState) {
    Accounted(s) && Ordered(s) && Bounded(s)
  }

  lemma IssueAccounted(s: BridgeState, call: Call)
    requires Accounted(s)
    ensures
      var id := RequestId(s.sequence + 1);
      && id !in s.pending && id !in SetOf(SettledIds(s.settled))
      && Accounted(s.(sequence := s.sequence + 1, pending := s.pending[id := call]))
  {
    var n, id := s.sequence, RequestId(s.sequence + 1);
    if id in IssuedIds(n) {
      var k :| 1 <= k <= n && RequestId(k) == id;
      RequestIdInjective(k, n + 1);
    }
    assert IssuedIds(n + 1) == IssuedIds(n) + {id} by {
      forall x | x in IssuedIds(n + 1)
        ensures x in IssuedIds(n) + {id}
      {
        var k :| 1 <= k <= n + 1 && RequestId(k) == x;
      }
      assert RequestId(n + 1) in IssuedIds(n + 1);
    }
    var s' := s.(sequence := n + 1, pending := s.pending[id := call]);
    assert s'.pending.Keys == s.pending.Keys + {id};
  }

  lemma SettleAccounted(s: BridgeState, id: string, outcome: Outcome)
    requires Accounted(s) && id in s.pending
    ensures Accounted(s.(pending := s.pending - {id}, settled := s.settled + [(id, outcome)]))
  {
    var done := SettledIds(s.settled);
    assert SettledIds(s.settled + [(id, outcome)]) == done + [id];
    assert id !in SetOf(done);
    assert SetOf(done + [id]) == SetOf(done) + {id};
    assert (s.pending - {id}).Keys == s.pending.Keys - {id};
  }

  lemma StepKeepsInvariant(s: BridgeState, e: Event)
    requires Invariant(s)
    ensures Invariant(Step(s, e))
  {
    match e
    case OnPort(Response(id, ok, status, payload)) =>
      if id in s.pending {
        SettleAccounted(s, id, if ok then Resolved(payload) else Rejected(status, payload));
      }
    case Timeout(id) =>
      if id in s.pending {
        SettleAccounted(s, id, TimedOut(s.pending[id]));
      }
    case Resume(i) =>
      if i < |s.waiting| {
        IssueAccounted(s, s.waiting[i]);
      }
    case _ =>
  }

  /** After every run: requests are accounted for, nothing precedes the port, announcements are bounded. */
  lemma {:induction false} RunKeepsInvariant(events: seq<Event>)
    ensures Invariant(Run(events))
  {
    if events == [] {
      assert IssuedIds(0) == {};
      assert SetOf(SettledIds([])) == {};
    } else {
      RunKeepsInvariant(events[..|events| - 1]);
      StepKeepsInvariant(Run(events[..|events| - 1]), events[|events| - 1]);
    }
  }

  /** A port, once bound, is bound for good: no later init replaces it. */
  lemma {:induction false} PortBoundOnce(events: seq<Event>, n: nat)
    requires n <= |events| && Run(events[..n]).port.Some?
    ensures Run(events).port == Run(events[..n]).port
  {
    if n < |events| {
      var front, last := events[..|events| - 1], events[|events| - 1];
      assert events[..n] == front[..n];
      PortBoundOnce(front, n);
      StepKeepsPort(Run(front), last);
    } else {
      Whole(events);
    }
  }

  /** The port that an init message hands over, if it is one to accept. */
  function OfferedPort(e: Event): Option<Port> {
    match e
    case Window(WindowEvent(isInit, port, fromParent, version, theme)) =>
      if isInit && fromParent && version == 1 then port else None
    case _ => None
  }

  function FirstOffer(events: seq<Event>): Option<Port> {
    if events == [] then None
    else if FirstOffer(events[..|events| - 1]).Some? then FirstOffer(events[..|events| - 1])
    else OfferedPort(events[|events| - 1])
  }

  /**
   * Which port is bound: that of the first init message with a port, from the embedder and of
   * version 1. Whatever other frames send, or the embedder sends later, is ignored.
   */
  lemma {:induction false} PortIsFirstOffer(events: seq<Event>)
    ensures Run(events).port == FirstOffer(events)
  {
    if events != [] {
      PortIsFirstOffer(events[..|events| - 1]);
    }
  }

  /** The theme an event brings, to a surface that is bound or not. */
  function BroughtTheme(bound: bool, e: Event): Option<Theme> {
    match e
    case Window(w) => if !bound && OfferedPort(e).Some? then w.theme else None
    case OnPort(ThemeChange(theme)) => if bound then Some(theme) else None
    case _ => None
  }

  function LatestTheme(events: seq<Event>): Theme {
    if events == [] then map[]
    else
      var front := events[..|events| - 1];
      BroughtTheme(FirstOffer(front).Some?, events[|events| - 1]).GetOr(LatestTheme(front))
  }

  /** The theme is the latest one that came with the accepted init or over the port. */
  lemma {:induction false} ThemeIsLatest(events: seq<Event>)
    ensures Run(events).theme == LatestTheme(events)
  {
    if events != [] {
      var front := events[..|events| - 1];
      ThemeIsLatest(front);
      PortIsFirstOffer(front);
      PortIsFirstOffer(events);
    }
  }

  lemma StepKeepsPort(s: BridgeState, e: Event)
    requires s.port.Some?
    ensures Step(s, e).port == s.port
    ensures s.posted <= Step(s, e).posted
  {
  }

  /** A response or timeout for a request that has settled, or never was, changes nothing. */
  lemma LateAnswersIgnored(events: seq<Event>, id: string, ok: bool, status: int, payload: string)
    requires id in SettledIds(Run(events).settled) || id !in IssuedIds(Run(events).sequence)
    ensures Step(Run(events), OnPort(Response(id, ok, status, payload))) == Run(events)
    ensures Step(Run(events), Timeout(id)) == Run(events)
  {
    RunKeepsInvariant(events);
    assert id in SettledIds(Run(events).settled) ==> id in SetOf(SettledIds(Run(events).settled));
  }

  /** The host answered `id` with this outcome, or its time ran out. */
  ghost predicate Answers(e: Event, id: string, outcome: Outcome) {
    match e
    case OnPort(Response(answered, true, status, payload)) => answered == id && outcome == Resolved(payload)
    case OnPort(Response(answered, false, status, payload)) => answered == id && outcome == Rejected(status, payload)
    case Timeout(late) => late == id && outcome.Rejected? && outcome.status == 408
    case _ => false
  }

  /** The call that a step issues under `id`, if it does. */
  function CallIssued(s: BridgeState, e: Event, id: string): Option<Call> {
    if e.Resume? && s.port.Some? && e.i < |s.waiting| && RequestId(s.sequence + 1) == id then Some(s.waiting[e.i])
    else None
  }

  function IssuedCall(events: seq<Event>, id: string): Option<Call> {
    if events == [] then None
    else
      var front := events[..|events| - 1];
      IssuedCall(front, id).Or(CallIssued(Run(front), events[|events| - 1], id))
  }

  /** What an event says about the request `id`, which was issued for `call`. */
  function AnswerIn(e: Event, id: string, call: Call): Option<Outcome> {
    match e
    case OnPort(Response(answered, ok, status, payload)) =>
      if answered == id then Some(if ok then Resolved(payload) else Rejected(status, payload)) else None
    case Timeout(late) =>
      if late == id then Some(Rejected(408, "Multica did not answer " + call.verb + " " + call.path + " in time"))
      else None
    case _ => None
  }

  /** The first answer or timeout for `id` after it was issued. */
  function FirstAnswer(events: seq<Event>, id: string): Option<Outcome> {
    if events == [] then None
    else
      var front := events[..|events| - 1];
      if FirstAnswer(front, id).Some? then FirstAnswer(front, id)
      else if IssuedCall(front, id).None? then None
      else AnswerIn(events[|events| - 1], id, IssuedCall(front, id).value)
  }

  /** A request is pending from its issue to its first answer, and settled with that. */
  ghost predicate HasFate(s: BridgeState, id: string, call: Option<Call>, answer: Option<Outcome>) {
    && (id in s.pending <==> call.Some? && answer.None?)
    && (id in s.pending ==> s.pending[id] == call.value)
    && (forall o :: (id, o) in s.settled <==> answer == Some(o))
    && (s.port.None? ==> call.None?)
  }

  lemma SettledHere(s: BridgeState, id: string, o: Outcome)
    requires (id, o) in s.settled
    ensures id in SetOf(SettledIds(s.settled))
  {
    var k :| 0 <= k < |s.settled| && s.settled[k] == (id, o);
    assert SettledIds(s.settled)[k] == id;
  }

  lemma IssueIsNew(s: BridgeState, call: Option<Call>, answer: Option<Outcome>)
    requires Accounted(s) && HasFate(s, RequestId(s.sequence + 1), call, answer)
    ensures call.None? && answer.None?
  {
    var id := RequestId(s.sequence + 1);
    IssueAccounted(s, Call("", "", None));
    if answer.Some? {
      SettledHere(s, id, answer.value);
    }
  }

  ghost predicate NextFate(s: BridgeState, e: Event, id: string, call: Option<Call>, answer: Option<Outcome>) {
    HasFate(Step(s, e), id, call.Or(CallIssued(s, e, id)),
            if answer.Some? || call.None? then answer else AnswerIn(e, id, call.value))
  }

  lemma IssueFate(s: BridgeState, i: nat, id: string, call: Option<Call>, answer: Option<Outcome>)
    requires Accounted(s) && HasFate(s, id, call, answer)
    ensures NextFate(s, Resume(i), id, call, answer)
  {
    if CallIssued(s, Resume(i), id).Some? {
      IssueIsNew(s, call, answer);
    }
  }

  lemma AnswerFate(s: BridgeState, e: PortEvent, id: string, call: Option<Call>, answer: Option<Outcome>)
    requires HasFate(s, id, call, answer) && (answer.Some? ==> call.Some?)
    ensures NextFate(s, OnPort(e), id, call, answer)
  {
    if e.Response? {
      SettleMembers(s, OnPort(e), e.id);
    }
  }

  lemma TimeoutFate(s: BridgeState, late: string, id: string, call: Option<Call>, answer: Option<Outcome>)
    requires HasFate(s, id, call, answer) && (answer.Some? ==> call.Some?)
    ensures NextFate(s, Timeout(late), id, call, answer)
  {
    SettleMembers(s, Timeout(late), late);
  }

  lemma StepFate(s: BridgeState, e: Event, id: string, call: Option<Call>, answer: Option<Outcome>)
    requires Invariant(s) && HasFate(s, id, call, answer) && (answer.Some? ==> call.Some?)
    ensures NextFate(s, e, id, call, answer)
  {
    match e
    case OnPort(event) => AnswerFate(s, event, id, call, answer);
    case Timeout(late) => TimeoutFate(s, late, id, call, answer);
    case Resume(i) => IssueFate(s, i, id, call, answer);
    case _ =>
  }

  lemma SettleMembers(s: BridgeState, e: Event, id: string)
    ensures
      var t := Step(s, e);
      |t.settled| == |s.settled| + 1 && t.settled[..|s.settled|] == s.settled ==>
        forall x :: x in t.settled <==> x in s.settled || x == t.settled[|s.settled|]
  {
    var t := Step(s, e);
    if |t.settled| == |s.settled| + 1 && t.settled[..|s.settled|] == s.settled {
      LastSplit(t.settled);
    }
  }

  /**
   * Over every run, for every id: the request is pending exactly from its issue to its first
   * answer or timeout, and it settles with that one and no other.
   */
  lemma {:induction false} RequestFates(events: seq<Event>, id: string)
    ensures HasFate(Run(events), id, IssuedCall(events, id), FirstAnswer(events, id))
    ensures FirstAnswer(events, id).Some? ==> IssuedCall(events, id).Some?
  {
    if events != [] {
      var front, last := events[..|events| - 1], events[|events| - 1];
      RequestFates(front, id);
      RunKeepsInvariant(front);
      StepFate(Run(front), last, id, IssuedCall(front, id), FirstAnswer(front, id));
    }
  }

  /** No request settles without an answer or a timeout of its own. */
  lemma {:induction false} SettlementsAreCaused(events: seq<Event>, k: nat)
    requires k < |Run(events).settled|
    ensures exists n :: 0 <= n < |events| && Answers(events[n], Run(events).settled[k].0, Run(events).settled[k].1)
  {
    if events != [] {
      var front, last := events[..|events| - 1], events[|events| - 1];
      var before := Run(front).settled;
      if k < |before| {
        SettlementsAreCaused(front, k);
        var n :| 0 <= n < |front| && Answers(front[n], before[k].0, before[k].1);
        StepSettles(Run(front), last);
        assert events[n] == front[n];
      } else {
        StepSettles(Run(front), last);
        assert Answers(events[|events| - 1], Run(events).settled[k].0, Run(events).settled[k].1);
      }
    }
  }

  lemma StepSettles(s: BridgeState, e: Event)
    ensures
      var t := Step(s, e);
      || t.settled == s.settled
      || (|t.settled| == |s.settled| + 1 && t.settled[..|s.settled|] == s.settled
          && Answers(e, t.settled[|s.settled|].0, t.settled[|s.settled|].1))
  {
  }

  // ---------------------------------------------------------------- announcements

  /** How many beats came while there was no port. */
  function UnboundBeats(events: seq<Event>): nat {
    if events == [] then 0
    else
      var front := events[..|events| - 1];
      UnboundBeats(front) + (if events[|events| - 1].Beat? && Run(front).port.None? then 1 else 0)
  }

  /**
   * One announcement at once and one a beat, as long as there is no port, up to one more than
   * the limit says.
   */
  lemma {:induction false} AnnouncementsCounted(events: seq<Event>)
    ensures Run(events).announced == if UnboundBeats(events) < 50 then 1 + UnboundBeats(events) else 51
    ensures Run(events).announced > 50 <==> UnboundBeats(events) >= 50
  {
    if events != [] {
      AnnouncementsCounted(events[..|events| - 1]);
      RunKeepsInvariant(events[..|events| - 1]);
    }
  }

  /** A beat is followed by another exactly while there is no port and the limit is not used up. */
  lemma BeatsGoOnIff(events: seq<Event>)
    ensures Run(events + [Beat]).beating <==> FirstOffer(events) == None && UnboundBeats(events) < 50
  {
    LastOff(events, Beat);
    RunKeepsInvariant(events);
    AnnouncementsCounted(events);
    PortIsFirstOffer(events);
  }

  function Beats(n: nat): seq<Event> {
    seq(n, i => Beat)
  }

  lemma {:induction false} BeatsStayUnbound(n: nat)
    ensures Run(Beats(n)).port.None? && UnboundBeats(Beats(n)) == n
  {
    if n > 0 {
      BeatsStayUnbound(n - 1);
      assert Beats(n)[..n - 1] == Beats(n - 1);
    }
  }

  /** A host that never answers is called 51 times. */
  lemma SilentHostIsCalledOnceMore()
    ensures Run(Beats(50)).announced == 51
  {
    BeatsStayUnbound(50);
    AnnouncementsCounted(Beats(50));
  }

  /** Once bound, the surface never announces itself again. */
  lemma {:induction false} BoundStaysQuiet(events: seq<Event>, n: nat)
    requires n <= |events| && Run(events[..n]).port.Some?
    ensures Run(events).announced == Run(events[..n]).announced
  {
    if n < |events| {
      var front := events[..|events| - 1];
      assert events[..n] == front[..n];
      BoundStaysQuiet(front, n);
      PortBoundOnce(front, n);
    } else {
      Whole(events);
    }
  }

  // ---------------------------------------------------------------- order on the port

  /** Every notification of a run, in call order. */
  function Notified(events: seq<Event>): seq<Message> {
    if events == [] then []
    else
      var front, last := events[..|events| - 1], events[|events| - 1];
      Notified(front) + (if last.Notify? then [last.message] else [])
  }

  function NoticesOf(posted: seq<Sent>): seq<Message> {
    if posted == [] then []
    else
      var last := posted[|posted| - 1];
      NoticesOf(posted[..|posted| - 1]) + (if last.Notice? then [last.message] else [])
  }

  function IssuesOf(posted: seq<Sent>): seq<Message> {
    if posted == [] then []
    else
      var last := posted[|posted| - 1];
      IssuesOf(posted[..|posted| - 1]) + (if last.Issue? then [last.message] else [])
  }

  lemma {:induction false} NoticesOfNotices(ms: seq<Message>)
    ensures NoticesOf(Notices(ms)) == ms && IssuesOf(Notices(ms)) == []
  {
    if ms != [] {
      var front, all := ms[..|ms| - 1], Notices(ms);
      NoticesOfNotices(front);
      assert all[..|all| - 1] == Notices(front);
      assert ms == front + [ms[|ms| - 1]];
    }
  }

  lemma SentOne(posted: seq<Sent>, x: Sent)
    ensures NoticesOf(posted + [x]) == NoticesOf(posted) + (if x.Notice? then [x.message] else [])
    ensures IssuesOf(posted + [x]) == IssuesOf(posted) + (if x.Issue? then [x.message] else [])
  {
    assert (posted + [x])[..|posted|] == posted;
  }

  function NoticeIn(e: Event): seq<Message> {
    if e.Notify? then [e.message] else []
  }

  function IssueIn(s: BridgeState, e: Event): seq<Message> {
    if e.Resume? && s.port.Some? && e.i < |s.waiting| then [Action(RequestId(s.sequence + 1), s.waiting[e.i])] else []
  }

  ghost predicate Sends(s: BridgeState, e: Event, t: BridgeState) {
    && (t.port.None? ==> t.queued == s.queued + NoticeIn(e))
    && (s.port.None? && t.port.Some? ==> NoticesOf(t.posted) == s.queued && NoticeIn(e) == [])
    && (s.port.Some? ==> NoticesOf(t.posted) == NoticesOf(s.posted) + NoticeIn(e))
    && IssuesOf(t.posted) == IssuesOf(s.posted) + IssueIn(s, e)
    && t.sequence == s.sequence + |IssueIn(s, e)|
  }

  lemma QuietStep(s: BridgeState, e: Event)
    requires e.OnPort? || e.Request? || e.Timeout? || e.Beat?
    ensures var t := Step(s, e);
            t.port == s.port && t.queued == s.queued && t.posted == s.posted && t.sequence == s.sequence
  {
  }

  lemma ResumeSends(s: BridgeState, i: nat)
    ensures Sends(s, Resume(i), ResumeStep(s, i))
  {
    if s.port.Some? && i < |s.waiting| {
      SentOne(s.posted, Issue(Action(RequestId(s.sequence + 1), s.waiting[i])));
    }
  }

  lemma WindowSends(s: BridgeState, e: WindowEvent)
    requires Ordered(s)
    ensures Sends(s, Window(e), WindowStep(s, e))
  {
    NoticesOfNotices(s.queued);
    assert [] + Notices(s.queued) == Notices(s.queued);
  }

  lemma NotifySends(s: BridgeState, m: Message)
    requires Ordered(s)
    ensures Sends(s, Notify(m), NotifyStep(s, m))
  {
    SentOne(s.posted, Notice(m));
  }

  /** What one step adds to the queue and to the port. */
  lemma StepSends(s: BridgeState, e: Event)
    requires Ordered(s)
    ensures Sends(s, e, Step(s, e))
  {
    match e
    case Window(w) => WindowSends(s, w);
    case Notify(m) => NotifySends(s, m);
    case Resume(i) => ResumeSends(s, i);
    case _ => QuietStep(s, e);
  }

  /**
   * No notification is lost, repeated or overtaken by a later one: those of a run are queued,
   * all of them in call order, until the port is bound, and sent, all of them in call order,
   * from then on.
   */
  lemma {:induction false} NotificationsSentOnce(events: seq<Event>)
    ensures
      var s := Run(events);
      if s.port.None? then s.queued == Notified(events) else NoticesOf(s.posted) == Notified(events)
  {
    if events != [] {
      var front, last := events[..|events| - 1], events[|events| - 1];
      NotificationsSentOnce(front);
      RunKeepsInvariant(front);
      StepSends(Run(front), last);
    }
  }

  /** Requests leave numbered r1, r2, r3, … in the order they go out. */
  lemma {:induction false} RequestsNumberedInOrder(events: seq<Event>)
    ensures
      var issued := IssuesOf(Run(events).posted);
      && |issued| == Run(events).sequence
      && forall k :: 0 <= k < |issued| ==> issued[k].id == RequestId(k + 1)
  {
    if events != [] {
      var front, last := events[..|events| - 1], events[|events| - 1];
      RequestsNumberedInOrder(front);
      RunKeepsInvariant(front);
      StepSends(Run(front), last);
    }
  }

  /** What was notified before the port goes out first, ahead of everything else. */
  lemma {:induction false} EarlyNoticesGoFirst(events: seq<Event>, n: nat)
    requires n < |events| && Run(events[..n]).port.None? && Run(events[..n + 1]).port.Some?
    ensures Notices(Notified(events[..n])) <= Run(events).posted
  {
    if n + 1 == |events| {
      Whole(events);
      assert events[..n + 1][..n] == events[..n];
      NotificationsSentOnce(events[..n]);
      RunKeepsInvariant(events[..n]);
      BindingFlushes(Run(events[..n]), events[n]);
    } else {
      var front, last := events[..|events| - 1], events[|events| - 1];
      assert front[..n] == events[..n] && front[..n + 1] == events[..n + 1];
      EarlyNoticesGoFirst(front, n);
      PortBoundOnce(front, n + 1);
      StepKeepsPort(Run(front), last);
      PrefixTransitive(Notices(Notified(events[..n])), Run(front).posted, Step(Run(front), last).posted);
    }
  }

  lemma BindingFlushes(s: BridgeState, e: Event)
    requires Ordered(s) && s.port.None? && Step(s, e).port.Some?
    ensures Step(s, e).posted == Notices(s.queued)
  {
    assert [] + Notices(s.queued) == Notices(s.queued);
  }

  lemma PrefixTransitive<T>(a: seq<T>, b: seq<T>, c: seq<T>)
    requires a <= b && b <= c
    ensures a <= c
  {
  }

  // ---------------------------------------------------------------- calls

  function Calls(events: seq<Event>): multiset<Call> {
    if events == [] then multiset{}
    else
      var last := events[|events| - 1];
      Calls(events[..|events| - 1]) + CallOf(last)
  }

  function CallsIn(ms: seq<Message>): multiset<Call> {
    if ms == [] then multiset{}
    else
      var last := ms[|ms| - 1];
      CallsIn(ms[..|ms| - 1]) + (if last.Action? then multiset{last.call} else multiset{})
  }

  lemma {:induction false} CallsInConcat(a: seq<Message>, b: seq<Message>)
    ensures CallsIn(a + b) == CallsIn(a) + CallsIn(b)
  {
    if b == [] {
      assert a + b == a;
    } else {
      CallsInConcat(a, b[..|b| - 1]);
      LastOfConcat(a, b);
    }
  }

  function CallOf(e: Event): multiset<Call> {
    if e.Request? then multiset{e.call} else multiset{}
  }

  lemma RemoveOne<T>(s: seq<T>, i: nat)
    requires i < |s|
    ensures multiset(s[..i] + s[i + 1..]) + multiset{s[i]} == multiset(s)
  {
    assert s == s[..i] + [s[i]] + s[i + 1..];
  }

  lemma ResumeMovesCall(s: BridgeState, i: nat)
    ensures multiset(ResumeStep(s, i).waiting) + CallsIn(IssueIn(s, Resume(i))) == multiset(s.waiting)
  {
    if s.port.Some? && i < |s.waiting| {
      RemoveOne(s.waiting, i);
      assert IssueIn(s, Resume(i))[..0] == [];
    }
  }

  /** A step moves a call from the suspended callers to the port, or takes in a new one. */
  lemma StepMovesCall(s: BridgeState, e: Event)
    ensures multiset(Step(s, e).waiting) + CallsIn(IssueIn(s, e)) == multiset(s.waiting) + CallOf(e)
  {
    if e.Resume? {
      ResumeMovesCall(s, e.i);
    }
  }

  /** Suspended callers and issued requests, together. */
  ghost function Held(s: BridgeState): multiset<Call> {
    multiset(s.waiting) + CallsIn(IssuesOf(s.posted))
  }

  lemma MoveKeepsHeld(s: BridgeState, t: BridgeState, moved: seq<Message>, added: multiset<Call>)
    requires IssuesOf(t.posted) == IssuesOf(s.posted) + moved
    requires multiset(t.waiting) + CallsIn(moved) == multiset(s.waiting) + added
    ensures Held(t) == Held(s) + added
  {
    var before := IssuesOf(s.posted);
    CallsInConcat(before, moved);
    Shift(multiset(t.waiting), CallsIn(moved), multiset(s.waiting), added, CallsIn(before));
  }

  lemma Shift<T>(a: multiset<T>, moved: multiset<T>, b: multiset<T>, added: multiset<T>, c: multiset<T>)
    requires a + moved == b + added
    ensures a + (c + moved) == (b + c) + added
  {
    assert a + (c + moved) == (a + moved) + c;
    assert (b + added) + c == (b + c) + added;
  }

  lemma StepHolds(s: BridgeState, e: Event)
    requires Ordered(s)
    ensures Held(Step(s, e)) == Held(s) + CallOf(e)
  {
    StepSends(s, e);
    StepMovesCall(s, e);
    MoveKeepsHeld(s, Step(s, e), IssueIn(s, e), CallOf(e));
  }

  /** Every call made is still suspended or was issued exactly once, as it was made. */
  lemma {:induction false} CallsConserved(events: seq<Event>)
    ensures Calls(events) == Held(Run(events))
  {
    if events != [] {
      var front, last := events[..|events| - 1], events[|events| - 1];
      CallsConserved(front);
      RunKeepsInvariant(front);
      StepHolds(Run(front), last);
    }
  }

  // ---------------------------------------------------------------- suspended callers

  function CalledInOrder(events: seq<Event>): seq<Call> {
    if events == [] then []
    else
      var last := events[|events| - 1];
      CalledInOrder(events[..|events| - 1]) + (if last.Request? then [last.call] else [])
  }

  function IssuedInOrder(ms: seq<Message>): seq<Call> {
    if ms == [] then []
    else
      var last := ms[|ms| - 1];
      IssuedInOrder(ms[..|ms| - 1]) + (if last.Action? then [last.call] else [])
  }

  ghost predicate WithoutAt<T>(r: seq<T>, s: seq<T>, i: nat) {
    |r| == |s| - 1 && forall k :: 0 <= k < |r| ==> r[k] == s[if k < i then k else k + 1]
  }

  lemma TakeOut<T>(s: seq<T>, i: nat)
    requires i < |s|
    ensures WithoutAt(s[..i] + s[i + 1..], s, i)
  {
  }

  /** A continuing caller leaves the others in their order, and its call goes out last. */
  lemma ResumeTakesOne(events: seq<Event>, i: nat)
    requires Run(events).port.Some? && i < |Run(events).waiting|
    ensures
      var before, after := Run(events), Run(events + [Resume(i)]);
      && WithoutAt(after.waiting, before.waiting, i)
      && after.posted == before.posted + [Issue(Action(RequestId(before.sequence + 1), before.waiting[i]))]
  {
    LastOff(events, Resume(i));
    TakeOut(Run(events).waiting, i);
  }

  /** Callers continue in the order in which they were suspended, as promises do. */
  predicate FirstContinuesFirst(events: seq<Event>) {
    forall k :: 0 <= k < |events| && events[k].Resume? ==> events[k].i == 0
  }

  lemma FirstMoves(issued: seq<Message>, waiting: seq<Call>, m: Message)
    requires waiting != [] && m.Action? && m.call == waiting[0]
    ensures IssuedInOrder(issued + [m]) + waiting[1..] == IssuedInOrder(issued) + waiting
  {
    LastOff(issued, m);
    Associative(IssuedInOrder(issued), [waiting[0]], waiting[1..]);
    assert [waiting[0]] + waiting[1..] == waiting;
  }

  lemma FirstContinues(s: BridgeState)
    requires s.port.Some? && s.waiting != []
    ensures
      var t := ResumeStep(s, 0);
      IssuedInOrder(IssuesOf(t.posted)) + t.waiting == IssuedInOrder(IssuesOf(s.posted)) + s.waiting
  {
    var m := Action(RequestId(s.sequence + 1), s.waiting[0]);
    SentOne(s.posted, Issue(m));
    FirstMoves(IssuesOf(s.posted), s.waiting, m);
    NothingMore(s.waiting[1..]);
  }

  lemma OneContinues(s: BridgeState, e: Event)
    requires Ordered(s) && (e.Resume? ==> e.i == 0)
    ensures
      var t := Step(s, e);
      IssuedInOrder(IssuesOf(t.posted)) + t.waiting
      == IssuedInOrder(IssuesOf(s.posted)) + s.waiting + (if e.Request? then [e.call] else [])
  {
    NothingMore(IssuedInOrder(IssuesOf(s.posted)) + s.waiting);
    if e.Resume? {
      if s.port.Some? && s.waiting != [] {
        FirstContinues(s);
      }
    } else if e.Request? {
      Associative(IssuedInOrder(IssuesOf(s.posted)), s.waiting, [e.call]);
    } else {
      StepSends(s, e);
      NothingMore(IssuesOf(s.posted));
    }
  }

  /** Requests then go out in call order, and those still suspended are the latest. */
  lemma {:induction false} CallsGoOutInOrder(events: seq<Event>)
    requires FirstContinuesFirst(events)
    ensures IssuedInOrder(IssuesOf(Run(events).posted)) + Run(events).waiting == CalledInOrder(events)
  {
    if events != [] {
      var front, last := events[..|events| - 1], events[|events| - 1];
      CallsGoOutInOrder(front);
      RunKeepsInvariant(front);
      OneContinues(Run(front), last);
      NothingMore(CalledInOrder(front));
    }
  }

  // ---------------------------------------------------------------- what goes out for a request

  /** A request as it was called. */
  ghost predicate PostedAsCalled(events: seq<Event>, m: Message) {
    m.Action? && IssuedCall(events, m.id) == Some(m.call)
  }

  lemma StillPosted(events: seq<Event>, m: Message)
    requires events != [] && PostedAsCalled(events[..|events| - 1], m)
    ensures PostedAsCalled(events, m)
  {
  }

  lemma NewlyPosted(events: seq<Event>, m: Message)
    requires events != [] && m in IssueIn(Run(events[..|events| - 1]), events[|events| - 1])
    ensures PostedAsCalled(events, m)
  {
    var front, last := events[..|events| - 1], events[|events| - 1];
    RunKeepsInvariant(front);
    RequestFates(front, m.id);
    IssueIsNew(Run(front), IssuedCall(front, m.id), FirstAnswer(front, m.id));
  }

  /** Every request goes out under its id with the verb, path and body it was called with. */
  lemma {:induction false} RequestsPostedAsCalled(events: seq<Event>, m: Message)
    requires m in IssuesOf(Run(events).posted)
    ensures PostedAsCalled(events, m)
  {
    if events != [] {
      var front, last := events[..|events| - 1], events[|events| - 1];
      RunKeepsInvariant(front);
      StepSends(Run(front), last);
      if m in IssuesOf(Run(front).posted) {
        RequestsPostedAsCalled(front, m);
        StillPosted(events, m);
      } else {
        NewlyPosted(events, m);
      }
    }
  }
}
