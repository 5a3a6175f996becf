/**
 * packages/core/api/ws-client.ts, class WSClient: one socket at a time, reconnecting with
 * bounded backoff. Sockets and timers that can still call back are ghost fields, since they
 * belong to the browser.
 */
module WsClient {
  import opened Prelude

  const BASE_DELAY_MS := 1000
  const MAX_DELAY_MS := 30000

  type Id = nat

  /** Math.random() */
  type Random = u: real | 0.0 <= u < 1.0 witness 0.0

  datatype WsState = WsState(
    ws: Option<Id>,
    reconnectTimer: Option<Id>,
    reconnectAttempt: nat,
    hasConnectedBefore: bool,
    cookieAuth: bool,
    token: Option<string>,
    callbacks: set<Id>,
    /** Sockets that can still deliver an event, and timers that can still fire. */
    live: set<Id>,
    armed: set<Id>,
    nextId: Id,
    /** Every scheduled reconnection: the attempt it followed and its delay. */
    scheduled: seq<(nat, int)>,
    /** For every recovered connection, the callbacks that ran. */
    recovered: seq<set<Id>>)

  // ---------------------------------------------------------------- backoff

  function Pow2(n: nat): nat {
    if n == 0 then 1 else 2 * Pow2(n - 1)
  }

  function BaseDelay(attempt: nat): nat {
    if BASE_DELAY_MS * Pow2(attempt) < MAX_DELAY_MS then BASE_DELAY_MS * Pow2(attempt) else MAX_DELAY_MS
  }

  /** Math.round on a non-negative number. */
  function Round(x: real): int {
    (x + 0.5).Floor
  }

  /** base + jitter */
  function Jittered(base: real, random: Random): real {
    base + base * 0.2 * (random * 2.0 - 1.0)
  }

  function ReconnectDelay(attempt: nat, random: Random): int {
    var delay := Jittered(BaseDelay(attempt) as real, random);
    Round(if delay < MAX_DELAY_MS as real then delay else MAX_DELAY_MS as real)
  }

  /** Before the last rounding the delay is between 80% and 120% of the base, and capped. */
  lemma JitterBounds(base: real, random: Random)
    requires base >= 0.0
    ensures 0.8 * base <= Jittered(base, random) <= 1.2 * base
  {
    var swing := random * 2.0 - 1.0;
    ScaleBetween(base * 0.2, swing);
  }

  lemma ScaleBetween(x: real, r: real)
    requires x >= 0.0 && -1.0 <= r <= 1.0
    ensures -x <= x * r <= x
  {
    assert x * (1.0 - r) >= 0.0;
    assert x * (1.0 + r) >= 0.0;
  }

  lemma RoundBetween(x: real, lo: int, hi: int)
    requires lo as real <= x <= hi as real
    ensures lo <= Round(x) <= hi
  {
  }

  /** The bases are multiples of five, so their 80% is whole and survives rounding. */
  lemma BaseIsWhole(attempt: nat)
    ensures BaseDelay(attempt) % 5 == 0
  {
    assert BASE_DELAY_MS * Pow2(attempt) == 5 * (200 * Pow2(attempt));
  }

  lemma FifthBounds(b: nat, fifth: nat, x: real)
    requires b == 5 * fifth && 0.8 * b as real <= x <= 1.2 * b as real
    ensures (4 * fifth) as real <= x <= (6 * fifth) as real
  {
    assert b as real == 5.0 * fifth as real;
    assert 0.8 * (5.0 * fifth as real) == 4.0 * fifth as real;
    assert 1.2 * (5.0 * fifth as real) == 6.0 * fifth as real;
  }

  lemma CappedRound(b: nat, x: real)
    requires b % 5 == 0 && 0.8 * b as real <= x <= 1.2 * b as real && b <= MAX_DELAY_MS
    ensures
      var r := Round(if x < MAX_DELAY_MS as real then x else MAX_DELAY_MS as real);
      b * 4 / 5 <= r && r <= b * 6 / 5 && r <= MAX_DELAY_MS
  {
    var fifth := b / 5;
    FifthBounds(b, fifth, x);
    var capped := if x < MAX_DELAY_MS as real then x else MAX_DELAY_MS as real;
    RoundBetween(capped, 4 * fifth, if 6 * fifth < MAX_DELAY_MS then 6 * fifth else MAX_DELAY_MS);
  }

  /** The n-th delay, rounding and jitter included: at least 80% of the base, at most 120% of it and 30 s. */
  lemma DelayBounds(attempt: nat, random: Random)
    ensures BaseDelay(attempt) * 4 / 5 <= ReconnectDelay(attempt, random)
    ensures ReconnectDelay(attempt, random) <= 30000
    ensures ReconnectDelay(attempt, random) <= BaseDelay(attempt) * 6 / 5
  {
    BaseIsWhole(attempt);
    JitterBounds(BaseDelay(attempt) as real, random);
    CappedRound(BaseDelay(attempt), Jittered(BaseDelay(attempt) as real, random));
  }

  /** The base doubles from one second up to thirty. */
  lemma BaseDoubles(attempt: nat)
    ensures BaseDelay(0) == 1000
    ensures BaseDelay(attempt + 1) == if BaseDelay(attempt) < 15000 then 2 * BaseDelay(attempt) else 30000
  {
    assert Pow2(attempt + 1) == 2 * Pow2(attempt);
  }

  lemma SwingIs(base: real, random: Random)
    ensures Jittered(base, random) == base * (0.8 + 0.4 * random)
  {
    assert base * 0.2 * (random * 2.0 - 1.0) == base * (0.4 * random - 0.2);
    assert base * (0.8 + 0.4 * random) == base + base * (0.4 * random - 0.2);
  }

  lemma RoundIsNearest(x: real)
    ensures x - 0.5 < Round(x) as real <= x + 0.5
  {
  }

  /** The delay itself: the base moved by at most a fifth either way, capped, to the nearest millisecond. */
  lemma DelayIsNearest(attempt: nat, random: Random)
    ensures
      var x := BaseDelay(attempt) as real * (0.8 + 0.4 * random);
      var capped := if x < 30000.0 then x else 30000.0;
      capped - 0.5 < ReconnectDelay(attempt, random) as real <= capped + 0.5
  {
    SwingIs(BaseDelay(attempt) as real, random);
    var x := Jittered(BaseDelay(attempt) as real, random);
    RoundIsNearest(if x < 30000.0 then x else 30000.0);
  }

  // ---------------------------------------------------------------- the steps

  datatype Event =
    | SetAuth(token: Option<string>)
    | Connect
    | Disconnect
    | Opened(socket: Id)
    | AuthAck(socket: Id)
    | Closed(socket: Id, random: Random)
    | TimerFires(timer: Id)
    | OnReconnect(callback: Id)
    | OffReconnect(callback: Id)

  function ConnectStep(s: WsState): WsState {
    s.(ws := Some(s.nextId), live := s.live + {s.nextId}, nextId := s.nextId + 1)
  }

  function AuthenticatedStep(s: WsState): WsState {
    s.(reconnectAttempt := 0, hasConnectedBefore := true,
       recovered := s.recovered + (if s.hasConnectedBefore || s.reconnectAttempt > 0 then [s.callbacks] else []))
  }

  function OpenedStep(s: WsState): WsState {
    if !s.cookieAuth && Truthy(s.token) then s else AuthenticatedStep(s)
  }

  function ScheduleStep(s: WsState, random: Random): WsState {
    s.(reconnectAttempt := s.reconnectAttempt + 1, reconnectTimer := Some(s.nextId),
       armed := s.armed + {s.nextId}, nextId := s.nextId + 1,
       scheduled := s.scheduled + [(s.reconnectAttempt, ReconnectDelay(s.reconnectAttempt, random))])
  }

  function DisconnectStep(s: WsState): WsState {
    s.(armed := if s.reconnectTimer.Some? then s.armed - {s.reconnectTimer.value} else s.armed,
       live := if s.ws.Some? then s.live - {s.ws.value} else s.live,
       reconnectTimer := None, ws := None, hasConnectedBefore := false, reconnectAttempt := 0, callbacks := {})
  }

  /** Sockets and timers only call back while they are live. */
  function Step(s: WsState, e: Event): WsState {
    match e
    case SetAuth(token) => s.(token := token)
    case Connect => ConnectStep(s)
    case Disconnect => DisconnectStep(s)
    case Opened(socket) => if socket in s.live then OpenedStep(s) else s
    case AuthAck(socket) => if socket in s.live then AuthenticatedStep(s) else s
    case Closed(socket, random) => if socket in s.live then ScheduleStep(s.(live := s.live - {socket}), random) else s
    case TimerFires(timer) => if timer in s.armed then ConnectStep(s.(armed := s.armed - {timer})) else s
    case OnReconnect(callback) => s.(callbacks := s.callbacks + {callback})
    case OffReconnect(callback) => s.(callbacks := s.callbacks - {callback})
  }

  function Fresh(cookieAuth: bool): WsState {
    WsState(None, None, 0, false, cookieAuth, None, {}, {}, {}, 0, [], [])
  }

  function Run(start: WsState, events: seq<Event>): WsState {
    if events == [] then start else Step(Run(start, events[..|events| - 1]), events[|events| - 1])
  }

  // ---------------------------------------------------------------- the class

  class WSClient {
    var ws: Option<Id>
    var reconnectTimer: Option<Id>
    var reconnectAttempt: nat
    var hasConnectedBefore: bool
    var cookieAuth: bool
    var token: Option<string>
    var callbacks: set<Id>
    ghost var live: set<Id>
    ghost var armed: set<Id>
    var nextId: Id
    ghost var scheduled: seq<(nat, int)>
    ghost var recovered: seq<set<Id>>

    ghost function State(): WsState
      reads this
    {
      WsState(ws, reconnectTimer, reconnectAttempt, hasConnectedBefore, cookieAuth, token, callbacks,
              live, armed, nextId, scheduled, recovered)
    }

    constructor (cookieAuth: bool)
      ensures State() == Fresh(cookieAuth)
    {
      ws, reconnectTimer, reconnectAttempt, hasConnectedBefore := None, None, 0, false;
      this.cookieAuth, token := cookieAuth, None;
      callbacks, live, armed, nextId, scheduled, recovered := {}, {}, {}, 0, [], [];
    }

    method DoSetAuth(token: Option<string>)
      modifies this
      ensures State() == Step(old(State()), SetAuth(token))
    {
      this.token := token;
    }

    method DoConnect()
      modifies this
      ensures State() == ConnectStep(old(State()))
    {
      ws := Some(nextId);
      live := live + {nextId};
      nextId := nextId + 1;
    }

    method OnOpen(socket: Id)
      requires socket in live
      modifies this
      ensures State() == Step(old(State()), Opened(socket))
    {
      if !cookieAuth && Truthy(token) {
        return;
      }
      OnAuthenticated();
    }

    method OnAuthenticated()
      modifies this
      ensures State() == AuthenticatedStep(old(State()))
    {
      var recoveredConnection := hasConnectedBefore || reconnectAttempt > 0;
      reconnectAttempt := 0;
      if recoveredConnection {
        recovered := recovered + [callbacks];
      }
      hasConnectedBefore := true;
    }

    method OnClose(socket: Id, random: Random)
      requires socket in live
      modifies this
      ensures State() == Step(old(State()), Closed(socket, random))
    {
      live := live - {socket};
      ScheduleReconnect(random);
    }

    method ScheduleReconnect(random: Random)
      modifies this
      ensures State() == ScheduleStep(old(State()), random)
    {
      ghost var delay := ReconnectDelay(reconnectAttempt, random);
      scheduled := scheduled + [(reconnectAttempt, delay)];
      reconnectAttempt := reconnectAttempt + 1;
      armed := armed + {nextId};
      reconnectTimer := Some(nextId);
      nextId := nextId + 1;
    }

    method OnTimer(timer: Id)
      requires timer in armed
      modifies this
      ensures State() == Step(old(State()), TimerFires(timer))
    {
      armed := armed - {timer};
      DoConnect();
    }

    method DoDisconnect()
      modifies this
      ensures State() == DisconnectStep(old(State()))
    {
      if reconnectTimer.Some? {
        armed := armed - {reconnectTimer.value};
        reconnectTimer := None;
      }
      if ws.Some? {
        live := live - {ws.value};
        ws := None;
      }
      hasConnectedBefore := false;
      reconnectAttempt := 0;
      callbacks := {};
    }
  }

  // ---------------------------------------------------------------- one link per epoch

  /** Between a connect and the next disconnect. */
  predicate InEpoch(events: seq<Event>) {
    events != [] &&
    (events[|events| - 1].Connect? || (!events[|events| - 1].Disconnect? && InEpoch(events[..|events| - 1])))
  }

  /** connect() is called once per epoch. */
  predicate Disciplined(events: seq<Event>) {
    forall k :: 0 <= k < |events| && events[k].Connect? ==> !InEpoch(events[..k])
  }

  function Links(s: WsState): nat {
    |s.live| + |s.armed|
  }

  ghost predicate FreshIds(s: WsState) {
    forall x :: x in s.live || x in s.armed ==> x < s.nextId
  }

  /** In an epoch, the client's own socket or its own timer, never both; outside, neither. */
  ghost predicate OneLink(s: WsState, inEpoch: bool) {
    if inEpoch then
      (s.ws.Some? && s.live == {s.ws.value} && s.armed == {})
      || (s.reconnectTimer.Some? && s.live == {} && s.armed == {s.reconnectTimer.value})
    else s.live == {} && s.armed == {}
  }

  lemma StepKeepsFresh(s: WsState, e: Event)
    requires FreshIds(s)
    ensures FreshIds(Step(s, e))
  {
  }

  lemma {:induction false} RunKeepsFresh(start: WsState, events: seq<Event>)
    requires FreshIds(start)
    ensures FreshIds(Run(start, events))
  {
    if events != [] {
      RunKeepsFresh(start, events[..|events| - 1]);
      StepKeepsFresh(Run(start, events[..|events| - 1]), events[|events| - 1]);
    }
  }

  lemma StepKeepsOneLink(s: WsState, e: Event, inEpoch: bool)
    requires OneLink(s, inEpoch) && FreshIds(s) && (e.Connect? ==> !inEpoch)
    ensures OneLink(Step(s, e), e.Connect? || (!e.Disconnect? && inEpoch))
  {
  }

  lemma {:induction false} DisciplinedRunsKeepOneLink(start: WsState, events: seq<Event>)
    requires OneLink(start, false) && FreshIds(start) && Disciplined(events)
    ensures OneLink(Run(start, events), InEpoch(events))
  {
    if events != [] {
      var front, last := events[..|events| - 1], events[|events| - 1];
      assert forall k :: 0 <= k < |front| ==> events[..k] == front[..k];
      DisciplinedRunsKeepOneLink(start, front);
      RunKeepsFresh(start, front);
      StepKeepsOneLink(Run(start, front), last, InEpoch(front));
    }
  }

  /** How many links a disconnect closes: its own timer and its own socket. */
  function OwnLinks(s: WsState): nat {
    (if s.reconnectTimer.Some? && s.reconnectTimer.value in s.armed then 1 else 0)
    + (if s.ws.Some? && s.ws.value in s.live then 1 else 0)
  }

  /**
   * Links over every run, whatever the discipline: connecting adds one, a close or a firing
   * timer trades one for another, and a disconnect closes the client's own and leaves the rest.
   */
  lemma LinksTraded(start: WsState, events: seq<Event>, e: Event)
    requires FreshIds(start)
    ensures
      var before, after := Run(start, events), Run(start, events + [e]);
      Links(after) == if e.Connect? then Links(before) + 1
                      else if e.Disconnect? then Links(before) - OwnLinks(before)
                      else Links(before)
  {
    LastOff(events, e);
    RunKeepsFresh(start, events);
  }

  lemma OneLinkCounts(s: WsState, inEpoch: bool)
    requires OneLink(s, inEpoch)
    ensures Links(s) == if inEpoch then 1 else 0
  {
  }

  /**
   * Exactly one live socket or pending timer throughout every epoch, and none outside, if and
   * only if connect() is called once per epoch.
   */
  lemma OneLinkIffDisciplined(start: WsState, events: seq<Event>)
    requires OneLink(start, false) && FreshIds(start)
    ensures (forall n :: 0 <= n <= |events| ==>
               Links(Run(start, events[..n])) == if InEpoch(events[..n]) then 1 else 0) <==> Disciplined(events)
  {
    if Disciplined(events) {
      forall n | 0 <= n <= |events|
        ensures Links(Run(start, events[..n])) == if InEpoch(events[..n]) then 1 else 0
      {
        assert forall k :: 0 <= k < n ==> events[..n][..k] == events[..k];
        DisciplinedRunsKeepOneLink(start, events[..n]);
        OneLinkCounts(Run(start, events[..n]), InEpoch(events[..n]));
      }
    } else {
      var k :| 0 <= k < |events| && events[k].Connect? && InEpoch(events[..k]);
      var s := Run(start, events[..k]);
      assert events[..k + 1][..k] == events[..k];
      RunKeepsFresh(start, events[..k]);
      assert Links(ConnectStep(s)) == Links(s) + 1;
      assert InEpoch(events[..k + 1]);
      assert Run(start, events[..k + 1]) == ConnectStep(s);
    }
  }

  // ---------------------------------------------------------------- attempts and recoveries

  predicate Authenticates(s: WsState, e: Event) {
    || (e.AuthAck? && e.socket in s.live)
    || (e.Opened? && e.socket in s.live && !(!s.cookieAuth && Truthy(s.token)))
  }

  predicate Closes(s: WsState, e: Event) {
    e.Closed? && e.socket in s.live
  }

  /** Closes since the last authentication or disconnect. */
  function ClosesSinceAuth(start: WsState, events: seq<Event>): nat {
    if events == [] then 0
    else
      var front, last := events[..|events| - 1], events[|events| - 1];
      if last.Disconnect? || Authenticates(Run(start, front), last) then 0
      else ClosesSinceAuth(start, front) + (if Closes(Run(start, front), last) then 1 else 0)
  }

  /** Has anything closed or authenticated since the last disconnect? */
  predicate HasHistory(start: WsState, events: seq<Event>) {
    events != [] &&
    var front, last := events[..|events| - 1], events[|events| - 1];
    !last.Disconnect? &&
    (Authenticates(Run(start, front), last) || Closes(Run(start, front), last) || HasHistory(start, front))
  }

  /** What one step does to the two recovery fields. */
  lemma StepRecords(s: WsState, e: Event)
    ensures
      var t := Step(s, e);
      if e.Disconnect? then t.reconnectAttempt == 0 && !t.hasConnectedBefore
      else if Authenticates(s, e) then t.reconnectAttempt == 0 && t.hasConnectedBefore
      else t.reconnectAttempt == s.reconnectAttempt + (if Closes(s, e) then 1 else 0)
           && t.hasConnectedBefore == s.hasConnectedBefore
  {
  }

  lemma {:induction false} AttemptCountsCloses(start: WsState, events: seq<Event>)
    requires start.reconnectAttempt == 0 && !start.hasConnectedBefore
    ensures Run(start, events).reconnectAttempt == ClosesSinceAuth(start, events)
    ensures Run(start, events).hasConnectedBefore || Run(start, events).reconnectAttempt > 0
       <==> HasHistory(start, events)
  {
    if events != [] {
      AttemptCountsCloses(start, events[..|events| - 1]);
      StepRecords(Run(start, events[..|events| - 1]), events[|events| - 1]);
    }
  }

  /** The reconnect callbacks run on an authentication exactly when a close or authentication came before it. */
  lemma RecoversIffHistory(start: WsState, events: seq<Event>, e: Event)
    requires start.reconnectAttempt == 0 && !start.hasConnectedBefore
    ensures
      var before, after := Run(start, events), Run(start, events + [e]);
      after.recovered == before.recovered +
        (if Authenticates(before, e) && HasHistory(start, events) then [before.callbacks] else [])
  {
    AttemptCountsCloses(start, events);
    assert (events + [e])[..|events|] == events;
    assert Run(start, events).recovered + [] == Run(start, events).recovered;
  }

  /** Each close schedules one reconnection, after the closes since the last authentication; nothing else does. */
  lemma CloseSchedules(start: WsState, events: seq<Event>, e: Event)
    requires start.reconnectAttempt == 0 && !start.hasConnectedBefore
    ensures
      var before, after, n := Run(start, events), Run(start, events + [e]), ClosesSinceAuth(start, events);
      after.scheduled == before.scheduled + (if Closes(before, e) then [(n, ReconnectDelay(n, e.random))] else [])
  {
    AttemptCountsCloses(start, events);
    LastOff(events, e);
    NothingMore(Run(start, events).scheduled);
  }

  /** Is the callback registered, by the latest event that says so? */
  predicate Registered(events: seq<Event>, callback: Id) {
    events != [] &&
    var last := events[|events| - 1];
    (last == OnReconnect(callback)
     || (last != OffReconnect(callback) && !last.Disconnect? && Registered(events[..|events| - 1], callback)))
  }

  /** The callbacks that run are those registered and neither taken back nor dropped by a disconnect. */
  lemma {:induction false} CallbacksAreRegistered(start: WsState, events: seq<Event>, callback: Id)
    requires start.callbacks == {}
    ensures callback in Run(start, events).callbacks <==> Registered(events, callback)
  {
    if events != [] {
      CallbacksAreRegistered(start, events[..|events| - 1], callback);
    }
  }

  function LatestToken(events: seq<Event>): Option<string> {
    if events == [] then None
    else
      var last := events[|events| - 1];
      if last.SetAuth? then last.token else LatestToken(events[..|events| - 1])
  }

  /** The token is the one set last; nothing else touches it. */
  lemma {:induction false} TokenIsLatest(start: WsState, events: seq<Event>)
    requires start.token == None
    ensures Run(start, events).token == LatestToken(events)
  {
    if events != [] {
      TokenIsLatest(start, events[..|events| - 1]);
    }
  }

  /** A disconnect leaves the client as it was made, but for its token. */
  lemma DisconnectForgets(start: WsState, events: seq<Event>)
    ensures
      var r := Run(start, events + [Disconnect]);
      && r.ws == None && r.reconnectTimer == None && r.reconnectAttempt == 0 && !r.hasConnectedBefore
      && r.callbacks == {} && r.token == Run(start, events).token && r.scheduled == Run(start, events).scheduled
  {
    LastOff(events, Disconnect);
  }

  /** Every reconnection of every run was scheduled within its attempt's bounds. */
  lemma {:induction false} EveryDelayBounded(start: WsState, events: seq<Event>, k: nat)
    requires start.scheduled == [] && k < |Run(start, events).scheduled|
    ensures
      var (attempt, delay) := Run(start, events).scheduled[k];
      BaseDelay(attempt) * 4 / 5 <= delay && delay <= 30000 && delay <= BaseDelay(attempt) * 6 / 5
  {
    if events != [] {
      var front, last := events[..|events| - 1], events[|events| - 1];
      var before, after := Run(start, front), Run(start, events);
      if k < |before.scheduled| {
        EveryDelayBounded(start, front, k);
        assert after.scheduled[k] == before.scheduled[k];
      } else {
        DelayBounds(before.reconnectAttempt, last.random);
      }
    }
  }
}
