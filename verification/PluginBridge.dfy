/**
 * packages/plugin-sdk/index.ts, class Bridge: one plugin surface talking to its host page over
 * a port it does not have yet. The class is the source's; `Step` says what each of its
 * callbacks does to the whole state, so that runs of any interleaving can be reasoned about.
 */
module PluginBridge {
  import opened Prelude

  const PROTOCOL_VERSION := 1
  const ANNOUNCE_ATTEMPTS := 50

  type Theme = map<string, string>
  type Port = nat

  datatype Call = Call(verb: string, path: string, body: Option<string>)

  datatype Message =
    | Action(id: string, call: Call)
    | Resize(id: string, height: int)

  datatype Outcome =
    | Resolved(data: string)
    | Rejected(status: int, error: string)

  /** What went out on the port: a notification, or a request issued by the bridge itself. */
  datatype Sent = Notice(message: Message) | Issue(message: Message)

  /** A window "message" event: does it carry the init type, a port, the embedder as source. */
  datatype WindowEvent = WindowEvent(
    isInit: bool, port: Option<Port>, fromParent: bool, version: int, theme: Option<Theme>)

  datatype PortEvent =
    | ThemeChange(theme: Theme)
    | Response(id: string, ok: bool, status: int, payload: string)
    | Unrecognised

  datatype BridgeState = BridgeState(
    port: Option<Port>,
    pending: map<string, Call>,
    queued: seq<Message>,
    sequence: nat,
    theme: Theme,
    /** Callers suspended on `await this.ready`. */
    waiting: seq<Call>,
    attempts: nat,
    /** A beat is due. */
    beating: bool,
    announced: nat,
    posted: seq<Sent>,
    settled: seq<(string, Outcome)>)

  function Digit(n: nat): char
    requires n < 10
  {
    ['0', '1', '2', '3', '4', '5', '6', '7', '8', '9'][n]
  }

  function Decimal(n: nat): string {
    if n < 10 then [Digit(n)] else Decimal(n / 10) + [Digit(n % 10)]
  }

  function RequestId(n: nat): string {
    "r" + Decimal(n)
  }

  function TimedOut(call: Call): Outcome {
    Rejected(408, "Multica did not answer " + call.verb + " " + call.path + " in time")
  }

  // ---------------------------------------------------------------- the steps

  datatype Event =
    | Window(window: WindowEvent)
    | OnPort(event: PortEvent)
    | Notify(message: Message)
    | Request(call: Call)
    /** The i-th suspended caller continues after the await. */
    | Resume(i: nat)
    | Timeout(id: string)
    | Beat

  predicate Accepts(e: WindowEvent) {
    e.isInit && e.port.Some? && e.fromParent && e.version == PROTOCOL_VERSION
  }

  function Notices(ms: seq<Message>): seq<Sent> {
    seq(|ms|, i requires 0 <= i < |ms| => Notice(ms[i]))
  }

  function BeatStep(s: BridgeState): BridgeState {
    if !s.beating then s
    else if s.port.Some? then s.(beating := false)
    else if s.attempts > ANNOUNCE_ATTEMPTS then s.(beating := false, attempts := s.attempts + 1)
    else s.(attempts := s.attempts + 1, announced := s.announced + 1)
  }

  function WindowStep(s: BridgeState, e: WindowEvent): BridgeState {
    if !Accepts(e) || s.port.Some? then s
    else s.(port := e.port, theme := e.theme.GetOr(s.theme), posted := s.posted + Notices(s.queued), queued := [])
  }

  function PortStep(s: BridgeState, e: PortEvent): BridgeState {
    if s.port.None? then s
    else match e
      case ThemeChange(theme) => s.(theme := theme)
      case Response(id, ok, status, payload) =>
        if id !in s.pending then s
        else s.(pending := s.pending - {id},
                settled := s.settled + [(id, if ok then Resolved(payload) else Rejected(status, payload))])
      case Unrecognised => s
  }

  function NotifyStep(s: BridgeState, m: Message): BridgeState {
    if s.port.Some? then s.(posted := s.posted + [Notice(m)]) else s.(queued := s.queued + [m])
  }

  function ResumeStep(s: BridgeState, i: nat): BridgeState {
    if s.port.None? || i >= |s.waiting| then s
    else
      var call, id := s.waiting[i], RequestId(s.sequence + 1);
      s.(waiting := s.waiting[..i] + s.waiting[i + 1..], sequence := s.sequence + 1,
         pending := s.pending[id := call], posted := s.posted + [Issue(Action(id, call))])
  }

  /** A timer only fires while its entry is pending: answering clears it. */
  function TimeoutStep(s: BridgeState, id: string): BridgeState {
    if id !in s.pending then s
    else s.(pending := s.pending - {id}, settled := s.settled + [(id, TimedOut(s.pending[id]))])
  }

  function Step(s: BridgeState, e: Event): BridgeState {
    match e
    case Window(event) => WindowStep(s, event)
    case OnPort(event) => PortStep(s, event)
    case Notify(message) => NotifyStep(s, message)
    case Request(call) => s.(waiting := s.waiting + [call])
    case Resume(i) => ResumeStep(s, i)
    case Timeout(id) => TimeoutStep(s, id)
    case Beat => BeatStep(s)
  }

  /** Listening, before the constructor announces for the first time. */
  const LISTENING := BridgeState(None, map[], [], 0, map[], [], 0, true, 0, [], [])

  const INITIAL := BeatStep(LISTENING)

  function Run(events: seq<Event>): BridgeState {
    if events == [] then INITIAL else Step(Run(events[..|events| - 1]), events[|events| - 1])
  }

  // ---------------------------------------------------------------- the class

  class Bridge {
    var port: Option<Port>
    var pending: map<string, Call>
    var queued: seq<Message>
    var sequence: nat
    var theme: Theme
    var waiting: seq<Call>
    var attempts: nat
    var beating: bool
    ghost var announced: nat
    ghost var posted: seq<Sent>
    ghost var settled: seq<(string, Outcome)>

    ghost function State(): BridgeState
      reads this
    {
      BridgeState(port, pending, queued, sequence, theme, waiting, attempts, beating, announced, posted, settled)
    }

    constructor ()
      ensures State() == INITIAL
    {
      port, pending, queued, sequence, theme := None, map[], [], 0, map[];
      waiting, attempts, beating := [], 0, true;
      announced, posted, settled := 0, [], [];
      new;
      OnBeat();
    }

    method OnBeat()
      modifies this
      ensures State() == BeatStep(old(State()))
    {
      if !beating {
        return;
      }
      if port.Some? {
        beating := false;
        return;
      }
      var spent := attempts;
      attempts := attempts + 1;
      if spent > ANNOUNCE_ATTEMPTS {
        beating := false;
        return;
      }
      announced := announced + 1;
    }

    method OnWindowMessage(event: WindowEvent)
      modifies this
      ensures State() == WindowStep(old(State()), event)
    {
      if !event.isInit || event.port.None? {
        return;
      }
      if !event.fromParent {
        return;
      }
      if port.Some? {
        return;
      }
      if event.version != PROTOCOL_VERSION {
        return;
      }
      port := event.port;
      if event.theme.Some? {
        theme := event.theme.value;
      }
      var flush := queued;
      queued := [];
      ghost var before := posted;
      for i := 0 to |flush|
        invariant posted == before + Notices(flush[..i])
        invariant State() == old(State()).(
          port := event.port, theme := event.theme.GetOr(old(theme)), queued := [], posted := posted)
      {
        assert Notices(flush[..i + 1]) == Notices(flush[..i]) + [Notice(flush[i])];
        posted := posted + [Notice(flush[i])];
      }
      assert flush[..|flush|] == flush;
    }

    method OnPortMessage(event: PortEvent)
      requires port.Some?
      modifies this
      ensures State() == PortStep(old(State()), event)
    {
      match event
      case ThemeChange(t) =>
        theme := t;
      case Response(id, ok, status, payload) =>
        if id !in pending {
          return;
        }
        pending := pending - {id};
        settled := settled + [(id, if ok then Resolved(payload) else Rejected(status, payload))];
      case Unrecognised =>
    }

    method Send(request: Message)
      modifies this
      ensures State() == NotifyStep(old(State()), request)
    {
      if port.Some? {
        posted := posted + [Notice(request)];
      } else {
        queued := queued + [request];
      }
    }

    /** The first half of `request`: suspended on the ready promise. */
    method StartRequest(call: Call)
      modifies this
      ensures State() == Step(old(State()), Request(call))
    {
      waiting := waiting + [call];
    }

    /** The rest of `request`, once the promise has resolved. */
    method ContinueRequest(i: nat)
      requires port.Some? && i < |waiting|
      modifies this
      ensures State() == ResumeStep(old(State()), i)
    {
      var call := waiting[i];
      waiting := waiting[..i] + waiting[i + 1..];
      sequence := sequence + 1;
      var id := RequestId(sequence);
      pending := pending[id := call];
      posted := posted + [Issue(Action(id, call))];
    }

    method OnTimeout(id: string)
      requires id in pending
      modifies this
      ensures State() == TimeoutStep(old(State()), id)
    {
      settled := settled + [(id, TimedOut(pending[id]))];
      pending := pending - {id};
    }
  }
}
