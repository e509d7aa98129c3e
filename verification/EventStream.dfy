/**
 The event stream: one shared hub with a sequence counter and a lossy broadcast ring, and any
 number of websocket handlers, each with a receive cursor, a bounded outbound queue and a writer.

 Every atomic action of a publisher, a handler or a writer is one step; a run is any sequence of steps.
 Fields marked "history" are not kept by the program: they record what happened so far.
 */
module EventStream {
  import opened Basics

  // ---------------------------------------------------------------- envelopes and filters

  datatype Kind =
    | Snapshot | Runtime | Worker | Tool | Heartbeat
    | EscalationCreated | EscalationResponded | EscalationTimedOut | EscalationCancelled
    | SharedContextWritten | SharedContextExpired
    | SupervisorSteer | SupervisorConflictDetected | SupervisorEscalated | SupervisorPatternDetected
    | Triage

  datatype Severity = Debug | Info | Warn | Error

  datatype Body = Body(kind: Kind, severity: Severity, issue: Option<string>, event: string, payload: string)

  datatype Envelope = Envelope(sequence: U64, body: Body)

  /** An empty constraint admits everything; an issue constraint never admits an event without an issue. */
  datatype Filter = Filter(issues: set<string>, kinds: set<Kind>, severities: set<Severity>) {
    predicate Matches(event: Envelope) {
      (issues == {} || (event.body.issue.Some? && event.body.issue.value in issues))
      && (kinds == {} || event.body.kind in kinds)
      && (severities == {} || event.body.severity in severities)
    }
  }

  // ---------------------------------------------------------------- the hub

  datatype Owner = Broadcast | Private(client: nat)

  /** History of a sequence number handed out: the envelope made with it, and who made it. */
  datatype Issued = Issued(envelope: Envelope, owner: Owner)

  /**
   `counter` is the atomic; `issued` (history) has one entry per number handed out, and an index into
   it identifies an envelope. `pending` are numbers taken by publishers that have not sent yet.
   `log` is everything sent so far; the ring keeps its last `ring` entries.
   */
  datatype Hub = Hub(counter: U64, issued: seq<Issued>, pending: set<nat>, log: seq<nat>, closed: bool)

  /** `next_sequence`, and the envelope built with its result. */
  function Take(h: Hub, body: Body, owner: Owner): Hub {
    h.(counter := Wrap(h.counter + 1),
       issued := h.issued + [Issued(Envelope(Wrap(h.counter + 1), body), owner)])
  }

  // ---------------------------------------------------------------- one client

  datatype Config = Config(queueCapacity: nat, dropThreshold: nat, ring: nat)

  function Max1(n: nat): nat { if n >= 1 then n else 1 }

  datatype CloseReason = ClientClosed | Backpressure | ServerShutdown | ProtocolError

  /** `Event(id)` carries the envelope `issued[id]`. */
  datatype Message = Event(id: nat) | Pong(payload: string) | Close(reason: CloseReason)

  /** `Stopped`: the writer task has ended, so the channel is closed. */
  datatype Writer = Idle | Sending(message: Message) | Stopped

  /** Where the handler stands between two of its atomic actions. */
  datatype Phase =
    | Accepted | Connected | Subscribed | Opening(snapshot: nat)
    | Running | Beating(heartbeat: nat)
    | Ending(reason: CloseReason) | Draining | Done

  datatype Client = Client(
    filter: Filter,
    phase: Phase,
    cursor: nat,              // next position of the hub's log to receive
    queue: seq<Message>,
    writer: Writer,
    sent: nat,
    dropped: nat,
    subscribedAt: nat,        // history: length of the log when it subscribed
    enqueued: seq<Message>,   // history: everything put on the queue
    wire: seq<Message>,       // history: everything written to the socket
    lost: nat,                // history: exact number of messages counted as dropped
    tolerated: nat,           // history: events among them after which the handler went on
    owed: nat,                // of the messages lost, not yet added to the global counter
    broken: bool              // history: the writer failed or was aborted
  )

  function NewClient(filter: Filter): Client {
    Client(filter, Accepted, 0, [], Idle, 0, 0, 0, [], [], 0, 0, 0, false)
  }

  datatype SendResult = Accepts | Full | Closed

  function TrySend(cfg: Config, c: Client): SendResult {
    if c.writer.Stopped? then Closed
    else if |c.queue| >= Max1(cfg.queueCapacity) then Full
    else Accepts
  }

  function Put(c: Client, m: Message): Client {
    c.(queue := c.queue + [m], enqueued := c.enqueued + [m])
  }

  /** Counting `n` dropped messages: the handler's own count first, the global counter later. */
  function Lose(c: Client, n: nat): Client {
    c.(dropped := SaturatingAdd(c.dropped, n), lost := c.lost + n, owed := c.owed + n)
  }

  /** `enqueue_outbound`: whether the handler goes on. */
  function EnqueueEvent(cfg: Config, c: Client, id: nat): (Client, bool) {
    match TrySend(cfg, c)
    case Accepts => (Put(c, Event(id)), true)
    case Full => (Lose(c, 1), Lose(c, 1).dropped < Max1(cfg.dropThreshold))
    case Closed => (c, false)
  }

  /** `enqueue_pong`: a full queue always ends the connection. */
  function EnqueuePong(cfg: Config, c: Client, payload: string): (Client, bool) {
    match TrySend(cfg, c)
    case Accepts => (Put(c, Pong(payload)), true)
    case Full => (Lose(c, 1), false)
    case Closed => (c, false)
  }

  /** What one branch of the handler's `select!` finds. */
  datatype Stimulus =
    | GotClose | GotPing(payload: string) | GotOther | GotError
    | GotEvent(id: nat, matches: bool) | GotLag(skipped: nat) | GotHubClosed
    | Beat(id: nat)

  function Deliver(cfg: Config, c: Client, id: nat): Client {
    var (d, goOn) := EnqueueEvent(cfg, c, id);
    var more := if TrySend(cfg, c).Full? then 1 else 0;
    if goOn then d.(phase := Running, sent := SaturatingAdd(d.sent, 1), tolerated := c.tolerated + more)
    else d.(phase := Ending(Backpressure))
  }

  /** The body of the handler's loop. */
  function LoopBody(cfg: Config, c: Client, st: Stimulus): Client {
    match st
    case GotClose => c.(phase := Ending(ClientClosed))
    case GotPing(payload) =>
      var (d, goOn) := EnqueuePong(cfg, c, payload);
      if goOn then d else d.(phase := Ending(Backpressure))
    case GotOther => c
    case GotError => c.(phase := Ending(ProtocolError))
    case GotEvent(id, matches) =>
      var d := c.(cursor := c.cursor + 1);
      if matches then Deliver(cfg, d, id) else d
    case GotLag(skipped) =>
      var d := Lose(c.(cursor := c.cursor + skipped), skipped);
      if d.dropped >= cfg.dropThreshold then d.(phase := Ending(Backpressure)) else d
    case GotHubClosed => c.(phase := Ending(ServerShutdown))
    case Beat(id) => Deliver(cfg, c, id)
  }

  // ---------------------------------------------------------------- the whole system

  /** The atomics of the server state; each is a 64-bit counter. */
  datatype Counters = Counters(connected: U64, disconnected: U64, dropped: U64)

  /** Client ids are positions in `clients`. */
  datatype State = State(cfg: Config, hub: Hub, clients: seq<Client>, counters: Counters)

  function Init(cfg: Config): State {
    State(cfg, Hub(0, [], {}, [], false), [], Counters(0, 0, 0))
  }

  datatype Frame = CloseFrame | PingFrame(payload: string) | OtherFrame | BadFrame

  /** One atomic action of a handler or of its writer. */
  datatype Action =
    | Connect | Subscribe | TakeSnapshot(body: Body) | Open
    | Receive(frame: Frame) | ReceiveBroadcast | TakeHeartbeat(body: Body) | SendHeartbeat
    | AddDropped
    | QueueClose | CloseRefused | CloseTimedOut | Finish
    | WriterTakes | WriterSends | WriterFails | WriterDrains

  /** What the broadcast receiver returns: the next event, a lag when it was overwritten, or the end. */
  function Broadcasted(cfg: Config, h: Hub, c: Client): Option<Stimulus>
    requires c.cursor <= |h.log|
  {
    if c.cursor + Max1(cfg.ring) < |h.log| then Some(GotLag(|h.log| - Max1(cfg.ring) - c.cursor))
    else if c.cursor < |h.log| then
      var id := h.log[c.cursor];
      Some(GotEvent(id, id < |h.issued| && c.filter.Matches(h.issued[id].envelope)))
    else if h.closed then Some(GotHubClosed)
    else None
  }

  predicate Enabled(cfg: Config, h: Hub, c: Client, a: Action) {
    match a
    case Connect => c.phase.Accepted?
    case Subscribe => c.phase.Connected?
    case TakeSnapshot(body) => c.phase.Subscribed? && body.kind == Snapshot
    case Open => c.phase.Opening?
    case Receive(_) => c.phase.Running? && c.owed == 0
    case ReceiveBroadcast => c.phase.Running? && c.owed == 0 && c.cursor <= |h.log| && Broadcasted(cfg, h, c).Some?
    case TakeHeartbeat(body) => c.phase.Running? && c.owed == 0 && body.kind == Heartbeat
    case SendHeartbeat => c.phase.Beating?
    case AddDropped => c.owed > 0
    case QueueClose => c.phase.Ending? && c.owed == 0 && TrySend(cfg, c).Accepts?
    case CloseRefused => c.phase.Ending? && c.owed == 0 && c.writer.Stopped?
    case CloseTimedOut => c.phase.Ending? && c.owed == 0 && !c.writer.Stopped?
    case Finish => c.phase.Draining? && c.writer.Stopped?
    case WriterTakes => c.writer.Idle? && c.queue != []
    case WriterSends => c.writer.Sending?
    case WriterFails => c.writer.Sending?
    case WriterDrains => c.phase.Draining? && c.writer.Idle? && c.queue == []
  }

  /** How an enabled action changes the acting client. */
  function Act(cfg: Config, h: Hub, c: Client, a: Action): Client
    requires Enabled(cfg, h, c, a)
  {
    match a
    case Connect => c.(phase := Connected)
    case Subscribe => c.(phase := Subscribed, cursor := |h.log|, subscribedAt := |h.log|)
    case TakeSnapshot(_) => c.(phase := Opening(|h.issued|))
    case Open => Deliver(cfg, c, c.phase.snapshot)
    case Receive(CloseFrame) => LoopBody(cfg, c, GotClose)
    case Receive(PingFrame(payload)) => LoopBody(cfg, c, GotPing(payload))
    case Receive(OtherFrame) => LoopBody(cfg, c, GotOther)
    case Receive(BadFrame) => LoopBody(cfg, c, GotError)
    case ReceiveBroadcast => LoopBody(cfg, c, Broadcasted(cfg, h, c).value)
    case TakeHeartbeat(_) => c.(phase := Beating(|h.issued|))
    case SendHeartbeat => LoopBody(cfg, c, Beat(c.phase.heartbeat))
    case AddDropped => c.(owed := 0)
    case QueueClose => Put(c, Close(c.phase.reason)).(phase := Draining)
    case CloseRefused => c.(phase := Draining)
    case CloseTimedOut => c.(phase := Draining, writer := Stopped, broken := true)
    case Finish => c.(phase := Done)
    case WriterTakes => c.(writer := Sending(c.queue[0]), queue := c.queue[1..])
    case WriterSends =>
      c.(wire := c.wire + [c.writer.message], writer := if c.writer.message.Close? then Stopped else Idle)
    case WriterFails => c.(writer := Stopped, broken := true)
    case WriterDrains => c.(writer := Stopped)
  }

  function ActHub(h: Hub, i: nat, a: Action): Hub {
    match a
    case TakeSnapshot(body) => Take(h, body, Private(i))
    case TakeHeartbeat(body) => Take(h, body, Private(i))
    case _ => h
  }

  function ActCounters(k: Counters, c: Client, a: Action): Counters {
    match a
    case Connect => k.(connected := Wrap(k.connected + 1))
    case Finish => k.(disconnected := Wrap(k.disconnected + 1))
    case AddDropped => k.(dropped := Wrap(k.dropped + c.owed))
    case _ => k
  }

  /** `Publish` takes a number, `SendPending` sends what was made with it: publishing is not atomic. */
  datatype Step =
    | Arrive(filter: Filter) | Publish(body: Body) | SendPending(id: nat) | CloseHub
    | ClientStep(client: nat, action: Action)

  function Apply(s: State, step: Step): State {
    match step
    case Arrive(filter) => s.(clients := s.clients + [NewClient(filter)])
    case Publish(body) => s.(hub := Take(s.hub, body, Broadcast).(pending := s.hub.pending + {|s.hub.issued|}))
    case SendPending(id) =>
      if id in s.hub.pending && !s.hub.closed
      then s.(hub := s.hub.(pending := s.hub.pending - {id}, log := s.hub.log + [id]))
      else s
    case CloseHub => s.(hub := s.hub.(closed := true))
    case ClientStep(i, a) =>
      if i < |s.clients| && Enabled(s.cfg, s.hub, s.clients[i], a) then
        State(s.cfg, ActHub(s.hub, i, a), s.clients[i := Act(s.cfg, s.hub, s.clients[i], a)],
              ActCounters(s.counters, s.clients[i], a))
      else s
  }

  function Run(s: State, steps: seq<Step>): State {
    if steps == [] then s else Apply(Run(s, steps[..|steps| - 1]), steps[|steps| - 1])
  }
}
