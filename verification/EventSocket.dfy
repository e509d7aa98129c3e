/**
 The hub and the websocket handler as the program runs them: fields updated in place and a loop over
 what the handler is woken by. Each method is tied to the functions of the transition system.
 */
module EventSocket {
  import opened Basics
  import opened EventStream
  import opened EventStreamProofs

  /** One use of the hub by another publisher or handler. */
  datatype HubUse = TakesNumber | SendsEnvelope(envelope: Envelope)

  function Numbers(uses: seq<HubUse>): nat {
    if uses == [] then 0 else Numbers(uses[..|uses| - 1]) + (if uses[|uses| - 1].TakesNumber? then 1 else 0)
  }

  function Sends(uses: seq<HubUse>): seq<Envelope> {
    if uses == [] then []
    else
      var last := uses[|uses| - 1];
      Sends(uses[..|uses| - 1]) + (if last.SendsEnvelope? then [last.envelope] else [])
  }

  /** The shared counter and channel. */
  class EventHub {
    var counter: U64
    var messages: seq<Envelope>

    constructor ()
      ensures counter == 0 && messages == []
    {
      counter, messages := 0, [];
    }

    method NextSequence() returns (n: U64)
      modifies this`counter
      ensures n == counter == Wrap(old(counter) + 1)
    {
      counter := Wrap(counter + 1);
      n := counter;
    }

    method Send(envelope: Envelope)
      modifies this`messages
      ensures messages == old(messages) + [envelope]
    {
      messages := messages + [envelope];
    }

    /** Others use the hub between the taking of the number and the sending. */
    method Publish(body: Body, meanwhile: seq<HubUse>) returns (envelope: Envelope)
      modifies this
      ensures envelope == Envelope(Wrap(old(counter) + 1), body)
      ensures counter == Wrap(old(counter) + 1 + Numbers(meanwhile))
      ensures messages == old(messages) + Sends(meanwhile) + [envelope]
    {
      var n := NextSequence();
      envelope := Envelope(n, body);
      for k := 0 to |meanwhile|
        invariant counter == Wrap(old(counter) + 1 + Numbers(meanwhile[..k]))
        invariant messages == old(messages) + Sends(meanwhile[..k])
      {
        assert meanwhile[..k + 1][..k] == meanwhile[..k];
        match meanwhile[k]
        case TakesNumber =>
          WrapSteps(old(counter) + 1 + Numbers(meanwhile[..k]), 1);
          var _ := NextSequence();
        case SendsEnvelope(other) => Send(other);
      }
      assert meanwhile[..|meanwhile|] == meanwhile;
      Send(envelope);
    }
  }

  /** The atomics shared by all handlers. */
  class ServerCounters {
    var dropped: U64

    constructor ()
      ensures dropped == 0
    {
      dropped := 0;
    }

    method IncrementDropped(delta: nat) returns (total: U64)
      modifies this
      ensures total == dropped == Wrap(old(dropped) + delta)
    {
      dropped := Wrap(dropped + delta);
      total := dropped;
    }
  }

  /** What wakes the handler, and what its writer and others do meanwhile. */
  datatype Turn =
    | Socket(frame: Frame) | Received(id: nat, envelope: Envelope) | Lagged(skipped: nat) | HubGone | Tick(id: nat)
    | WriterTook | WriterSent | WriterGone | DroppedElsewhere(count: nat) | Quiet

  predicate Wakes(t: Turn) { t.Socket? || t.Received? || t.Lagged? || t.HubGone? || t.Tick? }

  /** What a turn means for a handler with this filter. */
  function StimulusOf(filter: Filter, t: Turn): Stimulus
    requires Wakes(t)
  {
    match t
    case Socket(CloseFrame) => GotClose
    case Socket(PingFrame(payload)) => GotPing(payload)
    case Socket(OtherFrame) => GotOther
    case Socket(BadFrame) => GotError
    case Received(id, envelope) => GotEvent(id, filter.Matches(envelope))
    case Lagged(skipped) => GotLag(skipped)
    case HubGone => GotHubClosed
    case Tick(id) => Beat(id)
  }

  /** A handler, and the global count of drops. */
  datatype Local = Local(client: Client, dropped: U64)

  /** One turn of a running handler; losses are added to the global count at once. */
  function TakeTurn(cfg: Config, l: Local, t: Turn): Local {
    var c := l.client;
    match t
    case WriterTook =>
      if c.queue == [] || !c.writer.Idle? then l
      else l.(client := c.(writer := Sending(c.queue[0]), queue := c.queue[1..]))
    case WriterSent =>
      if !c.writer.Sending? then l
      else l.(client := c.(wire := c.wire + [c.writer.message],
                           writer := if c.writer.message.Close? then Stopped else Idle))
    case WriterGone => if !c.writer.Sending? then l else l.(client := c.(writer := Stopped, broken := true))
    case DroppedElsewhere(count) => l.(dropped := Wrap(l.dropped + count))
    case Quiet => l
    case _ =>
      var d := LoopBody(cfg, c, StimulusOf(c.filter, t));
      Local(d.(owed := 0), Wrap(l.dropped + d.owed))
  }

  lemma ReceivedIsDelivery(cfg: Config, l: Local, id: nat, envelope: Envelope)
    requires l.client.owed == 0
    ensures var d := l.client.(cursor := l.client.cursor + 1);
            TakeTurn(cfg, l, Received(id, envelope))
            == if d.filter.Matches(envelope)
               then Local(Deliver(cfg, d, id).(owed := 0), Wrap(l.dropped + Deliver(cfg, d, id).owed))
               else Local(d, l.dropped)
  {
    var d := l.client.(cursor := l.client.cursor + 1);
    EventIsDelivery(cfg, l.client, id, d.filter.Matches(envelope), d);
    assert d.(owed := 0) == d && Wrap(l.dropped + 0) == l.dropped;
  }

  // ---------------------------------------------------------------- turns are steps of the system

  /** What happens next to a running handler or elsewhere, its own actions in a turn taken together. */
  datatype Happening = FrameArrives(frame: Frame) | HubWakes | TimerFires(body: Body) | Elsewhere(step: Step)

  /** Elsewhere is everything but the handler's own actions; its writer is elsewhere, too. */
  ghost predicate Fits(i: nat, x: Happening) {
    && (x.TimerFires? ==> x.body.kind == Heartbeat)
    && (x.Elsewhere? && x.step.ClientStep? && x.step.client == i ==> ByWriter(x.step.action))
  }

  ghost function StepsOf(i: nat, x: Happening): seq<Step> {
    match x
    case FrameArrives(frame) => [ClientStep(i, Receive(frame)), ClientStep(i, AddDropped)]
    case HubWakes => [ClientStep(i, ReceiveBroadcast), ClientStep(i, AddDropped)]
    case TimerFires(body) =>
      [ClientStep(i, TakeHeartbeat(body)), ClientStep(i, SendHeartbeat), ClientStep(i, AddDropped)]
    case Elsewhere(step) => [step]
  }

  ghost function After(s: State, i: nat, happenings: seq<Happening>): State {
    if happenings == [] then s
    else Run(After(s, i, happenings[..|happenings| - 1]), StepsOf(i, happenings[|happenings| - 1]))
  }

  /** What the handler of client `i` sees of it: what the hub's log has for it, and what its writer does. */
  ghost function TurnOf(s: State, i: nat, x: Happening): Turn {
    if i >= |s.clients| then Quiet
    else match x
      case FrameArrives(frame) => Socket(frame)
      case HubWakes => HubTurn(s.cfg, s.hub, s.clients[i])
      case TimerFires(_) => Tick(|s.hub.issued|)
      case Elsewhere(step) => ElsewhereTurn(s, i, step)
  }

  ghost function HubTurn(cfg: Config, h: Hub, c: Client): Turn {
    if c.cursor > |h.log| then Quiet
    else match Broadcasted(cfg, h, c)
      case Some(GotEvent(id, _)) => if id < |h.issued| then Received(id, h.issued[id].envelope) else Quiet
      case Some(GotLag(skipped)) => Lagged(skipped)
      case Some(GotHubClosed) => HubGone
      case _ => Quiet
  }

  ghost function ElsewhereTurn(s: State, i: nat, step: Step): Turn {
    if !step.ClientStep? || step.client >= |s.clients| then Quiet
    else if !Enabled(s.cfg, s.hub, s.clients[step.client], step.action) then Quiet
    else match step.action
      case WriterTakes => if step.client == i then WriterTook else Quiet
      case WriterSends => if step.client == i then WriterSent else Quiet
      case WriterFails => if step.client == i then WriterGone else Quiet
      case AddDropped => DroppedElsewhere(s.clients[step.client].owed)
      case _ => Quiet
  }

  ghost function TurnAt(start: State, i: nat, happenings: seq<Happening>, k: nat): Turn
    requires k < |happenings|
  {
    TurnOf(After(start, i, happenings[..k]), i, happenings[k])
  }

  ghost predicate Mirrors(s: State, i: nat, l: Local) {
    i < |s.clients| && s.clients[i] == l.client && l.client.owed == 0 && s.counters.dropped == l.dropped
  }

  lemma AfterOneMore(start: State, i: nat, happenings: seq<Happening>, n: nat)
    requires n < |happenings|
    ensures After(start, i, happenings[..n + 1]) == Run(After(start, i, happenings[..n]), StepsOf(i, happenings[n]))
  {
    assert happenings[..n + 1][..n] == happenings[..n];
  }

  /** Adding what is owed to the global count, if anything is. */
  lemma PaysUp(s: State, i: nat)
    requires i < |s.clients|
    ensures var t := Apply(s, ClientStep(i, AddDropped));
            && i < |t.clients| && t.clients[i] == s.clients[i].(owed := 0)
            && t.counters.dropped == Wrap(s.counters.dropped + s.clients[i].owed)
  {
  }

  /** An action that is one pass through the loop body, and then the paying up. */
  lemma BodyIsTurn(s: State, i: nat, a: Action, st: Stimulus, l: Local, t: Turn)
    requires Mirrors(s, i, l) && Enabled(s.cfg, s.hub, l.client, a) && InBody(a)
    requires Act(s.cfg, s.hub, l.client, a) == LoopBody(s.cfg, l.client.(phase := Running), st)
    requires Wakes(t) && st == StimulusOf(l.client.filter, t)
    ensures Mirrors(Apply(Apply(s, ClientStep(i, a)), ClientStep(i, AddDropped)), i,
                    TakeTurn(s.cfg, l.(client := l.client.(phase := Running)), t))
  {
    ClientStepEffect(s, i, a);
    PaysUp(Apply(s, ClientStep(i, a)), i);
  }

  lemma FrameIsTurn(s: State, i: nat, frame: Frame, l: Local)
    requires Mirrors(s, i, l) && l.client.phase.Running?
    ensures Mirrors(Run(s, StepsOf(i, FrameArrives(frame))), i, TakeTurn(s.cfg, l, Socket(frame)))
  {
    var a := Receive(frame);
    RunUpTo(s, StepsOf(i, FrameArrives(frame)));
    assert l.client.(phase := Running) == l.client;
    BodyIsTurn(s, i, a, StimulusOf(l.client.filter, Socket(frame)), l, Socket(frame));
  }

  lemma HubIsTurn(s: State, i: nat, l: Local)
    requires Mirrors(s, i, l) && l.client.phase.Running? && HubInv(s.hub) && l.client.cursor <= |s.hub.log|
    ensures Mirrors(Run(s, StepsOf(i, HubWakes)), i, TakeTurn(s.cfg, l, HubTurn(s.cfg, s.hub, l.client)))
  {
    RunUpTo(s, StepsOf(i, HubWakes));
    var seen := Broadcasted(s.cfg, s.hub, l.client);
    if seen.Some? {
      if seen.value.GotEvent? {
        assert s.hub.log[l.client.cursor] in s.hub.log;
      }
      assert l.client.(phase := Running) == l.client;
      BodyIsTurn(s, i, ReceiveBroadcast, seen.value, l, HubTurn(s.cfg, s.hub, l.client));
    } else {
      PaysUp(s, i);
    }
  }

  lemma HeartbeatTaken(s: State, i: nat, body: Body, l: Local)
    requires Mirrors(s, i, l) && l.client.phase.Running? && body.kind == Heartbeat
    ensures var t := Apply(s, ClientStep(i, TakeHeartbeat(body)));
            && Mirrors(t, i, l.(client := l.client.(phase := Beating(|s.hub.issued|)))) && t.cfg == s.cfg
  {
    ClientStepEffect(s, i, TakeHeartbeat(body));
  }

  lemma TimerIsTurn(s: State, i: nat, body: Body, l: Local)
    requires Mirrors(s, i, l) && l.client.phase.Running? && body.kind == Heartbeat
    ensures Mirrors(Run(s, StepsOf(i, TimerFires(body))), i, TakeTurn(s.cfg, l, Tick(|s.hub.issued|)))
  {
    var id := |s.hub.issued|;
    HeartbeatTaken(s, i, body, l);
    var beating := l.(client := l.client.(phase := Beating(id)));
    assert beating.client.(phase := Running) == l.client;
    BeatIsTurn(Apply(s, ClientStep(i, TakeHeartbeat(body))), i, id, beating);
    RunUpTo(s, StepsOf(i, TimerFires(body)));
  }

  lemma BeatIsTurn(s: State, i: nat, id: nat, l: Local)
    requires Mirrors(s, i, l) && l.client.phase == Beating(id)
    ensures Mirrors(Apply(Apply(s, ClientStep(i, SendHeartbeat)), ClientStep(i, AddDropped)), i,
                    TakeTurn(s.cfg, l.(client := l.client.(phase := Running)), Tick(id)))
  {
    BeatFromRunning(s.cfg, l.client, id);
    BodyIsTurn(s, i, SendHeartbeat, Beat(id), l, Tick(id));
  }

  lemma BeatFromRunning(cfg: Config, c: Client, id: nat)
    ensures LoopBody(cfg, c, Beat(id)) == LoopBody(cfg, c.(phase := Running), Beat(id))
  {
    var d := c.(phase := Running);
    assert TrySend(cfg, c) == TrySend(cfg, d);
    assert EnqueueEvent(cfg, d, id) == (EnqueueEvent(cfg, c, id).0.(phase := Running), EnqueueEvent(cfg, c, id).1);
  }

  lemma ElsewhereIsTurn(s: State, i: nat, step: Step, l: Local)
    requires Mirrors(s, i, l) && l.client.phase.Running? && Fits(i, Elsewhere(step))
    ensures Mirrors(Run(s, StepsOf(i, Elsewhere(step))), i, TakeTurn(s.cfg, l, ElsewhereTurn(s, i, step)))
  {
    RunUpTo(s, [step]);
    if step.ClientStep? && step.client < |s.clients| && Enabled(s.cfg, s.hub, s.clients[step.client], step.action) {
      ClientStepEffect(s, step.client, step.action);
    }
  }

  /** Whatever happens, the handler is afterwards where the steps of the system have put it. */
  lemma HappeningIsTurn(cfg: Config, s: State, i: nat, x: Happening, l: Local)
    requires Reachable(cfg, s) && Mirrors(s, i, l) && l.client.phase.Running? && Fits(i, x)
    ensures Reachable(cfg, Run(s, StepsOf(i, x))) && s.cfg == cfg
    ensures Mirrors(Run(s, StepsOf(i, x)), i, TakeTurn(cfg, l, TurnOf(s, i, x)))
  {
    RunStaysReachable(cfg, s, StepsOf(i, x));
    ReachableInv(cfg, s);
    match x
    case FrameArrives(frame) => FrameIsTurn(s, i, frame, l);
    case HubWakes =>
      ReachableClient(cfg, s, i);
      HubIsTurn(s, i, l);
    case TimerFires(body) => TimerIsTurn(s, i, body, l);
    case Elsewhere(step) => ElsewhereIsTurn(s, i, step, l);
  }

  /** A client that arrives and opens without a pause is then as a new handler is constructed. */
  lemma HandlerStarts(s: State, filter: Filter, body: Body)
    requires body.kind == Snapshot
    ensures var i, snapshot, length := |s.clients|, |s.hub.issued|, |s.hub.log|;
            var t := Run(s, [Arrive(filter), ClientStep(i, Connect), ClientStep(i, Subscribe)]
                            + [ClientStep(i, TakeSnapshot(body)), ClientStep(i, Open)]);
            && i < |t.clients|
            && t.clients[i] == Deliver(s.cfg, NewClient(filter).(phase := Opening(snapshot), cursor := length,
                                                                 subscribedAt := length), snapshot)
  {
    var i := |s.clients|;
    var first, second := [Arrive(filter), ClientStep(i, Connect), ClientStep(i, Subscribe)],
                         [ClientStep(i, TakeSnapshot(body)), ClientStep(i, Open)];
    RunConcat(s, first, second);
    RunUpTo(s, first);
    RunUpTo(Run(s, first), second);
    Subscribes(s, filter);
    OpensAt(Run(s, first), i, body);
  }

  lemma Subscribes(s: State, filter: Filter)
    ensures var i, length := |s.clients|, |s.hub.log|;
            var t := Apply(Apply(Apply(s, Arrive(filter)), ClientStep(i, Connect)), ClientStep(i, Subscribe));
            && t.hub == s.hub && t.cfg == s.cfg && i < |t.clients|
            && t.clients[i] == NewClient(filter).(phase := Subscribed, cursor := length, subscribedAt := length)
  {
  }

  lemma OpensAt(s: State, i: nat, body: Body)
    requires i < |s.clients| && s.clients[i].phase.Subscribed? && body.kind == Snapshot
    ensures var snapshot := |s.hub.issued|;
            var t := Apply(Apply(s, ClientStep(i, TakeSnapshot(body))), ClientStep(i, Open));
            && i < |t.clients|
            && t.clients[i] == Deliver(s.cfg, s.clients[i].(phase := Opening(snapshot)), snapshot)
  {
  }

  // ---------------------------------------------------------------- the handler

  class SocketHandler {
    const cfg: Config
    const filter: Filter
    const counters: ServerCounters
    var phase: Phase
    var cursor: nat
    var queue: seq<Message>
    var writer: Writer
    var sent: nat
    var dropped: nat
    ghost var subscribedAt: nat
    ghost var enqueued: seq<Message>
    ghost var wire: seq<Message>
    ghost var lost: nat
    ghost var tolerated: nat
    ghost var broken: bool

    ghost function View(): Client
      reads this
    {
      Client(filter, phase, cursor, queue, writer, sent, dropped, subscribedAt, enqueued, wire, lost, tolerated, 0,
             broken)
    }

    ghost function Seen(): Local
      reads this, counters
    {
      Local(View(), counters.dropped)
    }

    /** A handler that has subscribed at the end of a log of `length` events and sent its snapshot. */
    constructor (cfg: Config, filter: Filter, counters: ServerCounters, length: nat, snapshot: nat)
      ensures this.cfg == cfg && this.filter == filter && this.counters == counters
      ensures View() == Deliver(cfg, NewClient(filter).(phase := Opening(snapshot), cursor := length,
                                                        subscribedAt := length), snapshot)
    {
      this.cfg, this.filter, this.counters := cfg, filter, counters;
      phase, cursor, writer, sent, dropped := Running, length, Idle, 1, 0;
      queue := [Event(snapshot)];
      subscribedAt, enqueued, wire, lost, tolerated, broken := length, [Event(snapshot)], [], 0, 0, false;
    }

    /** `enqueue_outbound`: the queue, the handler's count and the global count change together. */
    method EnqueueOutbound(id: nat) returns (goOn: bool)
      modifies this, counters
      ensures var (d, b) := EnqueueEvent(cfg, old(View()), id);
              goOn == b && Seen() == Local(d.(owed := 0), Wrap(old(counters.dropped) + d.owed))
    {
      if writer.Stopped? {
        return false;
      }
      if |queue| >= Max1(cfg.queueCapacity) {
        dropped := SaturatingAdd(dropped, 1);
        lost := lost + 1;
        var _ := counters.IncrementDropped(1);
        return dropped < Max1(cfg.dropThreshold);
      }
      queue := queue + [Event(id)];
      enqueued := enqueued + [Event(id)];
      goOn := true;
    }

    /** `enqueue_pong`: as above, but a full queue is never tolerated. */
    method EnqueuePongFrame(payload: string) returns (goOn: bool)
      modifies this, counters
      ensures var (d, b) := EnqueuePong(cfg, old(View()), payload);
              goOn == b && Seen() == Local(d.(owed := 0), Wrap(old(counters.dropped) + d.owed))
    {
      if writer.Stopped? {
        return false;
      }
      if |queue| >= Max1(cfg.queueCapacity) {
        dropped := SaturatingAdd(dropped, 1);
        lost := lost + 1;
        var _ := counters.IncrementDropped(1);
        return false;
      }
      queue := queue + [Pong(payload)];
      enqueued := enqueued + [Pong(payload)];
      goOn := true;
    }

    method EnqueueCounted(id: nat)
      requires phase.Running?
      modifies this, counters
      ensures var d := Deliver(cfg, old(View()), id);
              Seen() == Local(d.(owed := 0), Wrap(old(counters.dropped) + d.owed))
    {
      ghost var full := TrySend(cfg, View()).Full?;
      var goOn := EnqueueOutbound(id);
      if goOn {
        sent := SaturatingAdd(sent, 1);
        tolerated := tolerated + if full then 1 else 0;
      } else {
        phase := Ending(Backpressure);
      }
    }

    method HandleFrame(frame: Frame)
      requires phase.Running?
      modifies this, counters
      ensures Seen() == TakeTurn(cfg, old(Seen()), Socket(frame))
    {
      match frame {
        case CloseFrame => phase := Ending(ClientClosed);
        case PingFrame(payload) =>
          var goOn := EnqueuePongFrame(payload);
          if !goOn {
            phase := Ending(Backpressure);
          }
        case OtherFrame =>
        case BadFrame => phase := Ending(ProtocolError);
      }
    }

    method HandleLag(skipped: nat)
      requires phase.Running?
      modifies this, counters
      ensures Seen() == TakeTurn(cfg, old(Seen()), Lagged(skipped))
    {
      cursor := cursor + skipped;
      dropped := SaturatingAdd(dropped, skipped);
      lost := lost + skipped;
      var _ := counters.IncrementDropped(skipped);
      if dropped >= cfg.dropThreshold {
        phase := Ending(Backpressure);
      }
    }

    method HandleEvent(id: nat, envelope: Envelope)
      requires phase.Running?
      modifies this, counters
      ensures Seen() == TakeTurn(cfg, old(Seen()), Received(id, envelope))
    {
      ReceivedIsDelivery(cfg, Seen(), id, envelope);
      cursor := cursor + 1;
      assert View() == old(View()).(cursor := old(cursor) + 1);
      if filter.Matches(envelope) {
        EnqueueCounted(id);
      }
    }

    /** What the writer and others do between two turns of the handler's own. */
    method ChangeElsewhere(t: Turn)
      requires !Wakes(t)
      modifies this, counters
      ensures Seen() == TakeTurn(cfg, old(Seen()), t)
    {
      match t {
        case WriterTook =>
          if queue != [] && writer.Idle? {
            writer, queue := Sending(queue[0]), queue[1..];
          }
        case WriterSent =>
          if writer.Sending? {
            wire := wire + [writer.message];
            writer := if writer.message.Close? then Stopped else Idle;
          }
        case WriterGone =>
          if writer.Sending? {
            writer, broken := Stopped, true;
          }
        case DroppedElsewhere(count) =>
          var _ := counters.IncrementDropped(count);
        case Quiet =>
      }
    }

    method HandleTurn(t: Turn)
      requires phase.Running?
      modifies this, counters
      ensures Seen() == TakeTurn(cfg, old(Seen()), t)
    {
      match t {
        case Socket(frame) => HandleFrame(frame);
        case Received(id, envelope) => HandleEvent(id, envelope);
        case Lagged(skipped) => HandleLag(skipped);
        case HubGone => phase := Ending(ServerShutdown);
        case Tick(id) => EnqueueCounted(id);
        case _ => ChangeElsewhere(t);
      }
    }

    /**
     The handler's loop, in any run of the whole system: `start` is how things stand, and `happenings` what
     happens next, to this client `i` and elsewhere, of which the handler sees `turns`. It goes on until one
     gives a reason to close, and is then where the run of the system has it; while it goes on, it has
     delivered the hub's events in order.
     */
    method HandleTurns(turns: seq<Turn>, ghost start: State, ghost i: nat, ghost happenings: seq<Happening>)
      returns (n: nat)
      requires Reachable(cfg, start) && Mirrors(start, i, Seen()) && phase.Running?
      requires forall x | x in happenings :: Fits(i, x)
      requires |turns| == |happenings| && forall k | 0 <= k < |turns| :: turns[k] == TurnAt(start, i, happenings, k)
      modifies this, counters
      ensures n <= |turns| && (n == |turns| || !phase.Running?)
      ensures Reachable(cfg, After(start, i, happenings[..n]))
      ensures Mirrors(After(start, i, happenings[..n]), i, Seen())
      ensures phase.Running? && cfg.dropThreshold <= U64_MAX ==>
                DeliversInOrder(cfg, After(start, i, happenings[..n]).hub, View())
    {
      n := 0;
      while n < |turns| && phase.Running?
        invariant n <= |turns|
        invariant Reachable(cfg, After(start, i, happenings[..n]))
        invariant Mirrors(After(start, i, happenings[..n]), i, Seen())
      {
        ghost var s, l := After(start, i, happenings[..n]), Seen();
        HandleTurn(turns[n]);
        AfterOneMore(start, i, happenings, n);
        HappeningIsTurn(cfg, s, i, happenings[n], l);
        n := n + 1;
      }
      ghost var s := After(start, i, happenings[..n]);
      if phase.Running? && cfg.dropThreshold <= U64_MAX {
        DeliveredInOrder(cfg, s, i);
      }
    }
  }
}
