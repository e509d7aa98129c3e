/**
 What one step of the event stream does, said without the functions that compute it: what is put on the queue,
 what is counted, why a handler leaves its loop, and what stays as it was.
 */
module EventLaws {
  import opened Basics
  import opened EventStream
  import opened EventStreamProofs

  // ---------------------------------------------------------------- offering a message

  predicate HasRoom(cfg: Config, c: Client) {
    !c.writer.Stopped? && (|c.queue| < cfg.queueCapacity || c.queue == [])
  }

  /** The queue takes the message, and nothing is counted. */
  predicate Taken(c: Client, m: Message, d: Client) {
    && d.queue == c.queue + [m] && d.enqueued == c.enqueued + [m]
    && d.dropped == c.dropped && d.lost == c.lost && d.owed == c.owed && d.tolerated == c.tolerated
  }

  /** The queue stays, and the message is counted as lost. */
  predicate Refused(c: Client, d: Client) {
    && d.queue == c.queue && d.enqueued == c.enqueued
    && d.dropped == (if c.dropped < 0xFFFF_FFFF_FFFF_FFFF then c.dropped + 1 else 0xFFFF_FFFF_FFFF_FFFF)
    && d.lost == c.lost + 1 && d.owed == c.owed + 1
  }

  /** No handler touches what its writer does, or its own subscription. */
  predicate SameSide(c: Client, d: Client) {
    d.filter == c.filter && d.subscribedAt == c.subscribedAt && d.writer == c.writer && d.wire == c.wire
    && d.broken == c.broken
  }

  predicate OneMoreSent(c: Client, d: Client) {
    d.sent == if c.sent < 0xFFFF_FFFF_FFFF_FFFF then c.sent + 1 else 0xFFFF_FFFF_FFFF_FFFF
  }

  /**
   An event offered to the queue. It is taken if there is room. If the queue is full it is counted as lost; below
   the threshold the handler goes on all the same and counts it as sent. Otherwise, and if the writer has
   stopped, the handler leaves because of backpressure.
   */
  predicate EventOffered(cfg: Config, c: Client, id: nat, d: Client) {
    && SameSide(c, d) && d.cursor == c.cursor
    && (HasRoom(cfg, c) ==> Taken(c, Event(id), d) && OneMoreSent(c, d) && d.phase == Running)
    && (c.writer.Stopped? ==> d == c.(phase := Ending(Backpressure)))
    && (!HasRoom(cfg, c) && !c.writer.Stopped? ==>
          && Refused(c, d)
          && (if d.dropped == 0 || d.dropped < cfg.dropThreshold
              then d.phase == Running && OneMoreSent(c, d) && d.tolerated == c.tolerated + 1
              else d.phase == Ending(Backpressure) && d.sent == c.sent && d.tolerated == c.tolerated))
  }

  /** A pong is offered likewise, but is not counted as sent, and a full queue always ends the loop. */
  predicate PongOffered(cfg: Config, c: Client, payload: string, d: Client) {
    && SameSide(c, d) && d.cursor == c.cursor && d.sent == c.sent && d.tolerated == c.tolerated
    && (HasRoom(cfg, c) ==> Taken(c, Pong(payload), d) && d.phase == c.phase)
    && (c.writer.Stopped? ==> d == c.(phase := Ending(Backpressure)))
    && (!HasRoom(cfg, c) && !c.writer.Stopped? ==> Refused(c, d) && d.phase == Ending(Backpressure))
  }

  /** A lag is counted as lost, as many as were skipped, and ends the loop when the threshold is reached. */
  predicate LagCounted(cfg: Config, c: Client, skipped: nat, d: Client) {
    && SameSide(c, d) && d.cursor == c.cursor + skipped && d.sent == c.sent && d.tolerated == c.tolerated
    && d.queue == c.queue && d.enqueued == c.enqueued
    && d.lost == c.lost + skipped && d.owed == c.owed + skipped
    && d.dropped == (if c.dropped + skipped < 0xFFFF_FFFF_FFFF_FFFF then c.dropped + skipped
                     else 0xFFFF_FFFF_FFFF_FFFF)
    && d.phase == if d.dropped >= cfg.dropThreshold then Ending(Backpressure) else c.phase
  }

  lemma DeliverMeans(cfg: Config, c: Client, id: nat)
    ensures EventOffered(cfg, c, id, Deliver(cfg, c, id))
  {
  }

  lemma PongMeans(cfg: Config, c: Client, payload: string)
    ensures PongOffered(cfg, c, payload, LoopBody(cfg, c, GotPing(payload)))
  {
  }

  lemma LagMeans(cfg: Config, c: Client, skipped: nat)
    ensures LagCounted(cfg, c, skipped, LoopBody(cfg, c, GotLag(skipped)))
  {
  }

  // ---------------------------------------------------------------- the loop

  /** What the receiver of broadcasts gives next. */
  predicate BroadcastTaken(cfg: Config, h: Hub, c: Client, d: Client)
    requires c.cursor <= |h.log|
  {
    var behind, kept := |h.log| - c.cursor, if cfg.ring == 0 then 1 else cfg.ring;
    if behind > kept then LagCounted(cfg, c, behind - kept, d)
    else if behind > 0 then
      var id := h.log[c.cursor];
      if id < |h.issued| && c.filter.Matches(h.issued[id].envelope)
      then EventOffered(cfg, c.(cursor := c.cursor + 1), id, d) else d == c.(cursor := c.cursor + 1)
    else h.closed && d == c.(phase := Ending(ServerShutdown))
  }

  lemma BroadcastMeans(cfg: Config, h: Hub, c: Client)
    requires Enabled(cfg, h, c, ReceiveBroadcast)
    ensures BroadcastTaken(cfg, h, c, Act(cfg, h, c, ReceiveBroadcast))
  {
    match Broadcasted(cfg, h, c).value
    case GotEvent(id, matches) =>
      EventIsDelivery(cfg, c, id, matches, c.(cursor := c.cursor + 1));
      DeliverMeans(cfg, c.(cursor := c.cursor + 1), id);
    case GotLag(skipped) => LagMeans(cfg, c, skipped);
    case _ =>
  }

  /** What each thing that happens in the loop does to the handler; a matching event is one that meets the filter. */
  lemma LoopMeans(cfg: Config, h: Hub, c: Client, a: Action)
    requires Enabled(cfg, h, c, a)
    ensures forall e :: c.filter.Matches(e) <==> Meets(c.filter, e.body)
    ensures var d := Act(cfg, h, c, a);
            match a
            case Receive(CloseFrame) => d == c.(phase := Ending(ClientClosed))
            case Receive(BadFrame) => d == c.(phase := Ending(ProtocolError))
            case Receive(OtherFrame) => d == c
            case Receive(PingFrame(payload)) => PongOffered(cfg, c, payload, d)
            case ReceiveBroadcast => BroadcastTaken(cfg, h, c, d)
            case TakeHeartbeat(_) => d == c.(phase := Beating(|h.issued|))
            case SendHeartbeat => c.phase.Beating? && EventOffered(cfg, c, c.phase.heartbeat, d)
            case _ => true
  {
    forall e ensures c.filter.Matches(e) <==> Meets(c.filter, e.body) {
      MatchesMeans(c.filter, e);
    }
    match a
    case Receive(PingFrame(payload)) => PongMeans(cfg, c, payload);
    case ReceiveBroadcast => BroadcastMeans(cfg, h, c);
    case SendHeartbeat => DeliverMeans(cfg, c, c.phase.heartbeat);
    case _ =>
  }

  // ---------------------------------------------------------------- before and after the loop, and the writer

  /** What the other actions do. */
  lemma OtherActionsMean(cfg: Config, h: Hub, c: Client, a: Action)
    requires Enabled(cfg, h, c, a)
    ensures var d := Act(cfg, h, c, a);
            match a
            case Connect => c.phase.Accepted? && d == c.(phase := Connected)
            case Subscribe =>
              c.phase.Connected? && d == c.(phase := Subscribed, cursor := |h.log|, subscribedAt := |h.log|)
            case TakeSnapshot(_) => c.phase.Subscribed? && d == c.(phase := Opening(|h.issued|))
            case Open => c.phase.Opening? && EventOffered(cfg, c, c.phase.snapshot, d)
            case AddDropped => d == c.(owed := 0)
            case QueueClose =>
              c.phase.Ending? && HasRoom(cfg, c) && Taken(c, Close(c.phase.reason), d) && d.phase == Draining
              && SameSide(c, d) && d.sent == c.sent && d.cursor == c.cursor
            case CloseRefused => c.phase.Ending? && c.writer.Stopped? && d == c.(phase := Draining)
            case CloseTimedOut =>
              c.phase.Ending? && !c.writer.Stopped? && d == c.(phase := Draining, writer := Stopped, broken := true)
            case Finish => c.phase.Draining? && c.writer.Stopped? && d == c.(phase := Done)
            case WriterTakes =>
              c.writer.Idle? && c.queue != [] && d.writer == Sending(c.queue[0]) && c.queue == [c.queue[0]] + d.queue
              && d == c.(writer := d.writer, queue := d.queue)
            case WriterSends =>
              c.writer.Sending? && d.wire == c.wire + [c.writer.message]
              && (d.writer == if c.writer.message.Close? then Stopped else Idle)
              && d == c.(writer := d.writer, wire := d.wire)
            case WriterFails => c.writer.Sending? && d == c.(writer := Stopped, broken := true)
            case _ => true
  {
    match a
    case Open => DeliverMeans(cfg, c, c.phase.snapshot);
    case WriterTakes => assert c.queue == [c.queue[0]] + c.queue[1..];
    case _ =>
  }

  /** A receiver of broadcasts has something to give when it is behind, or when the hub has closed. */
  predicate SomethingToReceive(h: Hub, c: Client) { c.cursor < |h.log| || (c.cursor == |h.log| && h.closed) }

  /** What may happen next, in each state of a handler and its writer. What a handler owes is added first. */
  lemma EnabledMeans(cfg: Config, h: Hub, c: Client, a: Action)
    ensures Enabled(cfg, h, c, a) <==>
            match a
            case Connect => c.phase == Accepted
            case Subscribe => c.phase == Connected
            case TakeSnapshot(body) => c.phase == Subscribed && body.kind == Snapshot
            case Open => c.phase.Opening?
            case Receive(_) => c.phase == Running && c.owed == 0
            case ReceiveBroadcast => c.phase == Running && c.owed == 0 && SomethingToReceive(h, c)
            case TakeHeartbeat(body) => c.phase == Running && c.owed == 0 && body.kind == Heartbeat
            case SendHeartbeat => c.phase.Beating?
            case AddDropped => c.owed != 0
            case QueueClose => c.phase.Ending? && c.owed == 0 && HasRoom(cfg, c)
            case CloseRefused => c.phase.Ending? && c.owed == 0 && c.writer == Stopped
            case CloseTimedOut => c.phase.Ending? && c.owed == 0 && c.writer != Stopped
            case Finish => c.phase == Draining && c.writer == Stopped
            case WriterTakes => c.writer == Idle && |c.queue| > 0
            case WriterSends => c.writer.Sending?
            case WriterFails => c.writer.Sending?
            case WriterDrains => c.phase == Draining && c.writer == Idle && |c.queue| == 0
  {
  }

  // ---------------------------------------------------------------- the whole system

  /** A number was taken: it is the next one, and an envelope with the body was made with it. */
  predicate NumberTaken(h: Hub, body: Body, owner: Owner, after: Hub) {
    && after.counter == (if h.counter == 0xFFFF_FFFF_FFFF_FFFF then 0 else h.counter + 1)
    && after.issued == h.issued + [Issued(Envelope(after.counter, body), owner)]
    && after.log == h.log && after.closed == h.closed
  }

  predicate SameButHub(s: State, t: State) { t == s.(hub := t.hub) }

  /** What each step changes, and that it changes nothing else. */
  lemma StepMeans(s: State, step: Step)
    ensures var t := Apply(s, step);
            match step
            case Arrive(filter) =>
              && t == s.(clients := t.clients) && |t.clients| == |s.clients| + 1 && s.clients <= t.clients
              && t.clients[|s.clients|] == Client(filter, Accepted, 0, [], Idle, 0, 0, 0, [], [], 0, 0, 0, false)
            case Publish(body) =>
              SameButHub(s, t) && NumberTaken(s.hub, body, Broadcast, t.hub)
              && t.hub.pending == s.hub.pending + {|s.hub.issued|}
            case SendPending(id) =>
              if id in s.hub.pending && !s.hub.closed
              then SameButHub(s, t) && t.hub.log == s.hub.log + [id] && t.hub.pending == s.hub.pending - {id}
                   && t.hub.counter == s.hub.counter && t.hub.issued == s.hub.issued && !t.hub.closed
              else t == s
            case CloseHub => t == s.(hub := s.hub.(closed := true))
            case ClientStep(i, a) =>
              if i < |s.clients| && Enabled(s.cfg, s.hub, s.clients[i], a)
              then t.cfg == s.cfg && t.clients == s.clients[i := Act(s.cfg, s.hub, s.clients[i], a)]
                   && HubAfter(s.hub, i, a, t.hub) && Counted(s.counters, s.clients[i], a, t.counters)
              else t == s
  {
  }

  /** Only a snapshot and a heartbeat take a number, for their own client. */
  predicate HubAfter(h: Hub, i: nat, a: Action, after: Hub) {
    if a.TakeSnapshot? then NumberTaken(h, a.body, Private(i), after) && after.pending == h.pending
    else if a.TakeHeartbeat? then NumberTaken(h, a.body, Private(i), after) && after.pending == h.pending
    else after == h
  }

  predicate OneMore(n: U64, after: U64) { after == if n == 0xFFFF_FFFF_FFFF_FFFF then 0 else n + 1 }

  /** Connecting and finishing are counted once each, and what is owed is added to the drops. */
  predicate Counted(k: Counters, c: Client, a: Action, after: Counters) {
    && (if a.Connect? then OneMore(k.connected, after.connected) else after.connected == k.connected)
    && (if a.Finish? then OneMore(k.disconnected, after.disconnected) else after.disconnected == k.disconnected)
    && (if a.AddDropped? then after.dropped == (k.dropped + c.owed) % 0x1_0000_0000_0000_0000
        else after.dropped == k.dropped)
  }
}
