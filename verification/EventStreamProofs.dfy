/**
 What every run of the event stream keeps, for any number of clients and any interleaving.
 The invariant is split by concern; each part is preserved by every action on its own.
 */
module EventStreamProofs {
  import opened Basics
  import opened EventStream

  // ---------------------------------------------------------------- sequences

  /** `xs` is `ys` with some elements left out, in the same order. */
  ghost predicate Subsequence<T>(xs: seq<T>, ys: seq<T>) {
    xs == [] || (ys != [] && (
      (xs[|xs| - 1] == ys[|ys| - 1] && Subsequence(xs[..|xs| - 1], ys[..|ys| - 1]))
      || Subsequence(xs, ys[..|ys| - 1])))
  }

  lemma {:induction false} SubsequenceLength<T>(xs: seq<T>, ys: seq<T>)
    requires Subsequence(xs, ys)
    ensures |xs| <= |ys| && (|xs| == |ys| ==> xs == ys)
    decreases |ys|
  {
    if xs != [] {
      if xs[|xs| - 1] == ys[|ys| - 1] && Subsequence(xs[..|xs| - 1], ys[..|ys| - 1]) {
        SubsequenceLength(xs[..|xs| - 1], ys[..|ys| - 1]);
        assert xs == xs[..|xs| - 1] + [xs[|xs| - 1]] && ys == ys[..|ys| - 1] + [ys[|ys| - 1]];
      } else {
        SubsequenceLength(xs, ys[..|ys| - 1]);
      }
    }
  }

  lemma SubsequenceSkips<T>(xs: seq<T>, ys: seq<T>, v: T)
    requires Subsequence(xs, ys)
    ensures Subsequence(xs, ys + [v])
  {
    assert (ys + [v])[..|ys|] == ys;
  }

  lemma SubsequenceTakes<T>(xs: seq<T>, ys: seq<T>, v: T)
    requires Subsequence(xs, ys)
    ensures Subsequence(xs + [v], ys + [v])
  {
    assert (ys + [v])[..|ys|] == ys && (xs + [v])[..|xs|] == xs;
  }

  ghost predicate Distinct<T>(xs: seq<T>) {
    forall i, j | 0 <= i < j < |xs| :: xs[i] != xs[j]
  }

  ghost function Wanted(issued: seq<Issued>, f: Filter, id: nat): seq<nat> {
    if id < |issued| && f.Matches(issued[id].envelope) then [id] else []
  }

  /** The ids, among `ids`, of events the filter admits. */
  ghost function Matching(issued: seq<Issued>, f: Filter, ids: seq<nat>): seq<nat> {
    if ids == [] then [] else Matching(issued, f, ids[..|ids| - 1]) + Wanted(issued, f, ids[|ids| - 1])
  }

  /** The ids of the broadcast events among the messages. */
  ghost function Delivered(issued: seq<Issued>, messages: seq<Message>): seq<nat> {
    if messages == [] then []
    else
      var m := messages[|messages| - 1];
      Delivered(issued, messages[..|messages| - 1])
      + (if m.Event? && m.id < |issued| && issued[m.id].owner == Broadcast then [m.id] else [])
  }

  lemma MatchingAppend(issued: seq<Issued>, f: Filter, ids: seq<nat>, id: nat)
    ensures Matching(issued, f, ids + [id]) == Matching(issued, f, ids) + Wanted(issued, f, id)
  {
    assert (ids + [id])[..|ids|] == ids;
  }

  lemma DeliveredAppend(issued: seq<Issued>, messages: seq<Message>, m: Message)
    ensures Delivered(issued, messages + [m])
            == Delivered(issued, messages)
               + (if m.Event? && m.id < |issued| && issued[m.id].owner == Broadcast then [m.id] else [])
  {
    assert (messages + [m])[..|messages|] == messages;
  }

  /** Skipping a stretch of the log leaves a subsequence, short of at most the stretch. */
  lemma {:induction false} MatchingSkips(issued: seq<Issued>, f: Filter, xs: seq<nat>, ids: seq<nat>, more: seq<nat>)
    requires Subsequence(xs, Matching(issued, f, ids))
    ensures Subsequence(xs, Matching(issued, f, ids + more))
    ensures |Matching(issued, f, ids + more)| <= |Matching(issued, f, ids)| + |more|
    decreases |more|
  {
    if more == [] {
      assert ids + more == ids;
    } else {
      var n := |more| - 1;
      MatchingSkips(issued, f, xs, ids, more[..n]);
      assert ids + more == ids + more[..n] + [more[n]];
      MatchingAppend(issued, f, ids + more[..n], more[n]);
      var before := Matching(issued, f, ids + more[..n]);
      assert before + [] == before;
      if more[n] < |issued| && f.Matches(issued[more[n]].envelope) {
        SubsequenceSkips(xs, Matching(issued, f, ids + more[..n]), more[n]);
      }
    }
  }

  lemma {:induction false} MatchingMonotone(issued: seq<Issued>, grown: seq<Issued>, f: Filter, ids: seq<nat>)
    requires issued <= grown && forall k | 0 <= k < |ids| :: ids[k] < |issued|
    ensures Matching(grown, f, ids) == Matching(issued, f, ids)
    decreases |ids|
  {
    if ids != [] {
      MatchingMonotone(issued, grown, f, ids[..|ids| - 1]);
    }
  }

  lemma {:induction false} DeliveredMonotone(issued: seq<Issued>, grown: seq<Issued>, messages: seq<Message>)
    requires issued <= grown && forall k | 0 <= k < |messages| && messages[k].Event? :: messages[k].id < |issued|
    ensures Delivered(grown, messages) == Delivered(issued, messages)
    decreases |messages|
  {
    if messages != [] {
      DeliveredMonotone(issued, grown, messages[..|messages| - 1]);
    }
  }

  // ---------------------------------------------------------------- the invariant, part by part

  /** Numbers are handed out in order; what is pending or sent was made by publishers, each thing once. */
  ghost predicate HubInv(h: Hub) {
    && h.counter == Wrap(|h.issued|)
    && (forall k | 0 <= k < |h.issued| :: h.issued[k].envelope.sequence == Wrap(k + 1))
    && (forall id | id in h.pending :: id < |h.issued| && h.issued[id].owner == Broadcast)
    && (forall id | id in h.log :: id < |h.issued| && h.issued[id].owner == Broadcast && id !in h.pending)
    && Distinct(h.log)
  }

  function Held(w: Writer): seq<Message> {
    if w.Sending? then [w.message] else []
  }

  /** The wire is what was enqueued, less what the writer holds and what is still queued. */
  ghost predicate WireInv(c: Client) {
    && c.wire <= c.enqueued
    && (!c.writer.Stopped? ==> c.enqueued == c.wire + Held(c.writer) + c.queue)
  }

  predicate BeforeOpen(p: Phase) { p.Accepted? || p.Connected? || p.Subscribed? || p.Opening? }
  predicate AfterClose(p: Phase) { p.Draining? || p.Done? }
  predicate InLoop(p: Phase) { p.Running? || p.Beating? }

  ghost predicate IsSnapshotOf(h: Hub, i: nat, id: nat) {
    id < |h.issued| && h.issued[id].owner == Private(i) && h.issued[id].envelope.body.kind == Snapshot
  }

  /** Nothing precedes the snapshot. */
  ghost predicate SnapshotInv(h: Hub, i: nat, c: Client) {
    && (BeforeOpen(c.phase) ==> c.enqueued == [] && c.wire == [] && c.queue == [] && c.writer == Idle)
    && (c.phase.Opening? ==> IsSnapshotOf(h, i, c.phase.snapshot))
    && (!BeforeOpen(c.phase) ==> c.enqueued != [] && c.enqueued[0].Event? && IsSnapshotOf(h, i, c.enqueued[0].id))
  }

  /** A close frame is enqueued at most once, and last. */
  ghost predicate CloseInv(c: Client) {
    forall k | 0 <= k < |c.enqueued| && c.enqueued[k].Close? :: k == |c.enqueued| - 1 && AfterClose(c.phase)
  }

  /** An event the client may enqueue: its own, or one it has received from the log. */
  ghost predicate MayEnqueue(h: Hub, i: nat, cursor: nat, m: Message)
    requires cursor <= |h.log|
  {
    m.Event? ==>
      (m.id < |h.issued|
       && (h.issued[m.id].owner == Private(i)
           || (h.issued[m.id].owner == Broadcast && m.id in h.log[..cursor])))
  }

  ghost predicate NoEventTwice(messages: seq<Message>) {
    forall j, k | 0 <= j < k < |messages| && messages[j].Event? :: messages[j] != messages[k]
  }

  /** The number a handler has taken and not yet used is its own. */
  ghost predicate TakenInv(h: Hub, i: nat, c: Client) {
    && (c.phase.Opening? ==> c.phase.snapshot < |h.issued| && h.issued[c.phase.snapshot].owner == Private(i))
    && (c.phase.Beating? ==>
          (c.phase.heartbeat < |h.issued| && h.issued[c.phase.heartbeat].owner == Private(i)
           && Event(c.phase.heartbeat) !in c.enqueued))
  }

  ghost predicate IdInv(h: Hub, i: nat, c: Client) {
    && c.cursor <= |h.log|
    && (forall k | 0 <= k < |c.enqueued| :: MayEnqueue(h, i, c.cursor, c.enqueued[k]))
    && NoEventTwice(c.enqueued)
    && TakenInv(h, i, c)
  }

  ghost predicate CountInv(cfg: Config, c: Client) {
    && c.dropped == (if c.lost <= U64_MAX then c.lost else U64_MAX)
    && c.owed <= c.lost
    && (BeforeOpen(c.phase) ==> c.lost == 0)
    && (InLoop(c.phase) ==> c.dropped < Max1(cfg.dropThreshold))
  }

  /** The part of the hub's events this client should get: those after subscribing that it has passed. */
  ghost function Expected(h: Hub, c: Client): seq<nat>
    requires c.subscribedAt <= c.cursor <= |h.log|
  {
    Matching(h.issued, c.filter, h.log[c.subscribedAt..c.cursor])
  }

  ghost predicate DeliveryInv(h: Hub, c: Client) {
    && c.subscribedAt <= c.cursor <= |h.log|
    && Subsequence(Delivered(h.issued, c.enqueued), Expected(h, c))
    && (BeforeOpen(c.phase) || InLoop(c.phase) ==>
          |Expected(h, c)| <= |Delivered(h.issued, c.enqueued)| + c.lost)
  }

  ghost function EventCount(messages: seq<Message>): nat {
    if messages == [] then 0
    else EventCount(messages[..|messages| - 1]) + (if messages[|messages| - 1].Event? then 1 else 0)
  }

  /** `sent` counts the enqueued events and, besides, drops that were tolerated. */
  ghost predicate SentInv(c: Client) {
    c.sent == Saturated(EventCount(c.enqueued) + c.tolerated) && c.tolerated <= c.lost
  }

  /** The outbound queue keeps within its capacity. */
  ghost predicate QueueInv(cfg: Config, c: Client) { |c.queue| <= Max1(cfg.queueCapacity) }

  /** Unless the writer broke: it stops only after everything is written, and that ends in a close frame. */
  ghost predicate EndInv(c: Client) {
    && (AfterClose(c.phase) && !c.broken ==> c.enqueued != [] && c.enqueued[|c.enqueued| - 1].Close?)
    && (c.writer.Stopped? && !c.broken ==> c.wire == c.enqueued && AfterClose(c.phase))
    && (!c.writer.Stopped? ==> NoClose(c.wire))
    && (c.broken ==> c.writer.Stopped? && NoClose(c.wire))
    && (c.phase.Done? ==> c.writer.Stopped?)
  }

  ghost predicate NoClose(messages: seq<Message>) { forall m | m in messages :: !m.Close? }

  ghost predicate ClientInv(cfg: Config, h: Hub, i: nat, c: Client) {
    && WireInv(c) && SnapshotInv(h, i, c) && CloseInv(c) && IdInv(h, i, c) && CountInv(cfg, c) && DeliveryInv(h, c)
    && SentInv(c) && QueueInv(cfg, c) && EndInv(c)
  }

  // ---------------------------------------------------------------- each part is kept by the acting client

  /** What an action puts on the queue: at most one message. */
  ghost function Added(cfg: Config, h: Hub, c: Client, a: Action): seq<Message>
    requires Enabled(cfg, h, c, a)
  {
    if !TrySend(cfg, c).Accepts? then []
    else match a
      case Open => [Event(c.phase.snapshot)]
      case SendHeartbeat => [Event(c.phase.heartbeat)]
      case Receive(PingFrame(payload)) => [Pong(payload)]
      case ReceiveBroadcast =>
        var st := Broadcasted(cfg, h, c).value;
        if st.GotEvent? && st.matches then [Event(st.id)] else []
      case QueueClose => [Close(c.phase.reason)]
      case _ => []
  }

  predicate ByWriter(a: Action) {
    a.WriterTakes? || a.WriterSends? || a.WriterFails? || a.WriterDrains?
  }

  lemma HandlerShape(cfg: Config, h: Hub, c: Client, a: Action)
    requires Enabled(cfg, h, c, a) && !ByWriter(a)
    ensures var d := Act(cfg, h, c, a);
            && d.wire == c.wire
            && d.enqueued == c.enqueued + Added(cfg, h, c, a)
            && d.queue == c.queue + Added(cfg, h, c, a)
            && (d.writer == c.writer || (a.CloseTimedOut? && d.writer == Stopped))
  {
    var d := Act(cfg, h, c, a);
    if Added(cfg, h, c, a) == [] {
      assert c.enqueued + [] == c.enqueued && c.queue + [] == c.queue;
    }
    match a
    case Receive(frame) =>
    case ReceiveBroadcast =>
    case _ =>
  }

  lemma WireKept(cfg: Config, h: Hub, c: Client, a: Action)
    requires Enabled(cfg, h, c, a) && WireInv(c)
    ensures WireInv(Act(cfg, h, c, a))
  {
    if ByWriter(a) {
      WriterKeepsWire(cfg, h, c, a);
    } else {
      HandlerShape(cfg, h, c, a);
      var added := Added(cfg, h, c, a);
      assert c.wire + Held(c.writer) + (c.queue + added) == c.wire + Held(c.writer) + c.queue + added;
    }
  }

  lemma WriterKeepsWire(cfg: Config, h: Hub, c: Client, a: Action)
    requires Enabled(cfg, h, c, a) && WireInv(c) && ByWriter(a)
    ensures WireInv(Act(cfg, h, c, a))
  {
    match a
    case WriterTakes =>
      assert c.queue == [c.queue[0]] + c.queue[1..];
      assert c.wire + [] + c.queue == c.wire + [c.queue[0]] + c.queue[1..];
    case WriterSends =>
      assert c.wire + [c.writer.message] + [] + c.queue == c.wire + [c.writer.message] + c.queue;
    case _ =>
  }

  lemma SnapshotKept(cfg: Config, h: Hub, i: nat, c: Client, a: Action)
    requires Enabled(cfg, h, c, a) && SnapshotInv(h, i, c)
    ensures SnapshotInv(ActHub(h, i, a), i, Act(cfg, h, c, a))
  {
    ActHubGrows(h, i, a);
    if ByWriter(a) {
      WriterShape(cfg, h, c, a);
    } else {
      HandlerShape(cfg, h, c, a);
      OpeningShape(cfg, h, c, a);
      AddedShape(cfg, h, c, a);
    }
  }

  lemma ActHubGrows(h: Hub, i: nat, a: Action)
    ensures h.issued <= ActHub(h, i, a).issued && ActHub(h, i, a).log == h.log
  {
  }

  lemma WriterShape(cfg: Config, h: Hub, c: Client, a: Action)
    requires Enabled(cfg, h, c, a) && ByWriter(a)
    ensures var d := Act(cfg, h, c, a);
            && d.phase == c.phase && d.enqueued == c.enqueued && d.cursor == c.cursor
            && (c.writer.Idle? && c.queue == [] && BeforeOpen(c.phase) ==> d == c)
  {
  }

  lemma OpeningShape(cfg: Config, h: Hub, c: Client, a: Action)
    requires Enabled(cfg, h, c, a) && !ByWriter(a)
    ensures var d := Act(cfg, h, c, a);
            && (BeforeOpen(d.phase) ==> BeforeOpen(c.phase) && !a.Open?)
            && (BeforeOpen(c.phase) && !BeforeOpen(d.phase) ==> a.Open? && c.phase.Opening?)
            && (d.phase.Opening? ==> d.phase == c.phase || (a.TakeSnapshot? && d.phase == Opening(|h.issued|)))
  {
    if InBody(a) {
      var st := ActIsLoopBody(cfg, h, c, a);
    }
  }

  lemma AddedShape(cfg: Config, h: Hub, c: Client, a: Action)
    requires Enabled(cfg, h, c, a)
    ensures a.Open? && TrySend(cfg, c).Accepts? ==> Added(cfg, h, c, a) == [Event(c.phase.snapshot)]
    ensures BeforeOpen(c.phase) && !a.Open? ==> Added(cfg, h, c, a) == []
    ensures forall m | m in Added(cfg, h, c, a) && m.Close? :: a.QueueClose?
    ensures |Added(cfg, h, c, a)| <= 1
  {
  }

  lemma CloseKept(cfg: Config, h: Hub, c: Client, a: Action)
    requires Enabled(cfg, h, c, a) && CloseInv(c)
    ensures CloseInv(Act(cfg, h, c, a))
  {
    if ByWriter(a) {
      WriterShape(cfg, h, c, a);
    } else {
      HandlerShape(cfg, h, c, a);
      PhaseShape(cfg, h, c, a);
      AddedShape(cfg, h, c, a);
    }
  }

  lemma QueueKept(cfg: Config, h: Hub, c: Client, a: Action)
    requires Enabled(cfg, h, c, a) && QueueInv(cfg, c)
    ensures QueueInv(cfg, Act(cfg, h, c, a))
  {
    if !ByWriter(a) {
      HandlerShape(cfg, h, c, a);
    }
  }

  lemma EndKept(cfg: Config, h: Hub, c: Client, a: Action)
    requires Enabled(cfg, h, c, a) && WireInv(c) && CloseInv(c) && EndInv(c)
    ensures EndInv(Act(cfg, h, c, a))
  {
    if ByWriter(a) {
      WriterKeepsEnd(cfg, h, c, a);
    } else {
      HandlerKeepsEnd(cfg, h, c, a);
    }
  }

  lemma WriterKeepsEnd(cfg: Config, h: Hub, c: Client, a: Action)
    requires Enabled(cfg, h, c, a) && WireInv(c) && CloseInv(c) && EndInv(c) && ByWriter(a)
    ensures EndInv(Act(cfg, h, c, a))
  {
    if a.WriterSends? && c.writer.message.Close? {
      assert c.enqueued[|c.wire|] == c.writer.message;
      assert c.queue == [];
    }
  }

  lemma HandlerKeepsEnd(cfg: Config, h: Hub, c: Client, a: Action)
    requires Enabled(cfg, h, c, a) && EndInv(c) && !ByWriter(a)
    ensures EndInv(Act(cfg, h, c, a))
  {
    HandlerShape(cfg, h, c, a);
    PhaseShape(cfg, h, c, a);
  }

  /** How an action of the handler moves it to its end. */
  lemma PhaseShape(cfg: Config, h: Hub, c: Client, a: Action)
    requires Enabled(cfg, h, c, a) && !ByWriter(a)
    ensures var d := Act(cfg, h, c, a);
            && (AfterClose(d.phase) <==> a.QueueClose? || a.CloseRefused? || a.CloseTimedOut? || AfterClose(c.phase))
            && d.broken == (c.broken || a.CloseTimedOut?)
            && (d.phase.Done? ==> c.phase.Done? || (a.Finish? && c.writer.Stopped?))
  {
    match a
    case Receive(frame) =>
    case ReceiveBroadcast =>
    case _ =>
  }

  ghost predicate Counted(c: Client) {
    c.dropped == (if c.lost <= U64_MAX then c.lost else U64_MAX) && c.owed <= c.lost
  }

  lemma LoseCounts(c: Client, n: nat)
    requires Counted(c)
    ensures Counted(Lose(c, n))
  {
  }

  /** A handler in its loop, or just leaving it, that has counted its losses. */
  ghost predicate CountedOn(cfg: Config, d: Client) {
    Counted(d) && (InLoop(d.phase) || d.phase.Ending?) && (InLoop(d.phase) ==> d.dropped < Max1(cfg.dropThreshold))
  }

  lemma DeliverCounts(cfg: Config, c: Client, id: nat)
    requires Counted(c) && c.dropped < Max1(cfg.dropThreshold)
    ensures CountedOn(cfg, Deliver(cfg, c, id))
  {
    LoseCounts(c, 1);
  }

  lemma PongCounts(cfg: Config, c: Client, payload: string)
    requires CountedOn(cfg, c) && InLoop(c.phase)
    ensures CountedOn(cfg, LoopBody(cfg, c, GotPing(payload)))
  {
    LoseCounts(c, 1);
  }

  lemma LagCounts(cfg: Config, c: Client, skipped: nat)
    requires CountedOn(cfg, c) && InLoop(c.phase)
    ensures CountedOn(cfg, LoopBody(cfg, c, GotLag(skipped)))
  {
    LoseCounts(c.(cursor := c.cursor + skipped), skipped);
  }

  lemma EventCounts(cfg: Config, c: Client, id: nat, matches: bool)
    requires CountedOn(cfg, c) && InLoop(c.phase)
    ensures CountedOn(cfg, LoopBody(cfg, c, GotEvent(id, matches)))
  {
    var d := c.(cursor := c.cursor + 1);
    EventIsDelivery(cfg, c, id, matches, d);
    DeliverCounts(cfg, d, id);
  }

  lemma LoopBodyCounts(cfg: Config, c: Client, st: Stimulus)
    requires CountedOn(cfg, c) && InLoop(c.phase)
    ensures CountedOn(cfg, LoopBody(cfg, c, st))
  {
    match st
    case GotPing(payload) => PongCounts(cfg, c, payload);
    case GotEvent(id, matches) => EventCounts(cfg, c, id, matches);
    case GotLag(skipped) => LagCounts(cfg, c, skipped);
    case Beat(id) => DeliverCounts(cfg, c, id);
    case _ =>
  }

  /** Which stimulus an action is to the loop body. */
  ghost predicate Stimulates(cfg: Config, h: Hub, c: Client, a: Action, st: Stimulus) {
    match a
    case Receive(CloseFrame) => st == GotClose
    case Receive(PingFrame(payload)) => st == GotPing(payload)
    case Receive(OtherFrame) => st == GotOther
    case Receive(BadFrame) => st == GotError
    case ReceiveBroadcast => c.cursor <= |h.log| && Broadcasted(cfg, h, c) == Some(st)
    case SendHeartbeat => c.phase.Beating? && st == Beat(c.phase.heartbeat)
    case _ => false
  }

  predicate InBody(a: Action) { a.Receive? || a.ReceiveBroadcast? || a.SendHeartbeat? }

  lemma ActIsLoopBody(cfg: Config, h: Hub, c: Client, a: Action) returns (st: Stimulus)
    requires Enabled(cfg, h, c, a) && InBody(a)
    ensures Stimulates(cfg, h, c, a, st) && Act(cfg, h, c, a) == LoopBody(cfg, c, st) && InLoop(c.phase)
  {
    st := match a
    case Receive(CloseFrame) => GotClose
    case Receive(PingFrame(payload)) => GotPing(payload)
    case Receive(OtherFrame) => GotOther
    case Receive(BadFrame) => GotError
    case ReceiveBroadcast => Broadcasted(cfg, h, c).value
    case SendHeartbeat => Beat(c.phase.heartbeat);
  }

  lemma CountKept(cfg: Config, h: Hub, i: nat, c: Client, a: Action)
    requires Enabled(cfg, h, c, a) && CountInv(cfg, c) && SnapshotInv(h, i, c)
    ensures CountInv(cfg, Act(cfg, h, c, a))
  {
    if InBody(a) {
      var st := ActIsLoopBody(cfg, h, c, a);
      LoopBodyCounts(cfg, c, st);
    } else if a.Open? {
      DeliverCounts(cfg, c, c.phase.snapshot);
    } else {
      OutsideBodyCounts(cfg, h, c, a);
    }
  }

  lemma OutsideBodyCounts(cfg: Config, h: Hub, c: Client, a: Action)
    requires Enabled(cfg, h, c, a) && !InBody(a) && !a.Open? && CountInv(cfg, c)
    ensures CountInv(cfg, Act(cfg, h, c, a))
  {
  }

  lemma EventCountAppend(messages: seq<Message>, m: Message)
    ensures EventCount(messages + [m]) == EventCount(messages) + (if m.Event? then 1 else 0)
  {
    assert (messages + [m])[..|messages|] == messages;
  }

  lemma DeliverCountsSent(cfg: Config, c: Client, id: nat)
    requires SentInv(c)
    ensures SentInv(Deliver(cfg, c, id))
  {
    EventCountAppend(c.enqueued, Event(id));
  }

  lemma LoopBodyCountsSent(cfg: Config, c: Client, st: Stimulus)
    requires SentInv(c)
    ensures SentInv(LoopBody(cfg, c, st))
  {
    match st
    case GotPing(payload) => PongCountsSent(cfg, c, payload);
    case GotEvent(id, matches) => EventCountsSent(cfg, c, id, matches);
    case GotLag(skipped) => LagCountsSent(cfg, c, skipped);
    case Beat(id) => DeliverCountsSent(cfg, c, id);
    case _ =>
  }

  lemma EventCountsSent(cfg: Config, c: Client, id: nat, matches: bool)
    requires SentInv(c)
    ensures SentInv(LoopBody(cfg, c, GotEvent(id, matches)))
  {
    var d := c.(cursor := c.cursor + 1);
    EventIsDelivery(cfg, c, id, matches, d);
    DeliverCountsSent(cfg, d, id);
  }

  lemma EventIsDelivery(cfg: Config, c: Client, id: nat, matches: bool, d: Client)
    requires d == c.(cursor := c.cursor + 1)
    ensures LoopBody(cfg, c, GotEvent(id, matches)) == if matches then Deliver(cfg, d, id) else d
  {
  }

  lemma LagCountsSent(cfg: Config, c: Client, skipped: nat)
    requires SentInv(c)
    ensures SentInv(LoopBody(cfg, c, GotLag(skipped)))
  {
  }

  lemma PongCountsSent(cfg: Config, c: Client, payload: string)
    requires SentInv(c)
    ensures SentInv(LoopBody(cfg, c, GotPing(payload)))
  {
    EventCountAppend(c.enqueued, Pong(payload));
  }

  lemma SentKept(cfg: Config, h: Hub, c: Client, a: Action)
    requires Enabled(cfg, h, c, a) && SentInv(c)
    ensures SentInv(Act(cfg, h, c, a))
  {
    if InBody(a) {
      var st := ActIsLoopBody(cfg, h, c, a);
      LoopBodyCountsSent(cfg, c, st);
    } else if a.Open? {
      DeliverCountsSent(cfg, c, c.phase.snapshot);
    } else if a.QueueClose? {
      EventCountAppend(c.enqueued, Close(c.phase.reason));
    } else {
      NothingSent(cfg, h, c, a);
    }
  }

  lemma NothingSent(cfg: Config, h: Hub, c: Client, a: Action)
    requires Enabled(cfg, h, c, a)
    requires !a.Open? && !a.SendHeartbeat? && !a.Receive? && !a.ReceiveBroadcast? && !a.QueueClose?
    ensures var d := Act(cfg, h, c, a);
            d.enqueued == c.enqueued && d.lost == c.lost && d.tolerated == c.tolerated && d.sent == c.sent
  {
  }

  /** What a handler enqueues is allowed, and was not enqueued before. */
  lemma AddedIsNew(cfg: Config, h: Hub, i: nat, c: Client, a: Action)
    requires Enabled(cfg, h, c, a) && HubInv(h) && IdInv(h, i, c) && SnapshotInv(h, i, c)
    ensures c.cursor <= Act(cfg, h, c, a).cursor <= |h.log|
    ensures forall m | m in Added(cfg, h, c, a) ::
              MayEnqueue(h, i, Act(cfg, h, c, a).cursor, m) && (m.Event? ==> m !in c.enqueued)
  {
    CursorMoves(cfg, h, c, a);
    var added := Added(cfg, h, c, a);
    if added != [] && added[0].Event? {
      if a.ReceiveBroadcast? {
        ReceivedIsNew(h, i, c);
      } else {
        OwnIsNew(cfg, h, i, c, a);
      }
    }
  }

  lemma CursorMoves(cfg: Config, h: Hub, c: Client, a: Action)
    requires Enabled(cfg, h, c, a) && c.cursor <= |h.log|
    ensures c.cursor <= Act(cfg, h, c, a).cursor <= |h.log|
    ensures a.ReceiveBroadcast? && Broadcasted(cfg, h, c).value.GotEvent? ==>
              c.cursor < |h.log| && Act(cfg, h, c, a).cursor == c.cursor + 1
  {
    if InBody(a) {
      var st := ActIsLoopBody(cfg, h, c, a);
    }
  }

  lemma ReceivedIsNew(h: Hub, i: nat, c: Client)
    requires HubInv(h) && IdInv(h, i, c) && c.cursor < |h.log|
    ensures MayEnqueue(h, i, c.cursor + 1, Event(h.log[c.cursor])) && Event(h.log[c.cursor]) !in c.enqueued
  {
    var id := h.log[c.cursor];
    assert id in h.log && id in h.log[..c.cursor + 1] && id !in h.log[..c.cursor];
  }

  lemma OwnIsNew(cfg: Config, h: Hub, i: nat, c: Client, a: Action)
    requires Enabled(cfg, h, c, a) && IdInv(h, i, c) && SnapshotInv(h, i, c) && !a.ReceiveBroadcast?
    ensures forall m | m in Added(cfg, h, c, a) && m.Event? ::
              MayEnqueue(h, i, Act(cfg, h, c, a).cursor, m) && m !in c.enqueued
  {
    CursorMoves(cfg, h, c, a);
  }

  lemma MessagesKept(h: Hub, h': Hub, i: nat, from: nat, to: nat, messages: seq<Message>, added: seq<Message>)
    requires h.issued <= h'.issued && h.log <= h'.log && from <= to <= |h.log| && from <= |h.log|
    requires forall k | 0 <= k < |messages| :: MayEnqueue(h, i, from, messages[k])
    requires NoEventTwice(messages) && |added| <= 1
    requires forall m | m in added :: MayEnqueue(h, i, to, m) && (m.Event? ==> m !in messages)
    ensures forall k | 0 <= k < |messages + added| :: MayEnqueue(h', i, to, (messages + added)[k])
    ensures NoEventTwice(messages + added)
  {
    assert h.log[..from] <= h'.log[..to] && h.log[..to] == h'.log[..to];
    var all := messages + added;
    forall k | 0 <= k < |all| ensures MayEnqueue(h', i, to, all[k]) {
      if k < |messages| {
        assert MayEnqueue(h, i, from, messages[k]);
      } else {
        assert all[k] in added;
      }
    }
    forall j, k | 0 <= j < k < |all| && all[j].Event? ensures all[j] != all[k] {
      if k >= |messages| {
        assert all[k] in added && all[j] in messages;
      }
    }
  }

  lemma TakenKept(cfg: Config, h: Hub, i: nat, c: Client, a: Action)
    requires Enabled(cfg, h, c, a) && IdInv(h, i, c)
    ensures TakenInv(ActHub(h, i, a), i, Act(cfg, h, c, a))
  {
    match a
    case Receive(frame) =>
    case ReceiveBroadcast =>
    case _ =>
  }

  lemma IdsStay(h: Hub, h': Hub, i: nat, c: Client, d: Client, added: seq<Message>)
    requires h.issued <= h'.issued && h.log == h'.log && IdInv(h, i, c) && TakenInv(h', i, d)
    requires c.cursor <= d.cursor <= |h.log| && d.enqueued == c.enqueued + added && |added| <= 1
    requires forall m | m in added :: MayEnqueue(h, i, d.cursor, m) && (m.Event? ==> m !in c.enqueued)
    ensures IdInv(h', i, d)
  {
    MessagesKept(h, h', i, c.cursor, d.cursor, c.enqueued, added);
  }

  lemma WriterKeepsIds(cfg: Config, h: Hub, i: nat, c: Client, a: Action)
    requires Enabled(cfg, h, c, a) && IdInv(h, i, c) && ByWriter(a)
    ensures IdInv(ActHub(h, i, a), i, Act(cfg, h, c, a))
  {
    TakenKept(cfg, h, i, c, a);
    assert c.enqueued + [] == c.enqueued;
    IdsStay(h, h, i, c, Act(cfg, h, c, a), []);
  }

  lemma HandlerKeepsIds(cfg: Config, h: Hub, i: nat, c: Client, a: Action)
    requires Enabled(cfg, h, c, a) && HubInv(h) && IdInv(h, i, c) && SnapshotInv(h, i, c) && !ByWriter(a)
    ensures IdInv(ActHub(h, i, a), i, Act(cfg, h, c, a))
  {
    ActHubGrows(h, i, a);
    TakenKept(cfg, h, i, c, a);
    AddedIsNew(cfg, h, i, c, a);
    HandlerShape(cfg, h, c, a);
    IdsStay(h, ActHub(h, i, a), i, c, Act(cfg, h, c, a), Added(cfg, h, c, a));
  }

  lemma IdKept(cfg: Config, h: Hub, i: nat, c: Client, a: Action)
    requires Enabled(cfg, h, c, a) && HubInv(h) && IdInv(h, i, c) && SnapshotInv(h, i, c)
    ensures IdInv(ActHub(h, i, a), i, Act(cfg, h, c, a))
  {
    if ByWriter(a) {
      WriterKeepsIds(cfg, h, i, c, a);
    } else {
      HandlerKeepsIds(cfg, h, i, c, a);
    }
  }

  /** New numbers and new log entries do not change what a client got or should have got. */
  lemma DeliveryGrows(h: Hub, h': Hub, i: nat, c: Client)
    requires HubInv(h) && IdInv(h, i, c) && DeliveryInv(h, c)
    requires h.issued <= h'.issued && h.log <= h'.log
    ensures DeliveryInv(h', c)
  {
    ExpectedStays(h, h', c);
    forall k | 0 <= k < |c.enqueued| && c.enqueued[k].Event? ensures c.enqueued[k].id < |h.issued| {
      assert MayEnqueue(h, i, c.cursor, c.enqueued[k]);
    }
    DeliveredMonotone(h.issued, h'.issued, c.enqueued);
  }

  lemma ExpectedStays(h: Hub, h': Hub, c: Client)
    requires HubInv(h) && c.subscribedAt <= c.cursor <= |h.log|
    requires h.issued <= h'.issued && h.log <= h'.log
    ensures Expected(h', c) == Expected(h, c)
  {
    var seen := h.log[c.subscribedAt..c.cursor];
    assert h'.log[c.subscribedAt..c.cursor] == seen;
    forall k | 0 <= k < |seen| ensures seen[k] < |h.issued| {
      assert seen[k] in h.log;
    }
    MatchingMonotone(h.issued, h'.issued, c.filter, seen);
  }

  /** The next event of the log is enqueued, or not wanted, or counted as lost, or ends the connection. */
  lemma ReceivedIsAccountedFor(cfg: Config, h: Hub, c: Client)
    requires HubInv(h) && DeliveryInv(h, c)
    requires Enabled(cfg, h, c, ReceiveBroadcast) && Broadcasted(cfg, h, c).value.GotEvent?
    ensures DeliveryInv(h, Act(cfg, h, c, ReceiveBroadcast))
  {
    var d := Act(cfg, h, c, ReceiveBroadcast);
    var id := h.log[c.cursor];
    ReceivedShape(cfg, h, c);
    assert h.log[c.subscribedAt..d.cursor] == h.log[c.subscribedAt..c.cursor] + [id];
    MatchingAppend(h.issued, c.filter, h.log[c.subscribedAt..c.cursor], id);
    DeliveredAppend(h.issued, c.enqueued, Event(id));
    var expected, delivered := Expected(h, c), Delivered(h.issued, c.enqueued);
    if c.filter.Matches(h.issued[id].envelope) {
      assert Expected(h, d) == expected + [id];
      SubsequenceSkips(delivered, expected, id);
      SubsequenceTakes(delivered, expected, id);
    } else {
      assert Expected(h, d) == expected + [] == expected;
    }
  }

  lemma ReceivedShape(cfg: Config, h: Hub, c: Client)
    requires HubInv(h)
    requires Enabled(cfg, h, c, ReceiveBroadcast) && Broadcasted(cfg, h, c).value.GotEvent?
    ensures var d := Act(cfg, h, c, ReceiveBroadcast);
            var id := h.log[c.cursor];
            && id < |h.issued| && h.issued[id].owner == Broadcast
            && d.cursor == c.cursor + 1 && d.subscribedAt == c.subscribedAt && d.filter == c.filter
            && !BeforeOpen(d.phase) && InLoop(c.phase)
            && (if c.filter.Matches(h.issued[id].envelope)
                then (d.enqueued == c.enqueued + [Event(id)] && d.lost == c.lost)
                     || (d.enqueued == c.enqueued && (d.lost == c.lost + 1 || !InLoop(d.phase)))
                else d.enqueued == c.enqueued && d.lost == c.lost)
  {
    assert h.log[c.cursor] in h.log;
  }

  lemma LagIsAccountedFor(cfg: Config, h: Hub, c: Client)
    requires HubInv(h) && DeliveryInv(h, c)
    requires Enabled(cfg, h, c, ReceiveBroadcast) && Broadcasted(cfg, h, c).value.GotLag?
    ensures DeliveryInv(h, Act(cfg, h, c, ReceiveBroadcast))
  {
    var d := Act(cfg, h, c, ReceiveBroadcast);
    LagShape(cfg, h, c);
    var more := h.log[c.cursor..d.cursor];
    assert h.log[c.subscribedAt..d.cursor] == h.log[c.subscribedAt..c.cursor] + more;
    MatchingSkips(h.issued, c.filter, Delivered(h.issued, c.enqueued), h.log[c.subscribedAt..c.cursor], more);
  }

  lemma LagShape(cfg: Config, h: Hub, c: Client)
    requires Enabled(cfg, h, c, ReceiveBroadcast) && Broadcasted(cfg, h, c).value.GotLag?
    ensures var d := Act(cfg, h, c, ReceiveBroadcast);
            && c.cursor <= d.cursor <= |h.log| && d.lost == c.lost + (d.cursor - c.cursor)
            && d.subscribedAt == c.subscribedAt && d.filter == c.filter && d.enqueued == c.enqueued
            && InLoop(c.phase)
  {
  }

  /** Nothing else a handler or its writer does touches broadcast events. */
  lemma OthersDeliverNothing(cfg: Config, h: Hub, i: nat, c: Client, a: Action)
    requires Enabled(cfg, h, c, a) && DeliveryInv(h, c) && TakenInv(h, i, c)
    requires !a.ReceiveBroadcast? && !a.Subscribe?
    ensures DeliveryInv(h, Act(cfg, h, c, a))
  {
    var d := Act(cfg, h, c, a);
    OtherShape(cfg, h, c, a);
    if d.enqueued != c.enqueued {
      HandlerShape(cfg, h, c, a);
      var added := Added(cfg, h, c, a);
      assert added == [added[0]];
      DeliveredAppend(h.issued, c.enqueued, added[0]);
      assert Delivered(h.issued, c.enqueued) + [] == Delivered(h.issued, c.enqueued);
    }
  }

  lemma OtherShape(cfg: Config, h: Hub, c: Client, a: Action)
    requires Enabled(cfg, h, c, a) && !a.ReceiveBroadcast? && !a.Subscribe?
    ensures var d := Act(cfg, h, c, a);
            && d.subscribedAt == c.subscribedAt && d.cursor == c.cursor && d.filter == c.filter && d.lost >= c.lost
            && (BeforeOpen(d.phase) || InLoop(d.phase) ==> BeforeOpen(c.phase) || InLoop(c.phase))
            && (ByWriter(a) ==> d.enqueued == c.enqueued)
  {
    match a
    case Receive(frame) =>
    case _ =>
  }

  lemma DeliveryKept(cfg: Config, h: Hub, i: nat, c: Client, a: Action)
    requires Enabled(cfg, h, c, a) && HubInv(h) && ClientInv(cfg, h, i, c)
    ensures DeliveryInv(h, Act(cfg, h, c, a))
  {
    if a.ReceiveBroadcast? {
      match Broadcasted(cfg, h, c).value
      case GotEvent(_, _) => ReceivedIsAccountedFor(cfg, h, c);
      case GotLag(_) => LagIsAccountedFor(cfg, h, c);
      case _ =>
    } else if a.Subscribe? {
      assert h.log[|h.log|..|h.log|] == [];
    } else {
      OthersDeliverNothing(cfg, h, i, c, a);
    }
  }

  // ---------------------------------------------------------------- the invariant of the system

  /** The invariant of a client survives whatever the rest of the system does. */
  lemma ClientUntouched(cfg: Config, h: Hub, h': Hub, i: nat, c: Client)
    requires HubInv(h) && ClientInv(cfg, h, i, c) && h.issued <= h'.issued && h.log <= h'.log
    ensures ClientInv(cfg, h', i, c)
  {
    IdUntouched(h, h', i, c);
    DeliveryGrows(h, h', i, c);
    assert SnapshotInv(h', i, c);
  }

  lemma IdUntouched(h: Hub, h': Hub, i: nat, c: Client)
    requires IdInv(h, i, c) && h.issued <= h'.issued && h.log <= h'.log
    ensures IdInv(h', i, c)
  {
    MessagesKept(h, h', i, c.cursor, c.cursor, c.enqueued, []);
    assert c.enqueued + [] == c.enqueued;
  }

  lemma ClientKept(cfg: Config, h: Hub, i: nat, c: Client, a: Action)
    requires Enabled(cfg, h, c, a) && HubInv(h) && ClientInv(cfg, h, i, c)
    ensures ClientInv(cfg, ActHub(h, i, a), i, Act(cfg, h, c, a))
  {
    var d := Act(cfg, h, c, a);
    WireKept(cfg, h, c, a);
    SnapshotKept(cfg, h, i, c, a);
    CloseKept(cfg, h, c, a);
    QueueKept(cfg, h, c, a);
    EndKept(cfg, h, c, a);
    CountKept(cfg, h, i, c, a);
    IdKept(cfg, h, i, c, a);
    DeliveryKept(cfg, h, i, c, a);
    SentKept(cfg, h, c, a);
    DeliveryCarried(cfg, h, i, c, a);
  }

  lemma DeliveryCarried(cfg: Config, h: Hub, i: nat, c: Client, a: Action)
    requires Enabled(cfg, h, c, a) && HubInv(h) && IdInv(h, i, c) && DeliveryInv(h, Act(cfg, h, c, a))
    ensures DeliveryInv(ActHub(h, i, a), Act(cfg, h, c, a))
  {
    if a.TakeSnapshot? || a.TakeHeartbeat? {
      DeliveryGrows(h, ActHub(h, i, a), i, c);
    }
  }

  function CountsConnected(c: Client): nat { if c.phase.Accepted? then 0 else 1 }
  function CountsFinished(c: Client): nat { if c.phase.Done? then 1 else 0 }
  function CountsLive(c: Client): nat { if c.phase.Accepted? || c.phase.Done? then 0 else 1 }
  function CountsReported(c: Client): nat { if c.owed <= c.lost then c.lost - c.owed else 0 }

  ghost predicate CountersInv(s: State) {
    && s.counters.connected == Wrap(Sum(s.clients, CountsConnected))
    && s.counters.disconnected == Wrap(Sum(s.clients, CountsFinished))
    && s.counters.dropped == Wrap(Sum(s.clients, CountsReported))
  }

  ghost predicate Inv(s: State) {
    && HubInv(s.hub)
    && (forall i | 0 <= i < |s.clients| :: ClientInv(s.cfg, s.hub, i, s.clients[i]))
    && CountersInv(s)
  }

  /** Changing one client by `more` changes the sum, and the counter that follows it, by `more`. */
  lemma SumFollows(clients: seq<Client>, i: nat, d: Client, f: Client -> nat, more: nat)
    requires i < |clients| && f(d) == f(clients[i]) + more
    ensures Wrap(Sum(clients[i := d], f)) == Wrap(Wrap(Sum(clients, f)) + more)
  {
    SumUpdate(clients, i, d, f);
    WrapSteps(Sum(clients, f), more);
  }

  lemma CountersKept(s: State, i: nat, a: Action)
    requires CountersInv(s) && i < |s.clients| && Enabled(s.cfg, s.hub, s.clients[i], a)
    requires s.clients[i].owed <= s.clients[i].lost
    ensures CountersInv(Apply(s, ClientStep(i, a)))
  {
    var c := s.clients[i];
    var d := Act(s.cfg, s.hub, c, a);
    OneActionCounts(s.cfg, s.hub, c, a);
    SumsFollow(s, i, d, a);
    ClientStepEffect(s, i, a);
  }

  lemma SumsFollow(s: State, i: nat, d: Client, a: Action)
    requires CountersInv(s) && i < |s.clients|
    requires var c := s.clients[i];
             && CountsConnected(d) == CountsConnected(c) + (if a.Connect? then 1 else 0)
             && CountsFinished(d) == CountsFinished(c) + (if a.Finish? then 1 else 0)
             && CountsReported(d) == CountsReported(c) + (if a.AddDropped? then c.owed else 0)
    ensures var k := ActCounters(s.counters, s.clients[i], a);
            && k.connected == Wrap(Sum(s.clients[i := d], CountsConnected))
            && k.disconnected == Wrap(Sum(s.clients[i := d], CountsFinished))
            && k.dropped == Wrap(Sum(s.clients[i := d], CountsReported))
  {
    CountersFollow(s.counters, s.clients[i], a);
    CounterFollows(s.counters.connected, s.clients, i, d, CountsConnected, if a.Connect? then 1 else 0);
    CounterFollows(s.counters.disconnected, s.clients, i, d, CountsFinished, if a.Finish? then 1 else 0);
    CounterFollows(s.counters.dropped, s.clients, i, d, CountsReported, if a.AddDropped? then s.clients[i].owed else 0);
  }

  lemma CounterFollows(counter: U64, clients: seq<Client>, i: nat, d: Client, f: Client -> nat, more: nat)
    requires i < |clients| && f(d) == f(clients[i]) + more && counter == Wrap(Sum(clients, f))
    ensures Wrap(counter + more) == Wrap(Sum(clients[i := d], f))
  {
    SumFollows(clients, i, d, f, more);
  }

  lemma ClientStepEffect(s: State, i: nat, a: Action)
    requires i < |s.clients| && Enabled(s.cfg, s.hub, s.clients[i], a)
    ensures Apply(s, ClientStep(i, a)).clients == s.clients[i := Act(s.cfg, s.hub, s.clients[i], a)]
    ensures Apply(s, ClientStep(i, a)).counters == ActCounters(s.counters, s.clients[i], a)
    ensures Apply(s, ClientStep(i, a)).hub == ActHub(s.hub, i, a)
  {
  }

  lemma CountersFollow(k: Counters, c: Client, a: Action)
    ensures var k' := ActCounters(k, c, a);
            && k'.connected == Wrap(k.connected + if a.Connect? then 1 else 0)
            && k'.disconnected == Wrap(k.disconnected + if a.Finish? then 1 else 0)
            && k'.dropped == Wrap(k.dropped + if a.AddDropped? then c.owed else 0)
  {
  }

  lemma OneActionCounts(cfg: Config, h: Hub, c: Client, a: Action)
    requires Enabled(cfg, h, c, a) && c.owed <= c.lost
    ensures var d := Act(cfg, h, c, a);
            && CountsConnected(d) == CountsConnected(c) + (if a.Connect? then 1 else 0)
            && CountsFinished(d) == CountsFinished(c) + (if a.Finish? then 1 else 0)
            && CountsReported(d) == CountsReported(c) + (if a.AddDropped? then c.owed else 0)
  {
    if InBody(a) {
      var st := ActIsLoopBody(cfg, h, c, a);
      LoopBodyReports(cfg, c, st);
    }
  }

  /** In the loop losses are counted, and reported later. */
  ghost predicate ReportsLater(c: Client, d: Client) {
    d.owed <= d.lost && d.lost - d.owed == c.lost - c.owed && (InLoop(d.phase) || d.phase.Ending?)
  }

  lemma DeliverReports(cfg: Config, c: Client, id: nat)
    requires c.owed <= c.lost
    ensures ReportsLater(c, Deliver(cfg, c, id))
  {
  }

  lemma LoopBodyReports(cfg: Config, c: Client, st: Stimulus)
    requires InLoop(c.phase) && c.owed <= c.lost
    ensures ReportsLater(c, LoopBody(cfg, c, st))
  {
    match st
    case GotEvent(id, matches) =>
      EventIsDelivery(cfg, c, id, matches, c.(cursor := c.cursor + 1));
      DeliverReports(cfg, c.(cursor := c.cursor + 1), id);
    case Beat(id) => DeliverReports(cfg, c, id);
    case _ =>
  }

  lemma HubKept(s: State, step: Step)
    requires HubInv(s.hub)
    ensures HubInv(Apply(s, step).hub)
    ensures s.hub.issued <= Apply(s, step).hub.issued && s.hub.log <= Apply(s, step).hub.log
  {
    var h := s.hub;
    var h' := Apply(s, step).hub;
    WrapSteps(|h.issued|, 1);
    if step.SendPending? && h'.log != h.log {
      assert step.id !in h.log;
    }
  }

  lemma ClientsKept(s: State, step: Step, i: nat)
    requires HubInv(s.hub) && i < |Apply(s, step).clients|
    requires i < |s.clients| ==> ClientInv(s.cfg, s.hub, i, s.clients[i])
    ensures ClientInv(s.cfg, Apply(s, step).hub, i, Apply(s, step).clients[i])
  {
    if i < |s.clients| {
      if Acts(s, step, i) {
        ActingClientKept(s, i, step.action);
      } else {
        HubKept(s, step);
        BystanderUnchanged(s, step, i);
        ClientUntouched(s.cfg, s.hub, Apply(s, step).hub, i, s.clients[i]);
      }
    } else {
      assert step.Arrive? && Apply(s, step).clients[i] == NewClient(step.filter);
      NewClientInv(s.cfg, s.hub, i, step.filter);
    }
  }

  /** The step is an enabled action of client `i`. */
  ghost predicate Acts(s: State, step: Step, i: nat)
    requires i < |s.clients|
  {
    step.ClientStep? && step.client == i && Enabled(s.cfg, s.hub, s.clients[i], step.action)
  }

  lemma BystanderUnchanged(s: State, step: Step, i: nat)
    requires i < |s.clients| && !Acts(s, step, i)
    ensures i < |Apply(s, step).clients| && Apply(s, step).clients[i] == s.clients[i]
  {
  }

  lemma ActingClientKept(s: State, i: nat, a: Action)
    requires HubInv(s.hub) && i < |s.clients| && Enabled(s.cfg, s.hub, s.clients[i], a)
    requires ClientInv(s.cfg, s.hub, i, s.clients[i])
    ensures i < |Apply(s, ClientStep(i, a)).clients|
    ensures ClientInv(s.cfg, Apply(s, ClientStep(i, a)).hub, i, Apply(s, ClientStep(i, a)).clients[i])
  {
    ClientKept(s.cfg, s.hub, i, s.clients[i], a);
    ClientStepEffect(s, i, a);
  }

  lemma NewClientInv(cfg: Config, h: Hub, i: nat, filter: Filter)
    ensures ClientInv(cfg, h, i, NewClient(filter))
  {
    assert h.log[0..0] == [];
  }

  lemma StepKeeps(s: State, step: Step)
    requires Inv(s)
    ensures Inv(Apply(s, step))
  {
    var t := Apply(s, step);
    HubKept(s, step);
    forall i | 0 <= i < |t.clients| ensures ClientInv(t.cfg, t.hub, i, t.clients[i]) {
      ClientsKept(s, step, i);
    }
    SystemCountersKept(s, step);
  }

  lemma SystemCountersKept(s: State, step: Step)
    requires CountersInv(s)
    requires forall i | 0 <= i < |s.clients| :: s.clients[i].owed <= s.clients[i].lost
    ensures CountersInv(Apply(s, step))
  {
    match step
    case Arrive(filter) =>
      SumAppend(s.clients, NewClient(filter), CountsConnected);
      SumAppend(s.clients, NewClient(filter), CountsFinished);
      SumAppend(s.clients, NewClient(filter), CountsReported);
    case ClientStep(i, a) =>
      if i < |s.clients| && Enabled(s.cfg, s.hub, s.clients[i], a) {
        CountersKept(s, i, a);
      }
    case _ =>
  }

  lemma InitInv(cfg: Config)
    ensures Inv(Init(cfg))
  {
  }

  lemma {:induction false} RunKeeps(cfg: Config, steps: seq<Step>)
    ensures Inv(Run(Init(cfg), steps)) && Run(Init(cfg), steps).cfg == cfg
  {
    if steps == [] {
      InitInv(cfg);
    } else {
      RunKeeps(cfg, steps[..|steps| - 1]);
      LastStepKeeps(Run(Init(cfg), steps[..|steps| - 1]), steps[|steps| - 1]);
    }
  }

  lemma LastStepKeeps(s: State, step: Step)
    requires Inv(s)
    ensures Inv(Apply(s, step)) && Apply(s, step).cfg == s.cfg
  {
    StepKeeps(s, step);
  }

  // ---------------------------------------------------------------- runs

  lemma RunUpTo(s: State, steps: seq<Step>)
    requires |steps| <= 4
    ensures |steps| == 1 ==> Run(s, steps) == Apply(s, steps[0])
    ensures |steps| == 2 ==> Run(s, steps) == Apply(Apply(s, steps[0]), steps[1])
    ensures |steps| == 3 ==> Run(s, steps) == Apply(Apply(Apply(s, steps[0]), steps[1]), steps[2])
    ensures |steps| == 4 ==> Run(s, steps) == Apply(Apply(Apply(Apply(s, steps[0]), steps[1]), steps[2]), steps[3])
  {
    if |steps| > 0 {
      RunUpTo(s, steps[..|steps| - 1]);
    }
  }

  lemma {:induction false} RunConcat(s: State, a: seq<Step>, b: seq<Step>)
    ensures Run(s, a + b) == Run(Run(s, a), b)
    decreases |b|
  {
    if b == [] {
      assert a + b == a;
    } else {
      var n := |b| - 1;
      assert (a + b)[..|a + b| - 1] == a + b[..n];
      RunConcat(s, a, b[..n]);
    }
  }

  // ---------------------------------------------------------------- what every run guarantees

  /** Some run leads to `s`. */
  ghost predicate Reachable(cfg: Config, s: State) {
    exists steps: seq<Step> :: s == Run(Init(cfg), steps)
  }

  lemma RunStaysReachable(cfg: Config, s: State, steps: seq<Step>)
    requires Reachable(cfg, s)
    ensures Reachable(cfg, Run(s, steps))
  {
    var before: seq<Step> :| s == Run(Init(cfg), before);
    RunConcat(Init(cfg), before, steps);
  }

  lemma ReachableInv(cfg: Config, s: State)
    requires Reachable(cfg, s)
    ensures Inv(s) && s.cfg == cfg
  {
    var steps: seq<Step> :| s == Run(Init(cfg), steps);
    RunKeeps(cfg, steps);
  }

  lemma ReachableCounters(cfg: Config, s: State)
    requires Reachable(cfg, s)
    ensures CountersInv(s)
  {
    ReachableInv(cfg, s);
  }

  lemma ReachableClient(cfg: Config, s: State, i: nat)
    requires Reachable(cfg, s) && i < |s.clients|
    ensures HubInv(s.hub) && ClientInv(cfg, s.hub, i, s.clients[i])
  {
    ReachableInv(cfg, s);
  }

  /**
   The socket sees a prefix of what was enqueued, in order. The first message, enqueued or on the wire,
   is this client's snapshot. A close frame is the last message of all, so there is at most one.
   */
  lemma WireProtocol(cfg: Config, s: State, i: nat)
    requires Reachable(cfg, s) && i < |s.clients|
    ensures var c := s.clients[i];
            && c.wire <= c.enqueued
            && (c.enqueued != [] ==> c.enqueued[0].Event? && IsSnapshotOf(s.hub, i, c.enqueued[0].id))
            && (c.wire != [] ==> c.wire[0].Event? && IsSnapshotOf(s.hub, i, c.wire[0].id))
            && (forall k | 0 <= k < |c.enqueued| && c.enqueued[k].Close? :: k == |c.enqueued| - 1)
            && (forall k | 0 <= k < |c.wire| && c.wire[k].Close? :: k == |c.wire| - 1 == |c.enqueued| - 1)
  {
    ReachableClient(cfg, s, i);
    var c := s.clients[i];
    forall k | 0 <= k < |c.wire| ensures c.wire[k] == c.enqueued[k] {
    }
  }

  /** The queue is empty and the writer alive when the snapshot is enqueued, so enqueuing it never fails. */
  lemma OpeningSucceeds(cfg: Config, s: State, i: nat)
    requires Reachable(cfg, s) && i < |s.clients| && s.clients[i].phase.Opening?
    ensures var d := Apply(s, ClientStep(i, Open)).clients[i];
            d.phase == Running && d.enqueued == [Event(s.clients[i].phase.snapshot)]
  {
    ReachableClient(cfg, s, i);
    SnapshotFits(s.cfg, s.hub, i, s.clients[i]);
    ClientStepEffect(s, i, Open);
  }

  lemma SnapshotFits(cfg: Config, h: Hub, i: nat, c: Client)
    requires SnapshotInv(h, i, c) && c.phase.Opening?
    ensures var d := Act(cfg, h, c, Open); d.phase == Running && d.enqueued == [Event(c.phase.snapshot)]
  {
    assert TrySend(cfg, c).Accepts? && [] + [Event(c.phase.snapshot)] == [Event(c.phase.snapshot)];
  }

  /**
   The broadcasts on the queue are the filter-matching events the hub sent since the client subscribed, up to
   its cursor, in hub order, with at most `dropped` missing; `dropped` is below the threshold, so with a
   threshold of 0 or 1 none is missing.
   */
  ghost predicate DeliversInOrder(cfg: Config, h: Hub, c: Client) {
    && c.subscribedAt <= c.cursor <= |h.log|
    && Subsequence(Delivered(h.issued, c.enqueued), Expected(h, c))
    && |Expected(h, c)| <= |Delivered(h.issued, c.enqueued)| + c.dropped
    && c.dropped < Max1(cfg.dropThreshold)
    && (cfg.dropThreshold <= 1 ==> Delivered(h.issued, c.enqueued) == Expected(h, c))
  }

  /** While a handler's loop goes on, this is so, for every interleaving. */
  lemma DeliveredInOrder(cfg: Config, s: State, i: nat)
    requires cfg.dropThreshold <= U64_MAX
    requires Reachable(cfg, s) && i < |s.clients| && InLoop(s.clients[i].phase)
    ensures DeliversInOrder(cfg, s.hub, s.clients[i])
  {
    ReachableClient(cfg, s, i);
    SubsequenceLength(Delivered(s.hub.issued, s.clients[i].enqueued), Expected(s.hub, s.clients[i]));
  }

  lemma {:induction false} SubsequenceElements<T>(xs: seq<T>, ys: seq<T>)
    requires Subsequence(xs, ys)
    ensures forall x | x in xs :: x in ys
    decreases |ys|
  {
    if xs != [] {
      var m, n := |xs| - 1, |ys| - 1;
      assert xs == xs[..m] + [xs[m]] && ys == ys[..n] + [ys[n]];
      if xs[m] == ys[n] && Subsequence(xs[..m], ys[..n]) {
        SubsequenceElements(xs[..m], ys[..n]);
      } else {
        SubsequenceElements(xs, ys[..n]);
      }
    }
  }

  lemma {:induction false} MatchingElements(issued: seq<Issued>, f: Filter, ids: seq<nat>, id: nat)
    ensures id in Matching(issued, f, ids) <==> id in ids && id < |issued| && f.Matches(issued[id].envelope)
    decreases |ids|
  {
    if ids != [] {
      var n := |ids| - 1;
      MatchingElements(issued, f, ids[..n], id);
      assert ids == ids[..n] + [ids[n]];
    }
  }

  lemma {:induction false} DeliveredElements(issued: seq<Issued>, messages: seq<Message>, id: nat)
    ensures id in Delivered(issued, messages)
            <==> Event(id) in messages && id < |issued| && issued[id].owner == Broadcast
    decreases |messages|
  {
    if messages != [] {
      var n := |messages| - 1;
      DeliveredElements(issued, messages[..n], id);
      assert messages == messages[..n] + [messages[n]];
    }
  }

  /** Each of the three constraints that is not empty is met; without an issue, no constraint on issues is. */
  ghost predicate Meets(f: Filter, b: Body) {
    && (f.issues != {} ==> exists name | name in f.issues :: b.issue == Some(name))
    && (f.kinds != {} ==> exists kind | kind in f.kinds :: b.kind == kind)
    && (f.severities != {} ==> exists severity | severity in f.severities :: b.severity == severity)
  }

  lemma MatchesMeans(f: Filter, e: Envelope)
    ensures f.Matches(e) <==> Meets(f, e.body)
  {
  }

  /** What a client has passed of the log. */
  ghost function Passed(h: Hub, c: Client): seq<nat>
    requires c.subscribedAt <= c.cursor <= |h.log|
  {
    h.log[c.subscribedAt..c.cursor]
  }

  lemma DeliveredWasPassed(h: Hub, c: Client, id: nat)
    requires DeliveryInv(h, c) && Event(id) in c.enqueued && id < |h.issued| && h.issued[id].owner == Broadcast
    ensures id in Passed(h, c) && Meets(c.filter, h.issued[id].envelope.body)
  {
    DeliveredElements(h.issued, c.enqueued, id);
    SubsequenceElements(Delivered(h.issued, c.enqueued), Expected(h, c));
    MatchingElements(h.issued, c.filter, Passed(h, c), id);
    MatchesMeans(c.filter, h.issued[id].envelope);
  }

  /** A broadcast a client was ever given is one it passed after it subscribed, and meets its filter. */
  lemma DeliveredMeetFilter(cfg: Config, s: State, i: nat, id: nat)
    requires Reachable(cfg, s) && i < |s.clients|
    requires Event(id) in s.clients[i].enqueued && id < |s.hub.issued| && s.hub.issued[id].owner == Broadcast
    ensures var c := s.clients[i];
            && c.subscribedAt <= c.cursor <= |s.hub.log|
            && id in Passed(s.hub, c) && Meets(c.filter, s.hub.issued[id].envelope.body)
  {
    ReachableClient(cfg, s, i);
    DeliveredWasPassed(s.hub, s.clients[i], id);
  }

  lemma PassedIsDelivered(h: Hub, c: Client, id: nat)
    requires c.subscribedAt <= c.cursor <= |h.log| && Delivered(h.issued, c.enqueued) == Expected(h, c)
    requires id in Passed(h, c) && id < |h.issued| && Meets(c.filter, h.issued[id].envelope.body)
    ensures Event(id) in c.enqueued
  {
    MatchesMeans(c.filter, h.issued[id].envelope);
    MatchingElements(h.issued, c.filter, Passed(h, c), id);
    DeliveredElements(h.issued, c.enqueued, id);
  }

  /** Where no loss is tolerated, a running client has been given exactly the events it passed that meet its filter. */
  lemma NothingElseIsMissing(cfg: Config, s: State, i: nat, id: nat)
    requires cfg.dropThreshold <= 1
    requires Reachable(cfg, s) && i < |s.clients| && InLoop(s.clients[i].phase)
    requires id < |s.hub.issued| && s.hub.issued[id].owner == Broadcast
    ensures var c := s.clients[i];
            && c.subscribedAt <= c.cursor <= |s.hub.log|
            && (Event(id) in c.enqueued
                <==> id in Passed(s.hub, c) && Meets(c.filter, s.hub.issued[id].envelope.body))
  {
    DeliveredInOrder(cfg, s, i);
    if Event(id) in s.clients[i].enqueued {
      DeliveredMeetFilter(cfg, s, i, id);
    }
    if id in Passed(s.hub, s.clients[i]) && Meets(s.clients[i].filter, s.hub.issued[id].envelope.body) {
      PassedIsDelivered(s.hub, s.clients[i], id);
    }
  }

  /** Also after the loop has ended, nothing was reordered, repeated or made up. */
  lemma DeliveredIsSubsequence(cfg: Config, s: State, i: nat)
    requires Reachable(cfg, s) && i < |s.clients|
    ensures var c := s.clients[i];
            && c.subscribedAt <= c.cursor <= |s.hub.log|
            && Subsequence(Delivered(s.hub.issued, c.enqueued), Expected(s.hub, c))
            && NoEventTwice(c.enqueued)
  {
    ReachableClient(cfg, s, i);
  }

  /** `sent` is the number of events enqueued plus those dropped with the handler going on, cut off at 2^64 - 1. */
  lemma SentCountsEvents(cfg: Config, s: State, i: nat)
    requires Reachable(cfg, s) && i < |s.clients|
    ensures var c := s.clients[i];
            c.sent == Saturated(EventCount(c.enqueued) + c.tolerated) && c.tolerated <= c.lost
  {
    ReachableClient(cfg, s, i);
  }

  /**
   When a handler is done, its last frame on the wire is a close frame exactly when the writer was neither
   aborted nor failed; and then everything enqueued was written.
   */
  lemma WireComplete(cfg: Config, s: State, i: nat)
    requires Reachable(cfg, s) && i < |s.clients| && s.clients[i].phase.Done?
    ensures var c := s.clients[i];
            && (!c.broken <==> c.wire != [] && c.wire[|c.wire| - 1].Close?)
            && (!c.broken ==> c.wire == c.enqueued)
  {
    ReachableClient(cfg, s, i);
  }

  /** The writer never runs dry: it ends with the close frame, a failed send, or aborted. */
  lemma WriterNeverDrains(cfg: Config, s: State, i: nat)
    requires Reachable(cfg, s) && i < |s.clients|
    ensures !Enabled(s.cfg, s.hub, s.clients[i], WriterDrains)
  {
    ReachableClient(cfg, s, i);
    NeverDrains(s.cfg, s.hub, s.clients[i]);
  }

  lemma NeverDrains(cfg: Config, h: Hub, c: Client)
    requires WireInv(c) && EndInv(c)
    ensures !Enabled(cfg, h, c, WriterDrains)
  {
    if c.phase.Draining? && c.writer.Idle? {
      IdleHasMore(c);
    }
  }

  lemma IdleHasMore(c: Client)
    requires WireInv(c) && EndInv(c) && c.phase.Draining? && c.writer.Idle?
    ensures c.queue != []
  {
    var last := c.enqueued[|c.enqueued| - 1];
    assert last.Close? && last !in c.wire;
    assert last in c.enqueued;
  }

  // ---------------------------------------------------------------- leaving

  predicate Leaving(p: Phase) { p.Ending? || p.Draining? }
  predicate Left(p: Phase) { Leaving(p) || p.Done? }

  /** What neither waits for the socket to take a message nor for a time limit. */
  predicate Unprompted(a: Action) { !a.WriterSends? && !a.WriterFails? && !a.CloseTimedOut? }

  /** The writer is sending, and nothing else is left to do: no room for a close frame, or none needed. */
  predicate Waits(cfg: Config, c: Client) {
    c.writer.Sending? && (c.phase.Draining? ==> c.owed == 0)
    && (c.phase.Ending? ==> c.owed == 0 && |c.queue| >= Max1(cfg.queueCapacity))
  }

  function NextOut(cfg: Config, c: Client): Action {
    if c.owed > 0 then AddDropped
    else if c.phase.Ending? then
      if c.writer.Stopped? then CloseRefused
      else if |c.queue| < Max1(cfg.queueCapacity) then QueueClose
      else WriterTakes
    else if c.writer.Stopped? then Finish
    else if c.queue == [] then WriterDrains
    else WriterTakes
  }

  /** A handler that has left its loop can go on by itself, except exactly while it waits for a message being sent. */
  lemma OnlyWaitIsSending(cfg: Config, h: Hub, c: Client)
    requires Leaving(c.phase)
    ensures (exists a :: Unprompted(a) && Enabled(cfg, h, c, a)) <==> !Waits(cfg, c)
    ensures Waits(cfg, c) ==> Enabled(cfg, h, c, WriterSends)
  {
    if !Waits(cfg, c) {
      assert Enabled(cfg, h, c, NextOut(cfg, c)) && Unprompted(NextOut(cfg, c));
    }
  }

  /** A bound on what is left to do: each message is taken and sent, then the end is reached. */
  function Remaining(c: Client): nat {
    2 * |c.queue|
    + (match c.writer case Sending(_) => 2 case Idle => 1 case Stopped => 0)
    + (if c.phase.Ending? then 4 else if c.phase.Draining? then 1 else 0)
    + (if c.owed > 0 then 1 else 0)
  }

  /** Whatever a handler that has left its loop, or its writer, does, less remains. */
  lemma ActLeavesLess(cfg: Config, h: Hub, c: Client, a: Action)
    requires Enabled(cfg, h, c, a) && Left(c.phase)
    ensures Left(Act(cfg, h, c, a).phase) && Remaining(Act(cfg, h, c, a)) < Remaining(c)
  {
  }

  /** How many of the steps are actions of client `i` or its writer. */
  ghost function OwnSteps(s: State, steps: seq<Step>, i: nat): nat {
    if steps == [] then 0
    else
      var n := |steps| - 1;
      var before := Run(s, steps[..n]);
      OwnSteps(s, steps[..n], i) + (if i < |before.clients| && Acts(before, steps[n], i) then 1 else 0)
  }

  lemma {:induction false} LeavingRunsDown(s: State, steps: seq<Step>, i: nat)
    requires i < |s.clients| && Left(s.clients[i].phase)
    ensures i < |Run(s, steps).clients| && Left(Run(s, steps).clients[i].phase)
    ensures OwnSteps(s, steps, i) + Remaining(Run(s, steps).clients[i]) <= Remaining(s.clients[i])
  {
    if steps != [] {
      var n := |steps| - 1;
      LeavingRunsDown(s, steps[..n], i);
      var before := Run(s, steps[..n]);
      if Acts(before, steps[n], i) {
        ActLeavesLess(before.cfg, before.hub, before.clients[i], steps[n].action);
        ClientStepEffect(before, i, steps[n].action);
      } else {
        BystanderUnchanged(before, steps[n], i);
      }
    }
  }

  /**
   On every schedule, a handler that has left its loop and its writer take at most `2 * capacity + 7` more
   actions in all; so only a message that is never sent can keep it from finishing.
   */
  lemma HandlersWindDown(cfg: Config, s: State, steps: seq<Step>, i: nat)
    requires Reachable(cfg, s) && i < |s.clients| && Left(s.clients[i].phase)
    ensures OwnSteps(s, steps, i) <= 2 * Max1(cfg.queueCapacity) + 7
  {
    ReachableClient(cfg, s, i);
    LeavingRunsDown(s, steps, i);
  }

  lemma HeldStep(s: State, step: Step, i: nat)
    requires i < |s.clients| && s.clients[i].phase.Draining? && s.clients[i].writer.Sending?
    requires step != ClientStep(i, WriterSends) && step != ClientStep(i, WriterFails)
    ensures var t := Apply(s, step);
            i < |t.clients| && t.clients[i].phase.Draining? && t.clients[i].writer == s.clients[i].writer
  {
    if Acts(s, step, i) {
      ClientStepEffect(s, i, step.action);
    } else {
      BystanderUnchanged(s, step, i);
    }
  }

  /** There is no time limit on that: until the message is sent or fails, the handler stays. */
  lemma {:induction false} PendingSendHolds(s: State, steps: seq<Step>, i: nat)
    requires i < |s.clients| && s.clients[i].phase.Draining? && s.clients[i].writer.Sending?
    requires forall k | 0 <= k < |steps| ::
               steps[k] != ClientStep(i, WriterSends) && steps[k] != ClientStep(i, WriterFails)
    ensures var t := Run(s, steps);
            i < |t.clients| && t.clients[i].phase.Draining? && t.clients[i].writer == s.clients[i].writer
  {
    if steps != [] {
      var n := |steps| - 1;
      PendingSendHolds(s, steps[..n], i);
      HeldStep(Run(s, steps[..n]), steps[n], i);
    }
  }

  // ---------------------------------------------------------------- sequence numbers

  lemma WrapEqual(a: nat, b: nat)
    ensures Wrap(a + 1) == Wrap(b + 1) <==> Wrap(a) == Wrap(b)
  {
    WrapSteps(a, 1);
    WrapSteps(b, 1);
    WrapSteps(a + 1, U64_MAX);
    WrapSteps(b + 1, U64_MAX);
    assert Wrap(a + U64_MODULUS) == Wrap(a) && Wrap(b + U64_MODULUS) == Wrap(b);
  }

  /** Two envelopes carry the same sequence number exactly when a multiple of 2^64 numbers lies between them. */
  lemma SequenceRepeats(cfg: Config, s: State, a: nat, b: nat)
    requires Reachable(cfg, s) && a < |s.hub.issued| && b < |s.hub.issued|
    ensures s.hub.issued[a].envelope.sequence == s.hub.issued[b].envelope.sequence
            <==> a % U64_MODULUS == b % U64_MODULUS
  {
    ReachableInv(cfg, s);
    WrapEqual(a, b);
  }

  /** Two enqueued events with one id are one broadcast received by two clients. */
  lemma SameIdSameEvent(cfg: Config, s: State, i: nat, p: nat, j: nat, q: nat)
    requires Reachable(cfg, s) && i < |s.clients| && j < |s.clients|
    requires p < |s.clients[i].enqueued| && q < |s.clients[j].enqueued|
    requires s.clients[i].enqueued[p].Event? && s.clients[i].enqueued[p] == s.clients[j].enqueued[q]
    ensures s.clients[i].enqueued[p].id < |s.hub.issued|
    ensures (i == j && p == q) || (i != j && s.hub.issued[s.clients[i].enqueued[p].id].owner == Broadcast)
  {
    ReachableClient(cfg, s, i);
    ReachableClient(cfg, s, j);
    assert MayEnqueue(s.hub, i, s.clients[i].cursor, s.clients[i].enqueued[p]);
    assert MayEnqueue(s.hub, j, s.clients[j].cursor, s.clients[j].enqueued[q]);
  }

  /**
   As long as at most 2^64 numbers were handed out, events with equal sequence numbers, on whichever
   queues or wires, are one and the same event: a broadcast received by two different clients.
   */
  lemma SequenceNumbersDistinct(cfg: Config, s: State, i: nat, p: nat, j: nat, q: nat)
    requires Reachable(cfg, s) && |s.hub.issued| <= U64_MODULUS && i < |s.clients| && j < |s.clients|
    requires p < |s.clients[i].enqueued| && q < |s.clients[j].enqueued|
    requires s.clients[i].enqueued[p].Event? && s.clients[j].enqueued[q].Event?
    ensures var a, b := s.clients[i].enqueued[p].id, s.clients[j].enqueued[q].id;
            && a < |s.hub.issued| && b < |s.hub.issued|
            && (s.hub.issued[a].envelope.sequence == s.hub.issued[b].envelope.sequence ==>
                  (i == j && p == q) || (i != j && a == b && s.hub.issued[a].owner == Broadcast))
  {
    var a, b := s.clients[i].enqueued[p].id, s.clients[j].enqueued[q].id;
    SameIdSameEvent(cfg, s, i, p, i, p);
    SameIdSameEvent(cfg, s, j, q, j, q);
    SequenceRepeats(cfg, s, a, b);
    if a == b {
      SameIdSameEvent(cfg, s, i, p, j, q);
    }
  }

  // ---------------------------------------------------------------- counters

  function CountsLost(c: Client): nat { c.lost }
  function CountsDropped(c: Client): nat { c.dropped }

  lemma {:induction false} SumSplits(clients: seq<Client>)
    ensures Sum(clients, CountsConnected) == Sum(clients, CountsFinished) + Sum(clients, CountsLive)
    decreases |clients|
  {
    if clients != [] {
      SumSplits(clients[..|clients| - 1]);
    }
  }

  lemma {:induction false} SumReported(clients: seq<Client>)
    requires forall i | 0 <= i < |clients| :: clients[i].owed == 0
    ensures Sum(clients, CountsReported) == Sum(clients, CountsLost)
    decreases |clients|
  {
    if clients != [] {
      SumReported(clients[..|clients| - 1]);
    }
  }

  lemma {:induction false} SumDropped(clients: seq<Client>)
    requires forall i | 0 <= i < |clients| ::
               clients[i].dropped == if clients[i].lost <= U64_MAX then clients[i].lost else U64_MAX
    requires Sum(clients, CountsLost) <= U64_MAX
    ensures Sum(clients, CountsDropped) == Sum(clients, CountsLost)
    decreases |clients|
  {
    if clients != [] {
      SumDropped(clients[..|clients| - 1]);
    }
  }

  /** Connections balance: each is live or has been counted as disconnected exactly once. */
  lemma ConnectionsBalance(cfg: Config, s: State)
    requires Reachable(cfg, s)
    ensures s.counters.connected == Wrap(s.counters.disconnected + Sum(s.clients, CountsLive))
  {
    ReachableCounters(cfg, s);
    SumSplits(s.clients);
    WrapSteps(Sum(s.clients, CountsFinished), Sum(s.clients, CountsLive));
  }

  /**
   Whenever no handler is between its own count and the global one, the global count of drops is the sum
   of the exact losses modulo 2^64, and, below 2^64, the sum of the handlers' own (saturating) counts.
   */
  lemma DropsBalance(cfg: Config, s: State)
    requires Reachable(cfg, s) && forall i | 0 <= i < |s.clients| :: s.clients[i].owed == 0
    ensures s.counters.dropped == Wrap(Sum(s.clients, CountsLost))
    ensures Sum(s.clients, CountsLost) <= U64_MAX ==> s.counters.dropped == Sum(s.clients, CountsDropped)
  {
    ReachableCounters(cfg, s);
    SumReported(s.clients);
    if Sum(s.clients, CountsLost) <= U64_MAX {
      DropsAreLosses(cfg, s);
      SumDropped(s.clients);
    }
  }

  lemma DropsAreLosses(cfg: Config, s: State)
    requires Reachable(cfg, s)
    ensures forall i | 0 <= i < |s.clients| ::
              s.clients[i].dropped == if s.clients[i].lost <= U64_MAX then s.clients[i].lost else U64_MAX
  {
    forall i | 0 <= i < |s.clients|
      ensures s.clients[i].dropped == if s.clients[i].lost <= U64_MAX then s.clients[i].lost else U64_MAX
    {
      ReachableClient(cfg, s, i);
    }
  }
}
