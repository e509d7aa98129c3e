/**
 What a session and a completed entry of the registry say, in terms of the calls made: the accepted begin, the
 updates since, and the finish.
 */
module FactorySessions {
  import opened Basics
  import opened FactoryRegistry
  import opened FactoryRegistryProofs

  /** The updates of one id among the calls. */
  function UpdatesOf(ops: seq<Op>, id: string): seq<Op> {
    if ops == [] then []
    else
      var n := |ops| - 1;
      UpdatesOf(ops[..n], id) + if ops[n].UpdateEvent? && ops[n].id == id then [ops[n]] else []
  }

  ghost predicate EndsTurn(op: Op) {
    op.UpdateEvent? && exists front :: op.event == front + "_turn_completed"
  }

  ghost function TurnsIn(updates: seq<Op>): nat {
    if updates == [] then 0
    else TurnsIn(updates[..|updates| - 1]) + if EndsTurn(updates[|updates| - 1]) then 1 else 0
  }

  ghost predicate AllUpdates(updates: seq<Op>) { forall u | u in updates :: u.UpdateEvent? }

  /** The turns begun with and those the updates end, cut off at 2^32 - 1. */
  ghost predicate CountsTurns(begun: Session, updates: seq<Op>, now: Session) {
    var turns := begun.turnCount + TurnsIn(updates);
    now.turnCount == if turns <= 0xFFFF_FFFF then turns else 0xFFFF_FFFF
  }

  /** The greatest of the tokens begun with and those reported. */
  ghost predicate HasMostTokens(begun: Session, updates: seq<Op>, now: Session)
    requires AllUpdates(updates)
  {
    && begun.totalTokens <= now.totalTokens
    && (forall u | u in updates && u.tokens.Some? :: u.tokens.value <= now.totalTokens)
    && (now.totalTokens == begun.totalTokens || exists u | u in updates :: u.tokens == Some(now.totalTokens))
  }

  ghost predicate ShowsLast(begun: Session, updates: seq<Op>, now: Session)
    requires AllUpdates(updates)
  {
    if updates == [] then
      now.lastEvent == begun.lastEvent && now.lastEventMessage == begun.lastEventMessage
      && now.lastActivityAt == begun.lastActivityAt
    else
      var u := updates[|updates| - 1];
      now.lastEvent == Some(u.event) && now.lastEventMessage == u.message && now.lastActivityAt == Some(u.now)
  }

  ghost predicate SameOtherwise(begun: Session, now: Session) {
    && now.stage == begun.stage && now.issue == begun.issue && now.runId == begun.runId
    && now.stageRunId == begun.stageRunId && now.attempt == begun.attempt && now.harness == begun.harness
    && now.model == begun.model && now.startedAt == begun.startedAt && now.sessionId == begun.sessionId
  }

  ghost predicate Shows(begun: Session, updates: seq<Op>, now: Session)
    requires AllUpdates(updates)
  {
    CountsTurns(begun, updates, now) && HasMostTokens(begun, updates, now) && ShowsLast(begun, updates, now)
    && SameOtherwise(begun, now)
  }

  lemma SuffixMeans(s: string, suffix: string)
    ensures EndsWith(s, suffix) <==> exists front :: s == front + suffix
  {
    if EndsWith(s, suffix) {
      assert s == s[..|s| - |suffix|] + suffix;
    }
  }

  lemma OneMoreShown(begun: Session, updates: seq<Op>, now: Session, op: Op)
    requires AllUpdates(updates) && Shows(begun, updates, now) && op.UpdateEvent?
    ensures AllUpdates(updates + [op])
    ensures Shows(begun, updates + [op], Updated(now, op.event, op.message, op.tokens, op.now))
  {
    var all, after := updates + [op], Updated(now, op.event, op.message, op.tokens, op.now);
    assert all[..|all| - 1] == updates && all[|all| - 1] == op && op in all;
    SuffixMeans(op.event, "_turn_completed");
    TokensShown(begun, updates, now, op, after);
  }

  lemma TokensShown(begun: Session, updates: seq<Op>, now: Session, op: Op, after: Session)
    requires AllUpdates(updates) && HasMostTokens(begun, updates, now) && op.UpdateEvent?
    requires after == Updated(now, op.event, op.message, op.tokens, op.now)
    ensures AllUpdates(updates + [op]) && HasMostTokens(begun, updates + [op], after)
  {
    var all := updates + [op];
    assert forall u :: u in all <==> u in updates || u == op;
  }

  lemma UpdatesAppend(ops: seq<Op>, k: nat, id: string)
    requires k + 1 < |ops|
    ensures var n := |ops| - 1;
            UpdatesOf(ops[k + 1..], id)
            == UpdatesOf(ops[..n][k + 1..], id) + if ops[n].UpdateEvent? && ops[n].id == id then [ops[n]] else []
  {
    var n := |ops| - 1;
    var after := ops[k + 1..];
    assert after[..|after| - 1] == ops[..n][k + 1..] && after[|after| - 1] == ops[n];
  }

  /** Call `k` is the accepted begin of the session that runs under `id` up to before call `n`. */
  ghost predicate RunsSince(ops: seq<Op>, k: nat, n: nat, id: string) {
    && k < n <= |ops| && ops[k].Begin? && ops[k].info.stageRunId == id
    && id !in Run(ops[..k]).sessions && forall j | k < j <= n :: id in Run(ops[..j]).sessions
  }

  lemma SessionAfter(s: State, op: Op, id: string)
    requires id in Apply(s, op).sessions
    ensures id in s.sessions ==>
              Apply(s, op).sessions[id]
              == if op.UpdateEvent? && op.id == id
                 then Updated(s.sessions[id], op.event, op.message, op.tokens, op.now) else s.sessions[id]
    ensures id !in s.sessions ==>
              op.Begin? && op.info.stageRunId == id && Apply(s, op).sessions[id] == op.info
  {
  }

  lemma ShownAfter(s: State, op: Op, id: string, begun: Session, updates: seq<Op>)
    requires id in s.sessions && id in Apply(s, op).sessions
    requires AllUpdates(updates) && Shows(begun, updates, s.sessions[id])
    ensures var all := updates + if op.UpdateEvent? && op.id == id then [op] else [];
            AllUpdates(all) && Shows(begun, all, Apply(s, op).sessions[id])
  {
    SessionAfter(s, op, id);
    if op.UpdateEvent? && op.id == id {
      OneMoreShown(begun, updates, s.sessions[id], op);
    } else {
      assert updates + [] == updates;
    }
  }

  /**
   A running session is the one its last accepted begin brought, with its turns counted, its tokens the most
   reported, and its last event that of its last update; nothing else of it changes.
   */
  lemma {:induction false} SessionShowsCalls(ops: seq<Op>, id: string) returns (k: nat)
    requires id in Run(ops).sessions
    ensures RunsSince(ops, k, |ops|, id)
    ensures AllUpdates(UpdatesOf(ops[k + 1..], id))
    ensures Shows(ops[k].info, UpdatesOf(ops[k + 1..], id), Run(ops).sessions[id])
  {
    var n := |ops| - 1;
    var before, op := ops[..n], ops[n];
    if id in Run(before).sessions {
      k := SessionShowsCalls(before, id);
      RunsOn(ops, k, id);
      UpdatesAppend(ops, k, id);
      ShownAfter(Run(before), op, id, ops[k].info, UpdatesOf(before[k + 1..], id));
    } else {
      k := n;
      SessionAfter(Run(before), op, id);
      assert ops[n + 1..] == [] && ops[..n + 1] == ops;
    }
  }

  lemma RunsOn(ops: seq<Op>, k: nat, id: string)
    requires ops != [] && RunsSince(ops[..|ops| - 1], k, |ops| - 1, id) && id in Run(ops).sessions
    ensures RunsSince(ops, k, |ops|, id)
  {
    var n := |ops| - 1;
    forall j | k < j <= |ops| ensures id in Run(ops[..j]).sessions {
      assert if j <= n then ops[..n][..j] == ops[..j] else ops[..j] == ops;
    }
    assert ops[..n][..k] == ops[..k];
  }

  /** Call `f` finished the session call `k` began, and this is what the entry says. */
  ghost predicate EntryShows(ops: seq<Op>, k: nat, f: nat, e: Entry) {
    && f < |ops| && ops[f].Finish? && RunsSince(ops, k, f, ops[f].id)
    && e.stageRunId == ops[f].id && e.stage == ops[k].info.stage && e.issue == ops[k].info.issue
    && e.status == ops[f].status && e.completedAt == ops[f].now && e.error == ops[f].error
    && e.inputTokens == ops[f].input && e.outputTokens == ops[f].output && e.totalTokens == ops[f].total
  }

  ghost predicate HasOrigin(ops: seq<Op>, e: Entry) {
    exists k: nat, f: nat :: EntryShows(ops, k, f, e)
  }

  /** Every completed entry is that of an accepted begin and the finish of its session. */
  lemma {:induction false} CompletedShowCalls(ops: seq<Op>)
    ensures forall e | e in Run(ops).completed :: HasOrigin(ops, e)
  {
    if ops != [] {
      var n := |ops| - 1;
      var before, op, s := ops[..n], ops[n], Run(ops[..n]);
      CompletedShowCalls(before);
      forall e | e in s.completed ensures HasOrigin(ops, e) {
        var k: nat, f: nat :| EntryShows(before, k, f, e);
        EntryStillShows(ops, k, f, e);
      }
      if op.Finish? && op.id in s.sessions {
        var k := SessionShowsCalls(before, op.id);
        NewEntryShows(ops, k);
      }
      CompletedAfter(s, op);
    }
  }

  lemma CompletedAfter(s: State, op: Op)
    ensures forall e | e in Apply(s, op).completed ::
              e in s.completed || (op.Finish? && op.id in s.sessions && e == EntryOf(s.sessions[op.id], op))
  {
  }

  lemma EntryStillShows(ops: seq<Op>, k: nat, f: nat, e: Entry)
    requires ops != [] && EntryShows(ops[..|ops| - 1], k, f, e)
    ensures EntryShows(ops, k, f, e)
  {
    var before := ops[..|ops| - 1];
    assert forall j | 0 <= j <= f :: before[..j] == ops[..j];
  }

  lemma NewEntryShows(ops: seq<Op>, k: nat)
    requires ops != [] && ops[|ops| - 1].Finish?
    requires var n := |ops| - 1;
             && RunsSince(ops[..n], k, n, ops[n].id) && ops[n].id in Run(ops[..n]).sessions
             && SameOtherwise(ops[k].info, Run(ops[..n]).sessions[ops[n].id])
    ensures var n := |ops| - 1; HasOrigin(ops, EntryOf(Run(ops[..n]).sessions[ops[n].id], ops[n]))
  {
    var n := |ops| - 1;
    assert forall j | 0 <= j <= n :: ops[..n][..j] == ops[..j];
    assert EntryShows(ops, k, n, EntryOf(Run(ops[..n]).sessions[ops[n].id], ops[n]));
  }
}
