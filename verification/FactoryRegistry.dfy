/**
 The live registry of factory stage sessions: a map of running sessions, a short history of finished
 ones, saturating totals, and a callback told about every change.
 */
module FactoryRegistry {
  import opened Basics

  const U32_MAX: nat := 0xFFFF_FFFF
  type U32 = n: nat | n <= U32_MAX

  datatype Session = Session(
    stage: string, issue: string, runId: string, stageRunId: string, attempt: U32, harness: string,
    model: Option<string>, startedAt: int, lastActivityAt: Option<int>, lastEvent: Option<string>,
    lastEventMessage: Option<string>, sessionId: Option<string>, turnCount: U32, totalTokens: U64)

  datatype Entry = Entry(
    stage: string, issue: string, stageRunId: string, status: string, completedAt: int,
    inputTokens: U64, outputTokens: U64, totalTokens: U64, error: Option<string>)

  datatype Totals = Totals(
    started: U64, completed: U64, failed: U64, inputTokens: U64, outputTokens: U64, totalTokens: U64)

  datatype Snapshot = Snapshot(running: map<string, Session>, completed: seq<Entry>, totals: Totals)

  const HISTORY_LIMIT: nat := 20

  predicate EndsWith(s: string, suffix: string) {
    |suffix| <= |s| && s[|s| - |suffix|..] == suffix
  }

  /** What a call asks for; `now` is the clock reading it makes. */
  datatype Op =
    | SetOnChange
    | Begin(info: Session)
    | UpdateEvent(id: string, event: string, message: Option<string>, tokens: Option<U64>, now: int)
    | Finish(id: string, status: string, input: U64, output: U64, total: U64, error: Option<string>, now: int)

  /** `calls` (history) is every snapshot the installed callback was given. */
  datatype State = State(
    sessions: map<string, Session>, completed: seq<Entry>, totals: Totals, callback: bool, calls: seq<Snapshot>)
  {
    function View(): Snapshot { Snapshot(sessions, completed, totals) }

    predicate HasCompleted(id: string) { exists i | 0 <= i < |completed| :: completed[i].stageRunId == id }

    /** Whether the call changes anything. */
    predicate Accepts(op: Op) {
      match op
      case SetOnChange => true
      case Begin(info) => info.stageRunId !in sessions && !HasCompleted(info.stageRunId)
      case UpdateEvent(id, _, _, _, _) => id in sessions
      case Finish(id, _, _, _, _, _, _) => id in sessions
    }
  }

  function Empty(): State {
    State(map[], [], Totals(0, 0, 0, 0, 0, 0), false, [])
  }

  function Updated(s: Session, event: string, message: Option<string>, tokens: Option<U64>, now: int): Session {
    s.(turnCount := if EndsWith(event, "_turn_completed") && s.turnCount < U32_MAX then s.turnCount + 1
                    else s.turnCount,
       lastEvent := Some(event), lastEventMessage := message, lastActivityAt := Some(now),
       totalTokens := if tokens.Some? && tokens.value > s.totalTokens then tokens.value else s.totalTokens)
  }

  function EntryOf(s: Session, op: Op): Entry
    requires op.Finish?
  {
    Entry(s.stage, s.issue, s.stageRunId, op.status, op.now, op.input, op.output, op.total, op.error)
  }

  function AddTotals(t: Totals, op: Op): Totals
    requires op.Finish?
  {
    t.(completed := if op.status == "completed" then SaturatingAdd(t.completed, 1) else t.completed,
       failed := if op.status == "failed" then SaturatingAdd(t.failed, 1) else t.failed,
       inputTokens := SaturatingAdd(t.inputTokens, op.input),
       outputTokens := SaturatingAdd(t.outputTokens, op.output),
       totalTokens := SaturatingAdd(t.totalTokens, op.total))
  }

  function Notified(s: State): State {
    if s.callback then s.(calls := s.calls + [s.View()]) else s
  }

  function Limit(entries: seq<Entry>): seq<Entry> {
    if |entries| <= HISTORY_LIMIT then entries else entries[..HISTORY_LIMIT]
  }

  /** The effect of one call; a call that is not accepted has none. */
  function Apply(s: State, op: Op): State {
    if !s.Accepts(op) then s
    else match op
      case SetOnChange => s.(callback := true, calls := [])
      case Begin(info) =>
        Notified(s.(sessions := s.sessions[info.stageRunId := info],
                  totals := s.totals.(started := SaturatingAdd(s.totals.started, 1))))
      case UpdateEvent(id, event, message, tokens, now) =>
        Notified(s.(sessions := s.sessions[id := Updated(s.sessions[id], event, message, tokens, now)]))
      case Finish(id, _, _, _, _, _, _) =>
        Notified(s.(sessions := s.sessions - {id},
                  completed := Limit([EntryOf(s.sessions[id], op)] + s.completed),
                  totals := AddTotals(s.totals, op)))
  }

  /** The registry itself. */
  class FactorySessionRegistry {
    var sessions: map<string, Session>
    var completed: seq<Entry>
    var totals: Totals
    var callback: bool
    ghost var calls: seq<Snapshot>

    ghost function View(): State
      reads this
    {
      State(sessions, completed, totals, callback, calls)
    }

    constructor ()
      ensures View() == Empty()
    {
      sessions, completed, totals, callback, calls := map[], [], Totals(0, 0, 0, 0, 0, 0), false, [];
    }

    method Notify()
      modifies this`calls
      ensures View() == Notified(old(View()))
    {
      if callback {
        calls := calls + [Snapshot(sessions, completed, totals)];
      }
    }

    method InstallCallback()
      modifies this
      ensures View() == Apply(old(View()), SetOnChange)
    {
      callback, calls := true, [];
    }

    method HasCompleted(id: string) returns (found: bool)
      ensures found == View().HasCompleted(id)
    {
      found := false;
      for i := 0 to |completed|
        invariant found == exists k | 0 <= k < i :: completed[k].stageRunId == id
      {
        if completed[i].stageRunId == id {
          found := true;
        }
      }
    }

    method BeginSession(info: Session)
      modifies this
      ensures View() == Apply(old(View()), Begin(info))
    {
      var known := HasCompleted(info.stageRunId);
      if info.stageRunId in sessions || known {
        return;
      }
      sessions := sessions[info.stageRunId := info];
      totals := totals.(started := SaturatingAdd(totals.started, 1));
      Notify();
    }

    method RecordEvent(id: string, event: string, message: Option<string>, tokens: Option<U64>, now: int)
      modifies this
      ensures View() == Apply(old(View()), UpdateEvent(id, event, message, tokens, now))
    {
      if id in sessions {
        var info := sessions[id];
        if EndsWith(event, "_turn_completed") && info.turnCount < U32_MAX {
          info := info.(turnCount := info.turnCount + 1);
        }
        info := info.(lastEvent := Some(event), lastEventMessage := message, lastActivityAt := Some(now));
        if tokens.Some? && tokens.value > info.totalTokens {
          info := info.(totalTokens := tokens.value);
        }
        sessions := sessions[id := info];
        Notify();
      }
    }

    method FinishSession(id: string, status: string, input: U64, output: U64, total: U64, error: Option<string>,
                         now: int)
      modifies this
      ensures View() == Apply(old(View()), Finish(id, status, input, output, total, error, now))
    {
      if id !in sessions {
        return;
      }
      var session := sessions[id];
      sessions := sessions - {id};
      if status == "completed" {
        totals := totals.(completed := SaturatingAdd(totals.completed, 1));
      } else if status == "failed" {
        totals := totals.(failed := SaturatingAdd(totals.failed, 1));
      }
      totals := totals.(inputTokens := SaturatingAdd(totals.inputTokens, input),
                        outputTokens := SaturatingAdd(totals.outputTokens, output),
                        totalTokens := SaturatingAdd(totals.totalTokens, total));
      completed := [Entry(session.stage, session.issue, session.stageRunId, status, now, input, output, total, error)]
                   + completed;
      ghost var all := completed;
      ghost var op := Finish(id, status, input, output, total, error, now);
      assert all == [EntryOf(session, op)] + old(completed) && totals == AddTotals(old(totals), op);
      while |completed| > HISTORY_LIMIT
        invariant Limit(completed) == Limit(all)
        modifies this`completed
      {
        completed := completed[..|completed| - 1];
      }
      assert completed == Limit(all);
      Notify();
    }
  }
}
