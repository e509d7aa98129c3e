/**
 The registry against its reference: the complete history of accepted begins and finishes.
 */
module FactoryRegistryProofs {
  import opened Basics
  import opened FactoryRegistry

  /** Everything that was accepted; `finished` has the newest first and forgets nothing. */
  datatype History = History(begun: seq<Session>, live: map<string, Session>, finished: seq<Entry>)

  predicate Recent(h: History, id: string) {
    exists i | 0 <= i < |h.finished| && i < HISTORY_LIMIT :: h.finished[i].stageRunId == id
  }

  function Extend(h: History, op: Op): History {
    match op
    case SetOnChange => h
    case Begin(info) =>
      if info.stageRunId in h.live || Recent(h, info.stageRunId) then h
      else h.(begun := h.begun + [info], live := h.live[info.stageRunId := info])
    case UpdateEvent(id, event, message, tokens, now) =>
      if id in h.live then h.(live := h.live[id := Updated(h.live[id], event, message, tokens, now)]) else h
    case Finish(id, _, _, _, _, _, _) =>
      if id in h.live then h.(live := h.live - {id}, finished := [EntryOf(h.live[id], op)] + h.finished) else h
  }

  function Past(ops: seq<Op>): History {
    if ops == [] then History([], map[], []) else Extend(Past(ops[..|ops| - 1]), ops[|ops| - 1])
  }

  function Run(ops: seq<Op>): State {
    if ops == [] then Empty() else Apply(Run(ops[..|ops| - 1]), ops[|ops| - 1])
  }

  function IsCompleted(e: Entry): nat { if e.status == "completed" then 1 else 0 }
  function IsFailed(e: Entry): nat { if e.status == "failed" then 1 else 0 }
  function InputOf(e: Entry): nat { e.inputTokens }
  function OutputOf(e: Entry): nat { e.outputTokens }
  function TotalOf(e: Entry): nat { e.totalTokens }

  function TotalsOf(h: History): Totals {
    Totals(Saturated(|h.begun|),
           Saturated(Sum(h.finished, IsCompleted)), Saturated(Sum(h.finished, IsFailed)),
           Saturated(Sum(h.finished, InputOf)), Saturated(Sum(h.finished, OutputOf)),
           Saturated(Sum(h.finished, TotalOf)))
  }

  // ---------------------------------------------------------------- refinement

  lemma TotalsOfFinish(h: History, op: Op)
    requires op.Finish? && op.id in h.live
    ensures TotalsOf(Extend(h, op)) == AddTotals(TotalsOf(h), op)
  {
    var e := EntryOf(h.live[op.id], op);
    SumCons(e, h.finished, IsCompleted);
    SumCons(e, h.finished, IsFailed);
    SumCons(e, h.finished, InputOf);
    SumCons(e, h.finished, OutputOf);
    SumCons(e, h.finished, TotalOf);
  }

  /**
   The registry shows exactly its history: the running sessions, the newest 20 finishes in reverse order,
   and each total as the exact sum over all accepted calls, evicted ones included, cut off at 2^64 - 1.
   */
  lemma {:induction false} RegistryShowsHistory(ops: seq<Op>)
    ensures Run(ops).View() == Snapshot(Past(ops).live, Limit(Past(ops).finished), TotalsOf(Past(ops)))
  {
    if ops != [] {
      var n := |ops| - 1;
      RegistryShowsHistory(ops[..n]);
      OneCallShowsHistory(Run(ops[..n]), Past(ops[..n]), ops[n]);
    }
  }

  lemma OneCallShowsHistory(s: State, h: History, op: Op)
    requires s.View() == Snapshot(h.live, Limit(h.finished), TotalsOf(h))
    ensures var h' := Extend(h, op);
            Apply(s, op).View() == Snapshot(h'.live, Limit(h'.finished), TotalsOf(h'))
    ensures s.Accepts(op) || Extend(h, op) == h
  {
    match op
    case Begin(info) =>
      forall i | 0 <= i < |h.finished| && i < HISTORY_LIMIT ensures Limit(h.finished)[i] == h.finished[i] {
      }
      assert s.HasCompleted(info.stageRunId) == Recent(h, info.stageRunId);
    case Finish(id, _, _, _, _, _, _) =>
      if id in h.live {
        TotalsOfFinish(h, op);
        var e := EntryOf(h.live[id], op);
        assert Limit([e] + Limit(h.finished)) == Limit([e] + h.finished);
      }
    case _ =>
  }

  // ---------------------------------------------------------------- identities and conservation

  /** Ids among the newest finishes are distinct, and none of them is running; sessions sit under their own id. */
  ghost predicate Consistent(h: History) {
    && (forall id | id in h.live :: h.live[id].stageRunId == id && !Recent(h, id))
    && (forall i, j | 0 <= i < j < |h.finished| && j < HISTORY_LIMIT ::
          h.finished[i].stageRunId != h.finished[j].stageRunId)
    && |h.begun| == |h.live| + |h.finished|
  }

  lemma {:induction false} HistoryConsistent(ops: seq<Op>)
    ensures Consistent(Past(ops))
  {
    if ops != [] {
      HistoryConsistent(ops[..|ops| - 1]);
      ExtendConsistent(Past(ops[..|ops| - 1]), ops[|ops| - 1]);
    }
  }

  lemma ExtendConsistent(h: History, op: Op)
    requires Consistent(h)
    ensures Consistent(Extend(h, op))
  {
    match op
    case Begin(info) =>
    case Finish(id, _, _, _, _, _, _) =>
      if id in h.live {
        FinishConsistent(h, op);
      }
    case UpdateEvent(id, event, message, tokens, now) =>
      if id in h.live {
        assert Extend(h, op).live.Keys == h.live.Keys;
        assert |Extend(h, op).live| == |h.live|;
      }
    case SetOnChange =>
  }

  lemma FinishConsistent(h: History, op: Op)
    requires Consistent(h) && op.Finish? && op.id in h.live
    ensures Consistent(Extend(h, op))
  {
    var h' := Extend(h, op);
    assert h'.live.Keys == h.live.Keys - {op.id};
    assert |h'.live.Keys| == |h.live.Keys| - 1;
    assert h.live[op.id].stageRunId == op.id && !Recent(h, op.id);
    forall i | 0 < i < |h'.finished| ensures h'.finished[i] == h.finished[i - 1] {
    }
    forall k | k in h'.live ensures !Recent(h', k) {
      assert !Recent(h, k);
    }
  }

  /** Every accepted begin is either still running or was finished, once. */
  lemma Conservation(ops: seq<Op>)
    ensures |Past(ops).begun| == |Run(ops).sessions| + |Past(ops).finished|
    ensures Run(ops).totals.started == Saturated(|Run(ops).sessions| + |Past(ops).finished|)
  {
    HistoryConsistent(ops);
    RegistryShowsHistory(ops);
  }

  /** What the snapshot lists: own ids, no id twice, no id both running and completed, at most 20 completed. */
  lemma SnapshotIds(ops: seq<Op>)
    ensures var s := Run(ops);
            && |s.completed| == (if |Past(ops).finished| <= 20 then |Past(ops).finished| else 20)
            && (forall id | id in s.sessions :: s.sessions[id].stageRunId == id && !s.HasCompleted(id))
            && (forall i, j | 0 <= i < j < |s.completed| :: s.completed[i].stageRunId != s.completed[j].stageRunId)
  {
    HistoryConsistent(ops);
    RegistryShowsHistory(ops);
    var s, h := Run(ops), Past(ops);
    forall id | id in s.sessions ensures !s.HasCompleted(id) {
      assert !Recent(h, id);
      forall i | 0 <= i < |s.completed| ensures s.completed[i].stageRunId != id {
        assert s.completed[i] == h.finished[i];
      }
    }
  }

  /**
   A begin changes nothing exactly when its id is running or among the newest 20 finishes; a finish or an
   update changes nothing when its id is not running.
   */
  lemma IgnoredCalls(ops: seq<Op>, op: Op)
    ensures op.Begin? ==>
              (Apply(Run(ops), op) == Run(ops)
               <==> op.info.stageRunId in Past(ops).live || Recent(Past(ops), op.info.stageRunId))
    ensures op.Finish? ==> (Apply(Run(ops), op) == Run(ops) <==> op.id !in Past(ops).live)
    ensures op.UpdateEvent? && op.id !in Past(ops).live ==> Apply(Run(ops), op) == Run(ops)
  {
    RegistryShowsHistory(ops);
    OneCallShowsHistory(Run(ops), Past(ops), op);
    var s, h := Run(ops), Past(ops);
    if op.Begin? {
      assert s.HasCompleted(op.info.stageRunId) == Recent(h, op.info.stageRunId) by {
        forall i | 0 <= i < |h.finished| && i < HISTORY_LIMIT ensures Limit(h.finished)[i] == h.finished[i] {
        }
      }
      if s.Accepts(op) {
        assert op.info.stageRunId in Apply(s, op).sessions;
      }
    }
    if op.Finish? && s.Accepts(op) {
      assert op.id !in Apply(s, op).sessions;
    }
  }

  // ---------------------------------------------------------------- an evicted id can begin again

  /** After the calls `before`, no begin of the id was accepted among the calls `after`. */
  predicate NoneBegun(before: seq<Op>, after: seq<Op>, id: string) {
    forall k | |Past(before).begun| <= k < |Past(before + after).begun| ::
      Past(before + after).begun[k].stageRunId != id
  }

  lemma {:induction false} BegunGrows(before: seq<Op>, after: seq<Op>)
    ensures Past(before).begun <= Past(before + after).begun
    decreases |after|
  {
    if after == [] {
      assert before + after == before;
    } else {
      var n := |after| - 1;
      BegunGrows(before, after[..n]);
      assert (before + after)[..|before + after| - 1] == before + after[..n];
    }
  }

  lemma ExtendAppends(h: History, op: Op)
    ensures Extend(h, op).begun == h.begun || (op.Begin? && Extend(h, op).begun == h.begun + [op.info])
  {
  }

  lemma LastCall(before: seq<Op>, after: seq<Op>)
    requires after != []
    ensures Past(before + after) == Extend(Past(before + after[..|after| - 1]), after[|after| - 1])
  {
    PastStep(before + after);
    LastOf(before, after);
  }

  lemma PastStep(ops: seq<Op>)
    requires ops != []
    ensures Past(ops) == Extend(Past(ops[..|ops| - 1]), ops[|ops| - 1])
  {
  }

  lemma LastOf(before: seq<Op>, after: seq<Op>)
    requires after != []
    ensures var all := before + after;
            all[..|all| - 1] == before + after[..|after| - 1] && all[|all| - 1] == after[|after| - 1]
  {
  }

  lemma NoneBegunSoFar(before: seq<Op>, after: seq<Op>, id: string)
    requires NoneBegun(before, after, id) && after != []
    ensures NoneBegun(before, after[..|after| - 1], id)
    ensures var h, op := Past(before + after[..|after| - 1]), after[|after| - 1];
            Past(before + after) == Extend(h, op)
            && (op.Begin? && op.info.stageRunId == id ==> Extend(h, op).begun == h.begun)
  {
    var h, g, op := Past(before + after[..|after| - 1]), Past(before + after), after[|after| - 1];
    BegunGrows(before, after[..|after| - 1]);
    LastCall(before, after);
    ExtendAppends(h, op);
    assert forall k | |Past(before).begun| <= k < |h.begun| :: g.begun[k] == h.begun[k];
    if g.begun != h.begun {
      assert g.begun[|h.begun|] == op.info;
    }
  }

  /** While an id neither runs nor begins, the finishes that are accepted are of other ids. */
  lemma {:induction false} OthersFinish(before: seq<Op>, after: seq<Op>, id: string) returns (newer: seq<Entry>)
    requires id !in Past(before).live && NoneBegun(before, after, id)
    ensures id !in Past(before + after).live
    ensures Past(before + after).finished == newer + Past(before).finished
    ensures forall k | 0 <= k < |newer| :: newer[k].stageRunId != id
    decreases |after|
  {
    newer := [];
    if after == [] {
      assert before + after == before;
    } else {
      var n := |after| - 1;
      var h, op := Past(before + after[..n]), after[n];
      NoneBegunSoFar(before, after, id);
      newer := OthersFinish(before, after[..n], id);
      HistoryConsistent(before + after[..n]);
      if op.Finish? && op.id in h.live {
        newer := [EntryOf(h.live[op.id], op)] + newer;
      }
    }
  }

  lemma FinishedFirst(before: seq<Op>, finish: Op)
    requires finish.Finish? && finish.id in Past(before).live
    ensures var h := Past(before + [finish]);
            h.finished != [] && h.finished[0].stageRunId == finish.id && finish.id !in h.live
  {
    HistoryConsistent(before);
    assert (before + [finish])[..|before|] == before;
  }

  lemma RecentUntilEvicted(h: History, newer: seq<Entry>, older: seq<Entry>, id: string)
    requires h.finished == newer + older && older != [] && older[0].stageRunId == id
    requires forall k | 0 <= k < |newer| :: newer[k].stageRunId != id
    requires Consistent(h)
    ensures |newer| < HISTORY_LIMIT ==> Recent(h, id)
    ensures |newer| >= HISTORY_LIMIT ==> !Recent(h, id)
  {
    if |newer| < HISTORY_LIMIT {
      assert h.finished[|newer|] == older[0];
    }
  }

  /**
   A finished id of which no begin was accepted since begins, and is counted, again exactly after 20 more
   finishes.
   */
  lemma EvictedIdBeginsAgain(before: seq<Op>, finish: Op, after: seq<Op>, again: Op)
    requires finish.Finish? && finish.id in Past(before).live && NoneBegun(before + [finish], after, finish.id)
    requires again.Begin? && again.info.stageRunId == finish.id
    ensures var ops := before + [finish] + after;
            var more := |Past(ops).finished| - |Past(before + [finish]).finished|;
            && (Apply(Run(ops), again) != Run(ops) <==> more >= HISTORY_LIMIT)
            && (more >= HISTORY_LIMIT ==>
                  && finish.id in Apply(Run(ops), again).sessions
                  && Apply(Run(ops), again).totals.started == SaturatingAdd(Run(ops).totals.started, 1))
  {
    var ops := before + [finish] + after;
    FinishedFirst(before, finish);
    var newer := OthersFinish(before + [finish], after, finish.id);
    HistoryConsistent(ops);
    RecentUntilEvicted(Past(ops), newer, Past(before + [finish]).finished, finish.id);
    IgnoredCalls(ops, again);
    if |newer| >= HISTORY_LIMIT {
      BeginIsCounted(Run(ops), again);
    }
  }

  lemma BeginIsCounted(s: State, op: Op)
    requires op.Begin? && Apply(s, op) != s
    ensures op.info.stageRunId in Apply(s, op).sessions
    ensures Apply(s, op).totals.started == SaturatingAdd(s.totals.started, 1)
  {
  }

  // ---------------------------------------------------------------- the callback

  predicate Installed(ops: seq<Op>) { exists op :: op in ops && op.SetOnChange? }

  /** Whether a call that came after the last installation of a callback was accepted. */
  predicate ChangedSinceInstalled(ops: seq<Op>) {
    if ops == [] then false
    else
      var n := |ops| - 1;
      if ops[n].SetOnChange? then false
      else ChangedSinceInstalled(ops[..n]) || (Installed(ops[..n]) && Run(ops[..n]).Accepts(ops[n]))
  }

  lemma {:induction false} CallbackIsInstalled(ops: seq<Op>)
    ensures Run(ops).callback <==> Installed(ops)
  {
    if ops != [] {
      var n := |ops| - 1;
      CallbackIsInstalled(ops[..n]);
      CallbackStep(Run(ops[..n]), ops[n]);
      assert ops == ops[..n] + [ops[n]];
    }
  }

  /** The last snapshot the callback was given is the current one, once anything changed since it was installed. */
  lemma {:induction false} CallbackUpToDate(ops: seq<Op>)
    ensures var s := Run(ops);
            if ChangedSinceInstalled(ops) then s.calls != [] && s.calls[|s.calls| - 1] == s.View() else s.calls == []
    ensures ChangedSinceInstalled(ops) ==> Installed(ops)
  {
    if ops != [] {
      CallbackIsInstalled(ops[..|ops| - 1]);
      CallbackUpToDate(ops[..|ops| - 1]);
      var s, op := Run(ops[..|ops| - 1]), ops[|ops| - 1];
      CallbackStep(s, op);
    }
  }

  lemma CallbackStep(s: State, op: Op)
    ensures Apply(s, op).callback <==> s.callback || op.SetOnChange?
    ensures !op.SetOnChange? && s.Accepts(op) ==>
              Apply(s, op).calls == if s.callback then s.calls + [Apply(s, op).View()] else s.calls
  {
  }
}
