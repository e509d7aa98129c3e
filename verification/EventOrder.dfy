/**
 When the order of the hub is the order of sequence numbers: exactly where no publisher overtakes another.
 */
module EventOrder {
  import opened Basics
  import opened EventStream
  import opened EventStreamProofs

  // ---------------------------------------------------------------- what a run does to the hub

  lemma StepGrows(h: Hub, s: State, step: Step)
    requires h == s.hub
    ensures h.issued <= Apply(s, step).hub.issued && h.log <= Apply(s, step).hub.log
  {
  }

  lemma {:induction false} PrefixGrows(s: State, steps: seq<Step>, k: nat)
    requires k <= |steps|
    ensures Run(s, steps[..k]).hub.issued <= Run(s, steps).hub.issued
    ensures Run(s, steps[..k]).hub.log <= Run(s, steps).hub.log
    decreases |steps|
  {
    if k == |steps| {
      assert steps[..k] == steps;
    } else {
      var n := |steps| - 1;
      PrefixGrows(s, steps[..n], k);
      assert steps[..n][..k] == steps[..k];
      StepGrows(Run(s, steps[..n]).hub, Run(s, steps[..n]), steps[n]);
    }
  }

  lemma {:induction false} HubInvRuns(s: State, steps: seq<Step>)
    requires HubInv(s.hub)
    ensures HubInv(Run(s, steps).hub)
  {
    if steps != [] {
      HubInvRuns(s, steps[..|steps| - 1]);
      HubKept(Run(s, steps[..|steps| - 1]), steps[|steps| - 1]);
    }
  }

  /** A step hands out at most one number, and one for a broadcast only if it is `Publish`. */
  lemma OneNumberAStep(s: State, step: Step)
    ensures |s.hub.issued| <= |Apply(s, step).hub.issued| <= |s.hub.issued| + 1
    ensures var t := Apply(s, step);
            |t.hub.issued| > |s.hub.issued| && t.hub.issued[|s.hub.issued|].owner == Broadcast ==> step.Publish?
  {
  }

  /** When a number was handed out. */
  lemma {:induction false} IssuedAt(s: State, steps: seq<Step>, id: nat) returns (k: nat)
    requires |s.hub.issued| <= id < |Run(s, steps).hub.issued|
    ensures k < |steps| && |Run(s, steps[..k]).hub.issued| == id && |Run(s, steps[..k + 1]).hub.issued| == id + 1
    decreases |steps|
  {
    var n := |steps| - 1;
    OneNumberAStep(Run(s, steps[..n]), steps[n]);
    if id < |Run(s, steps[..n]).hub.issued| {
      k := IssuedAt(s, steps[..n], id);
      assert steps[..n][..k] == steps[..k] && steps[..n][..k + 1] == steps[..k + 1];
    } else {
      k := n;
      assert steps[..n + 1] == steps;
    }
  }

  /** What was made to be broadcast has been sent, or is pending. */
  ghost predicate PendingOrSent(h: Hub) {
    forall id | 0 <= id < |h.issued| && h.issued[id].owner == Broadcast :: id in h.pending || id in h.log
  }

  lemma {:induction false} AllPendingOrSent(cfg: Config, steps: seq<Step>)
    ensures PendingOrSent(Run(Init(cfg), steps).hub)
  {
    if steps != [] {
      AllPendingOrSent(cfg, steps[..|steps| - 1]);
      StepPendingOrSent(Run(Init(cfg), steps[..|steps| - 1]), steps[|steps| - 1]);
    }
  }

  lemma StepPendingOrSent(s: State, step: Step)
    requires PendingOrSent(s.hub)
    ensures PendingOrSent(Apply(s, step).hub)
  {
    var h, h' := s.hub, Apply(s, step).hub;
    forall id | 0 <= id < |h'.issued| && h'.issued[id].owner == Broadcast
      ensures id in h'.pending || id in h'.log
    {
      assert id < |h.issued| ==> h'.issued[id] == h.issued[id];
      assert step.SendPending? && id == step.id && id !in h'.pending ==> id in h.log + [step.id];
    }
  }

  // ---------------------------------------------------------------- overtaking

  function HubAfter(cfg: Config, steps: seq<Step>, k: nat): Hub
    requires k <= |steps|
  {
    Run(Init(cfg), steps[..k]).hub
  }

  /** At step `k` a publisher takes the number of `late` while `early` has its number and is not sent yet. */
  ghost predicate TakenWhilePending(cfg: Config, steps: seq<Step>, k: nat, late: nat, early: nat)
    requires k < |steps|
  {
    steps[k].Publish? && |HubAfter(cfg, steps, k).issued| == late && early in HubAfter(cfg, steps, k).pending
  }

  lemma HubAlways(cfg: Config, steps: seq<Step>, k: nat)
    requires k <= |steps|
    ensures HubInv(Run(Init(cfg), steps).hub) && HubInv(HubAfter(cfg, steps, k))
    ensures HubAfter(cfg, steps, k).issued <= Run(Init(cfg), steps).hub.issued
    ensures HubAfter(cfg, steps, k).log <= Run(Init(cfg), steps).hub.log
  {
    PrefixGrows(Init(cfg), steps, k);
    HubInvRuns(Init(cfg), steps);
    HubInvRuns(Init(cfg), steps[..k]);
  }

  lemma OvertakenWasPending(cfg: Config, steps: seq<Step>, h: Hub, p: nat, q: nat) returns (k: nat)
    requires h == Run(Init(cfg), steps).hub && p < q < |h.log| && h.log[p] > h.log[q]
    ensures k < |steps| && TakenWhilePending(cfg, steps, k, h.log[p], h.log[q])
  {
    HubAlways(cfg, steps, 0);
    assert h.log[p] in h.log;
    k := IssuedAt(Init(cfg), steps, h.log[p]);
    HubAlways(cfg, steps, k);
    HubAlways(cfg, steps, k + 1);
    NextNumberIsPublished(cfg, steps, k, h.log[p]);
    AllPendingOrSent(cfg, steps[..k]);
    PendingBefore(HubAfter(cfg, steps, k), h, p, q);
  }

  lemma NextNumberIsPublished(cfg: Config, steps: seq<Step>, k: nat, id: nat)
    requires k < |steps| && |HubAfter(cfg, steps, k).issued| == id
    requires |HubAfter(cfg, steps, k + 1).issued| == id + 1 && HubAfter(cfg, steps, k + 1).issued[id].owner == Broadcast
    ensures steps[k].Publish?
  {
    assert steps[..k + 1][..k] == steps[..k];
    OneNumberAStep(Run(Init(cfg), steps[..k]), steps[k]);
  }

  lemma SentHaveNumbers(before: Hub, h: Hub)
    requires HubInv(before) && before.log <= h.log
    ensures forall k | 0 <= k < |before.log| :: h.log[k] < |before.issued| && h.log[k] == before.log[k]
  {
    forall k | 0 <= k < |before.log| ensures h.log[k] < |before.issued| && h.log[k] == before.log[k] {
      assert before.log[k] in before.log;
    }
  }

  /** When the earlier of two log entries gets its number, the later one, having its own, is pending. */
  lemma PendingBefore(before: Hub, h: Hub, p: nat, q: nat)
    requires HubInv(before) && HubInv(h) && PendingOrSent(before)
    requires before.issued <= h.issued && before.log <= h.log
    requires p < q < |h.log| && |before.issued| == h.log[p] > h.log[q]
    ensures h.log[q] in before.pending
  {
    assert h.log[q] in h.log && before.issued[h.log[q]] == h.issued[h.log[q]];
    SentHaveNumbers(before, h);
    assert |before.log| <= p;
  }

  /** Below 2^64 numbers, an event carries one more than its index. */
  lemma SequenceIsIndex(h: Hub, p: nat)
    requires HubInv(h) && |h.issued| < U64_MODULUS && p < |h.log|
    ensures h.log[p] < |h.issued| && SequenceAt(h, p) == h.log[p] + 1
  {
    assert h.log[p] in h.log;
    assert (h.log[p] + 1) % U64_MODULUS == h.log[p] + 1;
  }

  ghost function SequenceAt(h: Hub, p: nat): nat
    requires HubInv(h) && p < |h.log|
  {
    assert h.log[p] in h.log;
    h.issued[h.log[p]].envelope.sequence
  }

  /**
   Of two broadcasts the one sent first has the greater number exactly when its number was taken while the
   other was pending.
   */
  lemma HubOrderInverts(cfg: Config, steps: seq<Step>, p: nat, q: nat)
    requires var h := Run(Init(cfg), steps).hub; |h.issued| < U64_MODULUS && p < q < |h.log|
    ensures var h := Run(Init(cfg), steps).hub;
            && HubInv(h)
            && SequenceAt(h, p) != SequenceAt(h, q)
            && (SequenceAt(h, p) > SequenceAt(h, q)
                <==> exists k | 0 <= k < |steps| :: TakenWhilePending(cfg, steps, k, h.log[p], h.log[q]))
  {
    var h := Run(Init(cfg), steps).hub;
    HubAlways(cfg, steps, 0);
    SequenceIsIndex(h, p);
    SequenceIsIndex(h, q);
    InvertsWhenPending(cfg, steps, h, p, q);
  }

  lemma InvertsWhenPending(cfg: Config, steps: seq<Step>, h: Hub, p: nat, q: nat)
    requires h == Run(Init(cfg), steps).hub && HubInv(h) && p < q < |h.log|
    ensures h.log[p] > h.log[q]
            <==> exists k | 0 <= k < |steps| :: TakenWhilePending(cfg, steps, k, h.log[p], h.log[q])
  {
    if h.log[p] > h.log[q] {
      var k := OvertakenWasPending(cfg, steps, h, p, q);
    }
    forall k | 0 <= k < |steps| && TakenWhilePending(cfg, steps, k, h.log[p], h.log[q])
      ensures h.log[q] < h.log[p]
    {
      PendingIsEarlier(cfg, steps, k, h.log[p], h.log[q]);
    }
  }

  lemma PendingIsEarlier(cfg: Config, steps: seq<Step>, k: nat, late: nat, early: nat)
    requires k < |steps| && TakenWhilePending(cfg, steps, k, late, early)
    ensures early < late
  {
    HubAlways(cfg, steps, k);
  }

  /** No publisher takes a number while another has one it has not sent. */
  ghost predicate OneAtATime(cfg: Config, steps: seq<Step>) {
    forall k | 0 <= k < |steps| && steps[k].Publish? :: HubAfter(cfg, steps, k).pending == {}
  }

  /** Then the hub sends in strictly increasing order of sequence numbers. */
  lemma OneAtATimeIsSorted(cfg: Config, steps: seq<Step>, p: nat, q: nat)
    requires var h := Run(Init(cfg), steps).hub; |h.issued| < U64_MODULUS && p < q < |h.log|
    requires OneAtATime(cfg, steps)
    ensures var h := Run(Init(cfg), steps).hub; HubInv(h) && SequenceAt(h, p) < SequenceAt(h, q)
  {
    HubOrderInverts(cfg, steps, p, q);
  }

  /** Distinct is not sorted: a publisher that took its number first may send last. */
  lemma HubOrderIsNotSequenceOrder(cfg: Config, body: Body) returns (s: State)
    ensures Reachable(cfg, s)
    ensures |s.hub.log| == 2 && s.hub.log[0] < |s.hub.issued| && s.hub.log[1] < |s.hub.issued|
    ensures s.hub.issued[s.hub.log[0]].envelope.sequence == 2 && s.hub.issued[s.hub.log[1]].envelope.sequence == 1
  {
    var steps := [Publish(body), Publish(body), SendPending(1), SendPending(0)];
    var s1 := Apply(Init(cfg), steps[0]);
    var s2 := Apply(s1, steps[1]);
    var s3 := Apply(s2, steps[2]);
    s := Apply(s3, steps[3]);
    RunUpTo(Init(cfg), steps);
  }
}
