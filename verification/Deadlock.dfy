/** Which steps the waiting rules can ever decide: the exact shape of a deadlock. */
module Deadlock {
  import opened Counting
  import opened Walks
  import opened PipelineTypes
  import opened Scheduling
  import opened Passes
  import opened Transitions
  import opened Invariants
  import opened RunProperties
  import opened Fate

  ghost predicate WaitsWithin(p: Spec, s: set<nat>, i: nat) {
    i in s ==> i < |p.steps| && (Missing(p, i) || exists j :: j in s && j < |p.steps| && Dep(p, i, j))
  }

  /** Each member waits for a step that does not exist, or for a member. */
  ghost predicate Stuck(p: Spec, s: set<nat>) {
    forall i :: WaitsWithin(p, s, i)
  }

  lemma StuckMembers(p: Spec, s: set<nat>)
    requires Stuck(p, s)
    ensures s <= UpTo(|p.steps|)
  {
    forall i | i in s
      ensures i in UpTo(|p.steps|)
    {
      assert WaitsWithin(p, s, i);
    }
  }

  ghost predicate AllPending(ph: seq<StepPhase>, s: set<nat>) {
    forall i :: i in s ==> i < |ph| && ph[i].Pending?
  }

  lemma StuckBlocks(p: Spec, s: set<nat>, ph: seq<StepPhase>, i: nat)
    requires Stuck(p, s) && |ph| == |p.steps| && i in s && AllPending(ph, s)
    ensures Decide(p, ph, i) == Wait
  {
    assert WaitsWithin(p, s, i);
  }

  lemma StuckStep(p: Spec, s: set<nat>, ph: seq<StepPhase>, ph': seq<StepPhase>)
    requires Stuck(p, s) && |ph| == |p.steps| && AnyPhaseStep(p, ph, ph') && AllPending(ph, s)
    ensures AllPending(ph', s)
  {
    forall i | i in s
      ensures i < |ph'| && ph'[i].Pending?
    {
      StuckBlocks(p, s, ph, i);
    }
  }

  /** In every run, suspended Jobs or not, a stuck step stays Pending, so the pipeline never succeeds. */
  lemma {:induction false} StuckStaysPending(p: Spec, tr: seq<Store>, k: nat, s: set<nat>)
    requires Run(p, tr) && k < |tr| && Stuck(p, s)
    ensures AllPending(PhasesAt(p, tr[k]), s)
    ensures s != {} ==> !tr[k].status.phase.Succeeded?
  {
    if k == 0 {
      StuckMembers(p, s);
    } else {
      StuckStaysPending(p, tr, k - 1, s);
      RunPhaseStep(p, tr, k - 1);
      StuckStep(p, s, PhasesAt(p, tr[k - 1]), PhasesAt(p, tr[k]));
    }
    if i :| i in s {
      VerdictIsSound(p, tr, k);
      assert PhasesAt(p, tr[k])[i].Pending?;
    }
  }

  /** A stuck step with a fail condition keeps the pipeline from ever ending, also from failing. */
  lemma StuckHandlerNeverEnds(p: Spec, tr: seq<Store>, k: nat, s: set<nat>, i: nat)
    requires Run(p, tr) && k < |tr| && Stuck(p, s) && i in s && i < |p.steps| && p.steps[i].HandlesFailure()
    ensures !tr[k].status.phase.Terminal()
  {
    StuckStaysPending(p, tr, k, s);
    VerdictIsSound(p, tr, k);
    assert PhasesAt(p, tr[k])[i].Pending?;
  }

  ghost function Undecided(ph: seq<StepPhase>): set<nat> {
    set i: nat | i < |ph| && ph[i].Pending?
  }

  lemma WaitingIsStuck(p: Spec, ph: seq<StepPhase>)
    requires |ph| == |p.steps| && forall i :: 0 <= i < |ph| ==> !ph[i].Running?
    ensures Stuck(p, Undecided(ph)) <==> forall i :: 0 <= i < |ph| && ph[i].Pending? ==> Decide(p, ph, i) == Wait
  {
    var s := Undecided(ph);
    if Stuck(p, s) {
      forall i: nat | i < |ph| && ph[i].Pending?
        ensures Decide(p, ph, i) == Wait
      {
        assert i in s;
        StuckBlocks(p, s, ph, i);
      }
    }
    if forall i :: 0 <= i < |ph| && ph[i].Pending? ==> Decide(p, ph, i) == Wait {
      forall i
        ensures WaitsWithin(p, s, i)
      {
        if i in s && !Missing(p, i) {
          assert Blocked(p, ph, i);
          var j: nat :| j < |ph| && Dep(p, i, j) && ph[j].Waiting();
          assert j in s;
        }
      }
    }
  }

  lemma {:induction false} StuckNeverSettles(p: Spec, out: seq<StepPhase>, s: set<nat>, k: nat)
    requires Outcomes(p, out) && Stuck(p, s)
    ensures AllPending(Settle(p, out, k), s)
  {
    StuckMembers(p, s);
    if k > 0 {
      StuckNeverSettles(p, out, s, k - 1);
      forall i | i in s
        ensures Settle(p, out, k)[i].Pending?
      {
        StuckBlocks(p, s, Settle(p, out, k - 1), i);
      }
    }
  }

  /** A step has no fate, whatever the outcomes, exactly when it belongs to a stuck set. */
  lemma NeverDecidedExact(p: Spec, out: seq<StepPhase>, i: nat)
    requires Outcomes(p, out) && i < |p.steps|
    ensures FateOf(p, out)[i].Pending? <==> exists s :: Stuck(p, s) && i in s
  {
    var fate := FateOf(p, out);
    if fate[i].Pending? {
      FateIsFixed(p, out);
      assert forall k :: 0 <= k < |fate| && fate[k].Pending? ==> Round(p, out, fate)[k].Pending?;
      WaitingIsStuck(p, fate);
      assert i in Undecided(fate);
    }
    if s :| Stuck(p, s) && i in s {
      StuckNeverSettles(p, out, s, |p.steps|);
    }
  }

  /** With nothing running or suspended, every step is at its fate exactly when every Pending step waits. */
  lemma RestIsFateExact(p: Spec, out: seq<StepPhase>, ph: seq<StepPhase>)
    requires Outcomes(p, out) && |ph| == |p.steps| && FollowsFate(p, out, ph)
    requires forall i :: 0 <= i < |ph| ==> !ph[i].Running? && !ph[i].Suspended?
    ensures ph == FateOf(p, out) <==> forall i :: 0 <= i < |ph| && ph[i].Pending? ==> Decide(p, ph, i) == Wait
  {
    FateIsFixed(p, out);
    WaitingIsStuck(p, ph);
    if forall i :: 0 <= i < |ph| && ph[i].Pending? ==> Decide(p, ph, i) == Wait {
      forall i: nat | i < |ph|
        ensures ph[i] == FateOf(p, out)[i]
      {
        if ph[i].Pending? {
          assert i in Undecided(ph);
          NeverDecidedExact(p, out, i);
        }
      }
    }
    if ph == FateOf(p, out) {
      assert forall i :: 0 <= i < |ph| && ph[i].Pending? ==> Round(p, out, ph)[i].Pending?;
    }
  }

  /** The result of a finished run is the fate of all steps exactly when nothing that was due has been given up. */
  lemma WholeResultExact(p: Spec, tr: seq<Store>, out: seq<StepPhase>, k: nat)
    requires DeliveringRun(p, tr, out) && k < |tr| && tr[k].status.phase.Terminal()
    ensures var ph := PhasesAt(p, tr[k]);
            ph == FateOf(p, out) <==> forall i :: 0 <= i < |ph| && ph[i].Pending? ==> Decide(p, ph, i) == Wait
  {
    RunFollowsFate(p, tr, out, k);
    RunKeepsInv(p, tr, k);
    assert VerdictInv(p, tr[k]);
    RestIsFateExact(p, out, PhasesAt(p, tr[k]));
  }

  // ---- Stuck sets and cycles

  /** The waiting relation as a graph: an edge leads from a step to each step it waits for. */
  ghost function WaitsFor(p: Spec): set<(nat, nat)> {
    set i, j | i in UpTo(|p.steps|) && j in UpTo(|p.steps|) && Dep(p, i, j) :: (i, j)
  }

  lemma WaitsForEdge(p: Spec, i: nat, j: nat)
    ensures (i, j) in WaitsFor(p) <==> i < |p.steps| && j < |p.steps| && Dep(p, i, j)
  {}

  /** All listed steps exist and no step waits for itself, directly or through others. */
  ghost predicate Sound(p: Spec) {
    (forall i :: 0 <= i < |p.steps| ==> !Missing(p, i)) && !HasCycle(WaitsFor(p))
  }

  lemma StuckNext(p: Spec, s: set<nat>, i: nat) returns (j: nat)
    requires Stuck(p, s) && i in s && i < |p.steps| && !Missing(p, i)
    ensures j in s && (i, j) in WaitsFor(p)
  {
    assert WaitsWithin(p, s, i);
    j :| j in s && j < |p.steps| && Dep(p, i, j);
    WaitsForEdge(p, i, j);
  }

  /** In a stuck set with nothing missing one can walk on for ever. */
  lemma {:induction false} StuckWalk(p: Spec, s: set<nat>, i: nat, n: nat) returns (w: seq<nat>)
    requires Stuck(p, s) && i in s && forall j :: 0 <= j < |p.steps| ==> !Missing(p, j)
    ensures Walk(WaitsFor(p), w) && |w| == n + 1 && w[0] == i
    ensures forall k :: 0 <= k < |w| ==> w[k] in s
    decreases n
  {
    w := [i];
    if n > 0 {
      assert WaitsWithin(p, s, i);
      var j := StuckNext(p, s, i);
      var rest := StuckWalk(p, s, j, n - 1);
      Join(WaitsFor(p), w, rest);
      w := w + rest;
    }
  }

  lemma CycleIsStuck(p: Spec, w: seq<nat>) returns (s: set<nat>)
    requires Cycle(WaitsFor(p), w)
    ensures Stuck(p, s) && w[0] in s
  {
    s := set k | 0 <= k < |w| :: w[k];
    forall i
      ensures WaitsWithin(p, s, i)
    {
      if i in s {
        var k :| 0 <= k < |w| && w[k] == i;
        var k' := if k == |w| - 1 then 0 else k;
        assert Hop(WaitsFor(p), w, k');
        WaitsForEdge(p, w[k'], w[k' + 1]);
        assert w[k' + 1] in s;
      }
    }
  }

  /** A pipeline can get stuck exactly when it names a missing step or contains a dependency cycle. */
  lemma StuckExact(p: Spec)
    ensures Sound(p) <==> forall s :: Stuck(p, s) ==> s == {}
  {
    if Sound(p) {
      forall s | Stuck(p, s)
        ensures s == {}
      {
        if i :| i in s {
          StuckMembers(p, s);
          var w := StuckWalk(p, s, i, |p.steps|);
          LongWalkHasCycle(WaitsFor(p), w, UpTo(|p.steps|));
        }
      }
    }
    if forall s :: Stuck(p, s) ==> s == {} {
      forall i: nat | i < |p.steps|
        ensures !Missing(p, i)
      {
        assert Missing(p, i) ==> Stuck(p, {i});
      }
      if w :| Cycle(WaitsFor(p), w) {
        var s := CycleIsStuck(p, w);
      }
    }
  }

  /** Every step has a fate, whatever the outcomes, exactly in sound pipelines. */
  lemma EverythingDecidedExact(p: Spec, out: seq<StepPhase>)
    requires Outcomes(p, out)
    ensures Sound(p) <==> forall i :: 0 <= i < |p.steps| ==> FateOf(p, out)[i].Terminal()
  {
    StuckExact(p);
    if Sound(p) {
      forall i: nat | i < |p.steps|
        ensures FateOf(p, out)[i].Terminal()
      {
        NeverDecidedExact(p, out, i);
      }
    } else {
      var s :| Stuck(p, s) && s != {};
      var i :| i in s;
      assert WaitsWithin(p, s, i);
      NeverDecidedExact(p, out, i);
    }
  }

  // ---- The first step

  ghost predicate ListsNonEmpty(p: Spec) {
    forall i :: 0 <= i < |p.steps| && p.steps[i].runIf.Some? ==> p.steps[i].runIf.value.steps != []
  }

  /** With a conditional first step every step waits for another one: the pipeline is one stuck set. */
  lemma ConditionalFirstStepSticks(p: Spec)
    requires |p.steps| > 0 && ListsNonEmpty(p) && p.steps[0].runIf.Some?
    ensures Stuck(p, UpTo(|p.steps|))
  {
    forall i: nat
      ensures WaitsWithin(p, UpTo(|p.steps|), i)
    {
      if i !in UpTo(|p.steps|) {
      } else if p.steps[i].runIf.None? {
        assert Dep(p, i, 0);
      } else if !Missing(p, i) {
        var name := p.steps[i].runIf.value.steps[0];
        assert name in p.steps[i].runIf.value.steps;
        assert Known(p, name);
        var j: nat :| j < |p.steps| && p.steps[j].name == name;
        assert Dep(p, i, j);
      }
    }
  }

  /** Nothing can make the controller skip an unconditional first step. */
  lemma {:induction false} FirstNeverSkipped(p: Spec, tr: seq<Store>, k: nat)
    requires Run(p, tr) && k < |tr| && |p.steps| > 0 && p.steps[0].runIf.None?
    ensures !PhasesAt(p, tr[k])[0].Skipped?
  {
    if k > 0 {
      FirstNeverSkipped(p, tr, k - 1);
      RunPhaseStep(p, tr, k - 1);
      FirstNotSkipped(p, PhasesAt(p, tr[k - 1]), PhasesAt(p, tr[k]));
    }
  }

  lemma FirstNotSkipped(p: Spec, ph: seq<StepPhase>, ph': seq<StepPhase>)
    requires |ph| == |ph'| == |p.steps| > 0 && p.steps[0].runIf.None?
    requires AnyPhaseStep(p, ph, ph') && !ph[0].Skipped?
    ensures !ph'[0].Skipped?
  {
    SequentialRule(p, ph, 0);
  }

  /** A pipeline that reports success has run its first step, which is an unconditional one, in every run. */
  lemma SuccessRanFirstStep(p: Spec, tr: seq<Store>, k: nat)
    requires Run(p, tr) && k < |tr| && |p.steps| > 0 && ListsNonEmpty(p)
    requires tr[k].status.phase.Succeeded?
    ensures p.steps[0].runIf.None? && PhasesAt(p, tr[k])[0].Succeeded?
  {
    VerdictIsSound(p, tr, k);
    if p.steps[0].runIf.Some? {
      assert 0 in UpTo(|p.steps|);
      ConditionalFirstStepSticks(p);
      StuckStaysPending(p, tr, k, UpTo(|p.steps|));
    } else {
      FirstNeverSkipped(p, tr, k);
    }
  }
}
