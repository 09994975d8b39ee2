/** The fate of every step, as a fixed point of the waiting rules for given Job outcomes. In steady runs, whatever the
    schedule, no step gets another final phase than its fate; a step that the pipeline gives up on stays Pending. */
module Fate {
  import opened Counting
  import opened PipelineTypes
  import opened Scheduling
  import opened Passes
  import opened Transitions
  import opened Invariants
  import opened RunProperties

  /** How each step's Job would end if it ran. */
  ghost predicate Outcomes(p: Spec, out: seq<StepPhase>) {
    |out| == |p.steps| && forall i :: 0 <= i < |out| ==> out[i].Succeeded? || out[i].Failed?
  }

  /** One round: every step whose dependencies are final gets its own final phase, the others are Pending. */
  ghost function Round(p: Spec, out: seq<StepPhase>, ph: seq<StepPhase>): (r: seq<StepPhase>)
    requires Outcomes(p, out) && |ph| == |p.steps|
    ensures |r| == |p.steps| && SuspensionFree(r)
    ensures forall i :: 0 <= i < |r| ==>
              (r[i].Pending? || r[i].Terminal()) && (r[i].Pending? <==> Decide(p, ph, i) == Wait)
  {
    seq(|p.steps|, i requires 0 <= i < |p.steps| =>
      match Decide(p, ph, i) case Wait => StepPhase.Pending case Skip => StepPhase.Skipped case Start => out[i])
  }

  ghost function Settle(p: Spec, out: seq<StepPhase>, k: nat): (r: seq<StepPhase>)
    requires Outcomes(p, out)
    ensures |r| == |p.steps| && SuspensionFree(r)
    ensures forall i :: 0 <= i < |r| ==> r[i].Pending? || r[i].Terminal()
  {
    if k == 0 then seq(|p.steps|, i => StepPhase.Pending) else Round(p, out, Settle(p, out, k - 1))
  }

  /** What the waiting rules make of every step, given the outcomes alone; Pending means that they never decide it. */
  ghost function FateOf(p: Spec, out: seq<StepPhase>): (r: seq<StepPhase>)
    requires Outcomes(p, out)
    ensures |r| == |p.steps| && SuspensionFree(r)
  {
    Settle(p, out, |p.steps|)
  }

  lemma RoundKeeps(p: Spec, out: seq<StepPhase>, a: seq<StepPhase>, b: seq<StepPhase>)
    requires Outcomes(p, out) && |a| == |b| == |p.steps|
    requires SuspensionFree(a) && KeepsFinal(a, b)
    ensures KeepsFinal(Round(p, out, a), Round(p, out, b))
  {
    forall i | 0 <= i < |a| && Round(p, out, a)[i].Terminal()
      ensures Round(p, out, b)[i] == Round(p, out, a)[i]
    {
      DecidedIsGrounded(p, a, i);
      DecisionStable(p, a, b, i);
    }
  }

  lemma SettleBegins(p: Spec, out: seq<StepPhase>)
    requires Outcomes(p, out)
    ensures KeepsFinal(Settle(p, out, 0), Settle(p, out, 1))
  {
    var a := Settle(p, out, 0);
    assert forall i :: 0 <= i < |a| ==> a[i].Pending?;
  }

  lemma SettleGoesOn(p: Spec, out: seq<StepPhase>, k: nat)
    requires Outcomes(p, out) && KeepsFinal(Settle(p, out, k), Settle(p, out, k + 1))
    ensures KeepsFinal(Settle(p, out, k + 1), Settle(p, out, k + 2))
  {
    var a, b, c := Settle(p, out, k), Settle(p, out, k + 1), Settle(p, out, k + 2);
    assert b == Round(p, out, a) && c == Round(p, out, b);
    RoundKeeps(p, out, a, b);
  }

  lemma {:induction false} SettleGrows(p: Spec, out: seq<StepPhase>, k: nat)
    requires Outcomes(p, out)
    ensures KeepsFinal(Settle(p, out, k), Settle(p, out, k + 1))
  {
    if k == 0 {
      SettleBegins(p, out);
    } else {
      SettleGrows(p, out, k - 1);
      SettleGoesOn(p, out, k - 1);
    }
  }

  ghost function Decided(ph: seq<StepPhase>): set<nat> {
    set i: nat | i < |ph| && !ph[i].Pending?
  }

  lemma DecidedSize(ph: seq<StepPhase>)
    ensures |Decided(ph)| <= |ph|
    ensures |Decided(ph)| == |ph| ==> forall i: nat :: i < |ph| ==> !ph[i].Pending?
  {
    var all := UpTo(|ph|);
    SubsetSize(Decided(ph), all);
    if |Decided(ph)| == |ph| {
      forall i: nat | i < |ph|
        ensures !ph[i].Pending?
      {
        assert i in all;
        assert i in Decided(ph);
      }
    }
  }

  lemma GrowthCounts(a: seq<StepPhase>, b: seq<StepPhase>)
    requires |a| == |b| && KeepsFinal(a, b) && a != b
    requires forall i :: 0 <= i < |a| ==> a[i].Pending? || a[i].Terminal()
    ensures |Decided(a)| < |Decided(b)|
  {
    var i: nat :| i < |a| && a[i] != b[i];
    assert Decided(a) <= Decided(b);
    assert i !in Decided(a) && i in Decided(b);
    SubsetSize(Decided(a), Decided(b));
  }

  lemma RepeatsForever(p: Spec, out: seq<StepPhase>, k: nat)
    requires Outcomes(p, out) && Settle(p, out, k + 1) == Settle(p, out, k)
    ensures Settle(p, out, k + 2) == Settle(p, out, k + 1)
  {
    assert Settle(p, out, k + 2) == Round(p, out, Settle(p, out, k + 1));
  }

  /** Until the rounds repeat, each decides at least one more step. */
  lemma {:induction false} RoundsCount(p: Spec, out: seq<StepPhase>, k: nat)
    requires Outcomes(p, out)
    ensures Settle(p, out, k + 1) == Settle(p, out, k) || k <= |Decided(Settle(p, out, k))|
  {
    if k > 0 {
      var j := k - 1;
      RoundsCount(p, out, j);
      if Settle(p, out, j + 1) == Settle(p, out, j) {
        RepeatsForever(p, out, j);
      } else {
        SettleGrows(p, out, j);
        GrowthCounts(Settle(p, out, j), Settle(p, out, j + 1));
      }
    }
  }

  /** The fate is a fixed point of the waiting rules. */
  lemma FateIsFixed(p: Spec, out: seq<StepPhase>)
    requires Outcomes(p, out)
    ensures Round(p, out, FateOf(p, out)) == FateOf(p, out)
  {
    var n := |p.steps|;
    RoundsCount(p, out, n);
    SettleGrows(p, out, n);
    DecidedSize(FateOf(p, out));
    assert Settle(p, out, n + 1) == Round(p, out, FateOf(p, out));
    if |Decided(FateOf(p, out))| >= n {
      assert forall i :: 0 <= i < n ==> FateOf(p, out)[i].Terminal();
    }
  }

  // ---- Every run follows the fate

  /** The step's own Job, when finished, has finished with the step's outcome. */
  ghost predicate Delivers(p: Spec, s: Store, out: seq<StepPhase>)
    requires Outcomes(p, out)
  {
    forall i :: 0 <= i < |out| && JobName(p, i) in Owned(p, s.jobs) ==>
      var result := FirstTrue(s.jobs[JobName(p, i)].status.conditions);
      result == Some(StepPhase.Succeeded) || result == Some(StepPhase.Failed) ==> result == Some(out[i])
  }

  ghost predicate DeliversAt(p: Spec, tr: seq<Store>, out: seq<StepPhase>, k: int)
    requires Outcomes(p, out)
  {
    0 <= k < |tr| ==> Delivers(p, tr[k], out)
  }

  ghost predicate DeliveringRun(p: Spec, tr: seq<Store>, out: seq<StepPhase>) {
    SteadyRun(p, tr) && Outcomes(p, out) && forall k :: DeliversAt(p, tr, out, k)
  }

  /** Final phases agree with `fate`, and only steps that start on it have started. */
  ghost predicate Tracks(p: Spec, fate: seq<StepPhase>, ph: seq<StepPhase>)
    requires |fate| == |ph| == |p.steps|
  {
    KeepsFinal(ph, fate) && forall i :: 0 <= i < |ph| && ph[i].Started() ==> Decide(p, fate, i) == Start
  }

  ghost predicate FollowsFate(p: Spec, out: seq<StepPhase>, ph: seq<StepPhase>)
    requires Outcomes(p, out) && |ph| == |p.steps|
  {
    Tracks(p, FateOf(p, out), ph)
  }

  lemma ObservedAsDelivered(p: Spec, s: Store, s': Store, out: seq<StepPhase>, i: nat)
    requires Inv(p, s) && ObserveJobs(p, s, s') && Outcomes(p, out) && Delivers(p, s, out) && i < |p.steps|
    requires !PhasesAt(p, s)[i].Terminal() && (PhasesAt(p, s')[i].Succeeded? || PhasesAt(p, s')[i].Failed?)
    ensures PhasesAt(p, s')[i] == out[i] && PhasesAt(p, s)[i].Started()
  {
    JobNameNotEmpty(p, i);
    ObservedPhases(s.status.steps[i], s.jobs);
    assert JobName(p, i) in Owned(p, s.jobs);
  }

  lemma WalkFinishesNothing(p: Spec, ph: seq<StepPhase>, ph': seq<StepPhase>, i: nat)
    requires |ph| == |ph'| == |p.steps| && i < |ph| && (ph' == ph || WalkPhaseStep(p, ph, ph'))
    ensures ph'[i].Succeeded? || ph'[i].Failed? ==> ph[i].Terminal()
  {}

  /** A step finishes with its Job's outcome. */
  lemma FinishesAsDelivered(p: Spec, s: Store, s': Store, out: seq<StepPhase>, i: nat)
    requires Inv(p, s) && Next(p, s, s') && Outcomes(p, out) && Delivers(p, s, out) && i < |p.steps|
    requires !PhasesAt(p, s)[i].Terminal() && (PhasesAt(p, s')[i].Succeeded? || PhasesAt(p, s')[i].Failed?)
    ensures PhasesAt(p, s')[i] == out[i] && PhasesAt(p, s)[i].Started()
  {
    if ObserveJobs(p, s, s') {
      ObservedAsDelivered(p, s, s', out, i);
    } else {
      OtherStepsWalk(p, s, s');
      WalkFinishesNothing(p, PhasesAt(p, s), PhasesAt(p, s'), i);
      assert false;
    }
  }

  /** On phases: nothing finishes other than as the outcomes say. */
  ghost predicate FinishesBy(out: seq<StepPhase>, ph: seq<StepPhase>, ph': seq<StepPhase>)
    requires |out| == |ph| == |ph'|
  {
    forall i :: 0 <= i < |ph| && !ph[i].Terminal() && (ph'[i].Succeeded? || ph'[i].Failed?) ==>
      ph[i].Started() && ph'[i] == out[i]
  }

  lemma PhasesFollowFate(p: Spec, out: seq<StepPhase>, ph: seq<StepPhase>, ph': seq<StepPhase>)
    requires Outcomes(p, out) && |ph| == |ph'| == |p.steps| && PhaseStep(p, ph, ph') && FinishesBy(out, ph, ph')
    requires Steady(p, ph, ph') && FollowsFate(p, out, ph)
    ensures FollowsFate(p, out, ph')
  {
    var fate := FateOf(p, out);
    PhaseStepAdvances(p, ph, ph');
    FateIsFixed(p, out);
    forall i | 0 <= i < |ph'|
      ensures ph'[i].Terminal() ==> fate[i] == ph'[i]
      ensures ph'[i].Started() ==> Decide(p, fate, i) == Start
    {
      assert fate[i] == Round(p, out, fate)[i];
      if ph[i].Pending? && !ph'[i].Pending? {
        SteadyDecision(p, ph, ph', i);
        DecisionStable(p, ph, fate, i);
      }
    }
  }

  lemma DeliveringStep(p: Spec, tr: seq<Store>, out: seq<StepPhase>, k: nat)
    requires DeliveringRun(p, tr, out) && k + 1 < |tr|
    ensures FinishesBy(out, PhasesAt(p, tr[k]), PhasesAt(p, tr[k + 1]))
  {
    RunKeepsInv(p, tr, k);
    assert StepAt(p, tr, k);
    assert DeliversAt(p, tr, out, k);
    forall i: nat | i < |p.steps| && !PhasesAt(p, tr[k])[i].Terminal() &&
                    (PhasesAt(p, tr[k + 1])[i].Succeeded? || PhasesAt(p, tr[k + 1])[i].Failed?)
      ensures PhasesAt(p, tr[k])[i].Started() && PhasesAt(p, tr[k + 1])[i] == out[i]
    {
      FinishesAsDelivered(p, tr[k], tr[k + 1], out, i);
    }
  }

  lemma RunStepFollowsFate(p: Spec, tr: seq<Store>, out: seq<StepPhase>, k: nat)
    requires DeliveringRun(p, tr, out) && k + 1 < |tr| && FollowsFate(p, out, PhasesAt(p, tr[k]))
    ensures FollowsFate(p, out, PhasesAt(p, tr[k + 1]))
  {
    SteadyStep(p, tr, k);
    DeliveringStep(p, tr, out, k);
    PhasesFollowFate(p, out, PhasesAt(p, tr[k]), PhasesAt(p, tr[k + 1]));
  }

  lemma InitFollowsFate(p: Spec, s: Store, out: seq<StepPhase>)
    requires Init(p, s) && Outcomes(p, out)
    ensures FollowsFate(p, out, PhasesAt(p, s))
  {
    assert forall i :: 0 <= i < |p.steps| ==> PhasesAt(p, s)[i].Pending?;
  }

  /** Schedule independence: whatever is observed when, and whichever calls fail, every final phase is the step's
      fate. */
  lemma {:induction false} RunFollowsFate(p: Spec, tr: seq<Store>, out: seq<StepPhase>, k: nat)
    requires DeliveringRun(p, tr, out) && k < |tr|
    ensures FollowsFate(p, out, PhasesAt(p, tr[k]))
  {
    if k == 0 {
      InitFollowsFate(p, tr[0], out);
    } else {
      RunFollowsFate(p, tr, out, k - 1);
      RunStepFollowsFate(p, tr, out, k - 1);
    }
  }

  /** Two runs of the same pipeline with the same outcomes agree on every step both have decided. */
  lemma RunsAgree(p: Spec, tr: seq<Store>, tr': seq<Store>, out: seq<StepPhase>, k: nat, l: nat, i: nat)
    requires DeliveringRun(p, tr, out) && DeliveringRun(p, tr', out) && k < |tr| && l < |tr'| && i < |p.steps|
    requires PhasesAt(p, tr[k])[i].Terminal() && PhasesAt(p, tr'[l])[i].Terminal()
    ensures PhasesAt(p, tr[k])[i] == PhasesAt(p, tr'[l])[i]
  {
    RunFollowsFate(p, tr, out, k);
    RunFollowsFate(p, tr', out, l);
  }

  /** A finished pipeline is Failed exactly when some step's fate is to fail. */
  lemma VerdictFollowsFate(p: Spec, tr: seq<Store>, out: seq<StepPhase>, k: nat)
    requires DeliveringRun(p, tr, out) && k < |tr| && tr[k].status.phase.Terminal()
    ensures tr[k].status.phase.Failed? <==> exists i :: 0 <= i < |p.steps| && FateOf(p, out)[i].Failed?
    ensures tr[k].status.phase.Succeeded? ==> PhasesAt(p, tr[k]) == FateOf(p, out)
  {
    RunFollowsFate(p, tr, out, k);
    RunKeepsInv(p, tr, k);
    var ph := PhasesAt(p, tr[k]);
    if tr[k].status.phase.Failed? {
      var i :| 0 <= i < |ph| && ph[i].Failed?;
      assert FateOf(p, out)[i].Failed?;
    } else {
      assert forall i :: 0 <= i < |ph| ==> ph[i].Terminal() && FateOf(p, out)[i] == ph[i];
    }
  }

  /** So two finished runs with the same outcomes report the same verdict. */
  lemma VerdictsAgree(p: Spec, tr: seq<Store>, tr': seq<Store>, out: seq<StepPhase>, k: nat, l: nat)
    requires DeliveringRun(p, tr, out) && DeliveringRun(p, tr', out) && k < |tr| && l < |tr'|
    requires tr[k].status.phase.Terminal() && tr'[l].status.phase.Terminal()
    ensures tr[k].status.phase == tr'[l].status.phase
  {
    VerdictFollowsFate(p, tr, out, k);
    VerdictFollowsFate(p, tr', out, l);
  }

  // ---- What a finished run leaves

  /** Every step has met its fate, except that a Failed pipeline may have given up on a Pending step without a fail
      condition. */
  lemma FinishedRunLeaves(p: Spec, tr: seq<Store>, out: seq<StepPhase>, k: nat, i: nat)
    requires DeliveringRun(p, tr, out) && k < |tr| && tr[k].status.phase.Terminal() && i < |p.steps|
    ensures var phase := PhasesAt(p, tr[k])[i];
            phase == FateOf(p, out)[i] ||
            (phase.Pending? && tr[k].status.phase.Failed? && !p.steps[i].HandlesFailure())
  {
    RunFollowsFate(p, tr, out, k);
    RunKeepsInv(p, tr, k);
    assert VerdictInv(p, tr[k]);
  }

  lemma PlainEnd(p: Spec, tr: seq<Store>, k: nat) returns (cut: nat)
    requires SteadyRun(p, tr) && Plain(p) && k < |tr| && tr[k].status.phase.Terminal()
    ensures var ph := PhasesAt(p, tr[k]);
            && cut <= |ph|
            && (forall i :: 0 <= i < cut ==> ph[i].Succeeded?)
            && (cut < |ph| ==> ph[cut].Failed?)
            && (forall i :: cut < i < |ph| ==> ph[i].Pending?)
  {
    cut := SequentialShape(p, tr, k);
    RunKeepsInv(p, tr, k);
    var ph := PhasesAt(p, tr[k]);
    assert VerdictInv(p, tr[k]);
    if cut < |ph| && tr[k].status.phase.Failed? {
      var j :| 0 <= j < |ph| && ph[j].Failed?;
      assert j == cut;
    }
  }

  /** Without runIf the whole result is the same in every schedule: two finished runs with the same outcomes leave the
      same phases. */
  lemma PlainResultsAgree(p: Spec, tr: seq<Store>, tr': seq<Store>, out: seq<StepPhase>, k: nat, l: nat)
    requires DeliveringRun(p, tr, out) && DeliveringRun(p, tr', out) && Plain(p) && k < |tr| && l < |tr'|
    requires tr[k].status.phase.Terminal() && tr'[l].status.phase.Terminal()
    ensures PhasesAt(p, tr[k]) == PhasesAt(p, tr'[l])
  {
    var a := PlainEnd(p, tr, k);
    var b := PlainEnd(p, tr', l);
    if a < b {
      RunsAgree(p, tr, tr', out, k, l, a);
    } else if b < a {
      RunsAgree(p, tr, tr', out, k, l, b);
    }
  }
}
