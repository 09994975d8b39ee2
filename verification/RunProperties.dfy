/** Theorems about whole runs: one-way lifecycles, final verdicts, justified decisions, clean-up, job creation. */
module RunProperties {
  import opened PipelineTypes
  import opened Scheduling
  import opened Passes
  import opened Transitions
  import opened Invariants

  function PhasesAt(p: Spec, s: Store): (r: seq<StepPhase>)
    ensures |r| == |p.steps|
  {
    Phases(p, s.status.steps)
  }

  // ---- One-way lifecycle

  lemma PhaseStepAdvances(p: Spec, ph: seq<StepPhase>, ph': seq<StepPhase>)
    requires |ph| == |p.steps| && PhaseStep(p, ph, ph')
    ensures |ph'| == |ph| && KeepsFinal(ph, ph')
    ensures forall i :: 0 <= i < |ph| ==> Advances(ph[i], ph'[i])
  {}

  /** What no step undoes: a start and a skip are never taken back. */
  predicate KeepsDecision(a: StepPhase, b: StepPhase) {
    && (a.Started() ==> b.Started())
    && (a.Skipped? ==> b.Skipped?)
    && (a.Pending? ==> b.Pending? || b.Running? || b.Skipped?)
  }

  lemma AnyPhaseStepKeeps(p: Spec, ph: seq<StepPhase>, ph': seq<StepPhase>)
    requires |ph| == |p.steps| && AnyPhaseStep(p, ph, ph')
    ensures |ph'| == |ph| && forall i :: 0 <= i < |ph| ==> KeepsDecision(ph[i], ph'[i])
  {}

  lemma DecisionStays(p: Spec, tr: seq<Store>, k: nat, i: nat)
    requires Run(p, tr) && k + 1 < |tr| && i < |p.steps|
    ensures KeepsDecision(PhasesAt(p, tr[k])[i], PhasesAt(p, tr[k + 1])[i])
  {
    RunPhaseStep(p, tr, k);
    AnyPhaseStepKeeps(p, PhasesAt(p, tr[k]), PhasesAt(p, tr[k + 1]));
  }

  /** In every run, whatever happens to the Jobs, a started step stays started, a skipped step stays skipped, and no
      step returns to Pending. */
  lemma {:induction false} DecisionIsFinal(p: Spec, tr: seq<Store>, k: nat, l: nat, i: nat)
    requires Run(p, tr) && k <= l < |tr| && i < |p.steps|
    ensures PhasesAt(p, tr[k])[i].Started() ==> PhasesAt(p, tr[l])[i].Started()
    ensures PhasesAt(p, tr[k])[i].Skipped? ==> PhasesAt(p, tr[l])[i].Skipped?
    decreases l
  {
    if k < l {
      DecisionIsFinal(p, tr, k, l - 1, i);
      DecisionStays(p, tr, l - 1, i);
    }
  }

  /** The Job of a finished step, if there is one, is read with the result the step has. */
  ghost predicate ReadsTheSame(s: Store) {
    forall i :: 0 <= i < |s.status.steps| && (s.status.steps[i].phase.Succeeded? || s.status.steps[i].phase.Failed?) &&
                s.status.steps[i].jobName in s.jobs ==>
      var job := s.jobs[s.status.steps[i].jobName].status;
      Settled(job, s.status.steps[i].phase) || (FirstTrue(job.conditions).None? && job.active <= 0)
  }

  lemma ObservationAdvancesExact(p: Spec, s: Store, s': Store)
    requires CoreInv(p, s) && ObserveJobs(p, s, s')
    ensures (forall i :: 0 <= i < |p.steps| ==> Advances(PhasesAt(p, s)[i], PhasesAt(p, s')[i])) <==> ReadsTheSame(s)
  {
    ObserveJobsKeepsCore(p, s, s');
    forall i | 0 <= i < |p.steps| && (s.status.steps[i].phase.Succeeded? || s.status.steps[i].phase.Failed?)
      ensures PhasesAt(p, s)[i] == s.status.steps[i].phase
      ensures PhasesAt(p, s')[i] == s.status.steps[i].phase <==>
              (s.status.steps[i].jobName in s.jobs ==>
                 var job := s.jobs[s.status.steps[i].jobName].status;
                 Settled(job, s.status.steps[i].phase) || (FirstTrue(job.conditions).None? && job.active <= 0))
    {
      JobNameNotEmpty(p, i);
      FinalPhaseKeptExact(s.status.steps[i], s.jobs);
    }
  }

  lemma WalkAdvances(p: Spec, ph: seq<StepPhase>, ph': seq<StepPhase>)
    requires |ph| == |p.steps| && (ph' == ph || WalkPhaseStep(p, ph, ph'))
    ensures |ph'| == |ph| && forall i :: 0 <= i < |ph| ==> Advances(ph[i], ph'[i])
  {}

  lemma StepAdvancesExact(p: Spec, s: Store, s': Store)
    requires CoreInv(p, s) && Next(p, s, s')
    ensures (forall i :: 0 <= i < |p.steps| ==> Advances(PhasesAt(p, s)[i], PhasesAt(p, s')[i])) <==>
            (ObserveJobs(p, s, s') ==> ReadsTheSame(s))
  {
    if ObserveJobs(p, s, s') {
      ObservationAdvancesExact(p, s, s');
    } else {
      OtherStepsWalk(p, s, s');
      WalkAdvances(p, PhasesAt(p, s), PhasesAt(p, s'));
    }
  }

  /** The lifecycle, exactly: a step of a run moves every phase along it unless it is an observation that reads the
      Job of a finished step with another result. */
  lemma LifecycleExact(p: Spec, tr: seq<Store>, k: nat)
    requires Run(p, tr) && k + 1 < |tr|
    ensures (forall i :: 0 <= i < |p.steps| ==> Advances(PhasesAt(p, tr[k])[i], PhasesAt(p, tr[k + 1])[i])) <==>
            (ObserveJobs(p, tr[k], tr[k + 1]) ==> ReadsTheSame(tr[k]))
  {
    RunKeepsCore(p, tr, k);
    assert StepAt(p, tr, k);
    StepAdvancesExact(p, tr[k], tr[k + 1]);
  }

  /** While no Job is replaced, every step moves every phase along the lifecycle, also when Jobs vanish or writes
      fail. */
  lemma LifecycleInRun(p: Spec, tr: seq<Store>, k: nat, i: nat)
    requires LastingRun(p, tr) && k + 1 < |tr| && i < |p.steps|
    ensures Advances(PhasesAt(p, tr[k])[i], PhasesAt(p, tr[k + 1])[i])
  {
    LastingPhaseStep(p, tr, k);
    PhaseStepAdvances(p, PhasesAt(p, tr[k]), PhasesAt(p, tr[k + 1]));
  }

  /** Then a final step phase is final for the rest of the run. */
  lemma {:induction false} FinalPhaseStays(p: Spec, tr: seq<Store>, k: nat, l: nat, i: nat)
    requires LastingRun(p, tr) && k <= l < |tr| && i < |p.steps| && PhasesAt(p, tr[k])[i].Terminal()
    ensures PhasesAt(p, tr[l])[i] == PhasesAt(p, tr[k])[i]
    decreases l
  {
    if k < l {
      FinalPhaseStays(p, tr, k, l - 1, i);
      LifecycleInRun(p, tr, l - 1, i);
    }
  }

  // ---- The verdict

  /** A pass ends the pipeline exactly when no work is left: nothing runs or is suspended, and what is still Pending
      has been given up because of a failure it does not handle. Otherwise it reports what goes on. */
  lemma VerdictExact(p: Spec, steps: seq<StepStatus>, before: PipelinePhase)
    requires Aligned(p, steps) && !before.Terminal()
    ensures var ph, next := Phases(p, steps), NextPhase(p, steps, before);
            var failed := exists i :: 0 <= i < |ph| && ph[i].Failed?;
            && (next.Terminal() <==>
                  && (forall i :: 0 <= i < |ph| ==> !ph[i].Running? && !ph[i].Suspended?)
                  && (forall i :: 0 <= i < |ph| && ph[i].Pending? ==> failed && !p.steps[i].HandlesFailure()))
            && (next.Failed? <==> next.Terminal() && failed)
            && ((exists i :: 0 <= i < |ph| && ph[i].Running?) ==> next.Running?)
            && ((exists i :: 0 <= i < |ph| && ph[i].Suspended?) ==> next.Running? || next.Suspended?)
            && (next.Suspended? && !before.Suspended? ==> exists i :: 0 <= i < |ph| && ph[i].Suspended?)
            && (next.Running? && !before.Running? ==> failed || exists i :: 0 <= i < |ph| && ph[i].Running?)
  {
    var ph := Phases(p, steps);
    assert forall i :: 0 <= i < |ph| ==> ph[i] == steps[i].phase;
    assert Any(steps, StepPhase.Failed) <==> exists i :: 0 <= i < |ph| && ph[i].Failed?;
    assert Any(steps, StepPhase.Running) <==> exists i :: 0 <= i < |ph| && ph[i].Running?;
    assert Any(steps, StepPhase.Suspended) <==> exists i :: 0 <= i < |ph| && ph[i].Suspended?;
  }

  lemma VerdictStep(p: Spec, s: Store, s': Store)
    requires Next(p, s, s') && s.status.phase.Terminal()
    ensures s'.status == s.status
  {}

  /** Once Succeeded or Failed is reported, no event changes any part of the status again. */
  lemma {:induction false} VerdictIsFinal(p: Spec, tr: seq<Store>, k: nat, l: nat)
    requires Run(p, tr) && k <= l < |tr| && tr[k].status.phase.Terminal()
    ensures tr[l].status == tr[k].status
    decreases l
  {
    if k < l {
      VerdictIsFinal(p, tr, k, l - 1);
      assert StepAt(p, tr, l - 1);
      VerdictStep(p, tr[l - 1], tr[l]);
    }
  }

  /** What a report tells the reader, in every state from the report on. */
  lemma VerdictIsSound(p: Spec, tr: seq<Store>, k: nat)
    requires Run(p, tr) && k < |tr|
    ensures var s, ph := tr[k], PhasesAt(p, tr[k]);
            && (s.status.phase.Succeeded? ==> forall i :: 0 <= i < |ph| ==> ph[i].Succeeded? || ph[i].Skipped?)
            && (s.status.phase.Failed? ==>
                  && (exists i :: 0 <= i < |ph| && ph[i].Failed?)
                  && (forall i :: 0 <= i < |ph| ==> !ph[i].Running? && !ph[i].Suspended?)
                  && (forall i :: 0 <= i < |ph| && ph[i].Pending? ==> !p.steps[i].HandlesFailure()))
            && (s.status.completionTime.Some? <==> s.status.phase.Terminal())
            && ("Ready" in s.status.conditions ==>
                  && s.status.conditions["Ready"].reason == s.status.phase
                  && (s.status.conditions["Ready"].status == True <==> s.status.phase.Succeeded?))
            && ("Ready" !in s.status.conditions ==> s.status.phase.Unset? || s.status.phase.Pending?)
  {
    RunKeepsCore(p, tr, k);
    var s, ph := tr[k], PhasesAt(p, tr[k]);
    assert StatusInv(s) && VerdictInv(p, s) && ph == Phases(p, s.status.steps);
    if "Ready" in s.status.conditions {
      assert s.status.conditions["Ready"] == ReadyFor(s.status.phase);
    }
    if s.status.phase.Failed? {
      var i :| 0 <= i < |ph| && ph[i].Failed?;
      forall j | 0 <= j < |ph|
        ensures !ph[j].Running? && !ph[j].Suspended? && (ph[j].Pending? ==> !p.steps[j].HandlesFailure())
      {
        assert p.steps[j].HandlesFailure() ==> !ph[j].Pending?;
      }
    }
  }

  /** The completion time is written once. */
  lemma CompletionTimeWrittenOnce(p: Spec, tr: seq<Store>, k: nat, l: nat)
    requires Run(p, tr) && k <= l < |tr| && tr[k].status.completionTime.Some?
    ensures tr[l].status.completionTime == tr[k].status.completionTime
  {
    RunKeepsCore(p, tr, k);
    VerdictIsFinal(p, tr, k, l);
  }

  /** When the object is gone, so are all Jobs it owned. */
  lemma NoJobOutlivesPipeline(p: Spec, tr: seq<Store>, k: nat)
    requires Run(p, tr) && k < |tr| && !tr[k].present
    ensures Owned(p, tr[k].jobs) == {}
  {
    RunKeepsCore(p, tr, k);
  }

  // ---- Decisions stay justified

  /** No step is decided while a step it looks at is Suspended. */
  ghost predicate Steady(p: Spec, ph: seq<StepPhase>, ph': seq<StepPhase>)
    requires |ph| == |ph'| == |p.steps|
  {
    forall i, j :: 0 <= i < |ph| && 0 <= j < |ph| && Dep(p, i, j) && ph[i].Pending? && !ph'[i].Pending? ==>
      !ph[j].Suspended?
  }

  ghost predicate SteadyAt(p: Spec, tr: seq<Store>, k: int) {
    0 <= k < |tr| - 1 ==> Steady(p, PhasesAt(p, tr[k]), PhasesAt(p, tr[k + 1]))
  }

  /** A run in which the guard that both dependency switches lack is respected. */
  ghost predicate SteadyRun(p: Spec, tr: seq<Store>) {
    LastingRun(p, tr) && forall k :: SteadyAt(p, tr, k)
  }

  lemma SteadyStep(p: Spec, tr: seq<Store>, k: nat)
    requires SteadyRun(p, tr) && k + 1 < |tr|
    ensures PhaseStep(p, PhasesAt(p, tr[k]), PhasesAt(p, tr[k + 1]))
    ensures Steady(p, PhasesAt(p, tr[k]), PhasesAt(p, tr[k + 1]))
  {
    assert SteadyAt(p, tr, k);
    LastingPhaseStep(p, tr, k);
  }

  /** Every started step meets its start condition now, every skipped step its skip condition, on final phases. */
  ghost predicate Justified(p: Spec, ph: seq<StepPhase>)
    requires |ph| == |p.steps|
  {
    forall i :: 0 <= i < |ph| ==>
      && (ph[i].Started() ==> Grounded(p, ph, i) && Decide(p, ph, i) == Start)
      && (ph[i].Skipped? ==> Grounded(p, ph, i) && Decide(p, ph, i) == Skip)
  }

  /** What a decision taken in a steady step rests on. */
  lemma SteadyDecision(p: Spec, ph: seq<StepPhase>, ph': seq<StepPhase>, i: nat)
    requires |ph| == |ph'| == |p.steps| && PhaseStep(p, ph, ph') && Steady(p, ph, ph')
    requires i < |ph| && ph[i].Pending? && !ph'[i].Pending?
    ensures Grounded(p, ph, i) && Decide(p, ph, i) == if ph'[i].Skipped? then Skip else Start
  {
    DecidedIsGrounded(p, ph, i);
  }

  lemma PhaseStepKeepsJustified(p: Spec, ph: seq<StepPhase>, ph': seq<StepPhase>)
    requires |ph| == |ph'| == |p.steps| && PhaseStep(p, ph, ph') && Steady(p, ph, ph')
    requires Justified(p, ph)
    ensures Justified(p, ph')
  {
    PhaseStepAdvances(p, ph, ph');
    forall i | 0 <= i < |ph'| && !ph'[i].Pending?
      ensures Grounded(p, ph', i) && Decide(p, ph', i) == if ph'[i].Skipped? then Skip else Start
    {
      if ph[i].Pending? {
        SteadyDecision(p, ph, ph', i);
      }
      DecisionStable(p, ph, ph', i);
    }
  }

  lemma RunStepKeepsJustified(p: Spec, tr: seq<Store>, k: nat)
    requires SteadyRun(p, tr) && k + 1 < |tr| && Justified(p, PhasesAt(p, tr[k]))
    ensures Justified(p, PhasesAt(p, tr[k + 1]))
  {
    SteadyStep(p, tr, k);
    PhaseStepKeepsJustified(p, PhasesAt(p, tr[k]), PhasesAt(p, tr[k + 1]));
  }

  lemma {:induction false} DecisionsStayJustified(p: Spec, tr: seq<Store>, k: nat)
    requires SteadyRun(p, tr) && k < |tr|
    ensures Justified(p, PhasesAt(p, tr[k]))
  {
    if k == 0 {
      assert forall i :: 0 <= i < |p.steps| ==> PhasesAt(p, tr[0])[i].Pending?;
    } else {
      DecisionsStayJustified(p, tr, k - 1);
      RunStepKeepsJustified(p, tr, k - 1);
    }
  }

  /** Then the documented sequential promise holds: a started step follows successes only. */
  lemma StartedAfterSuccesses(p: Spec, tr: seq<Store>, k: nat, i: nat)
    requires SteadyRun(p, tr) && k < |tr| && i < |p.steps| && p.steps[i].runIf.None?
    requires PhasesAt(p, tr[k])[i].Started()
    ensures forall j :: 0 <= j < i ==> PhasesAt(p, tr[k])[j].Succeeded?
  {
    DecisionsStayJustified(p, tr, k);
    SequentialRule(p, PhasesAt(p, tr[k]), i);
    assert forall j: nat :: j < i ==> Dep(p, i, j);
  }

  /** An `or` step is decided only after its whole list is final: every listed step exists and has ended, and it starts
      exactly when one of them ended as wanted. */
  lemma OrDecidesOnFinalList(p: Spec, tr: seq<Store>, k: nat, i: nat)
    requires SteadyRun(p, tr) && k + 1 < |tr| && i < |p.steps|
    requires p.steps[i].runIf.Some? && !p.steps[i].runIf.value.RequiresAll()
    requires PhasesAt(p, tr[k])[i].Pending? && !PhasesAt(p, tr[k + 1])[i].Pending?
    ensures forall name :: name in p.steps[i].runIf.value.steps ==>
              exists j :: 0 <= j < |p.steps| && p.steps[j].name == name && PhasesAt(p, tr[k])[j].Terminal()
    ensures PhasesAt(p, tr[k + 1])[i].Running? <==> SomeListedMatches(p, PhasesAt(p, tr[k]), i)
  {
    SteadyStep(p, tr, k);
    var ph, ph' := PhasesAt(p, tr[k]), PhasesAt(p, tr[k + 1]);
    SteadyDecision(p, ph, ph', i);
    PhaseStepAdvances(p, ph, ph');
    forall name | name in p.steps[i].runIf.value.steps
      ensures exists j :: 0 <= j < |p.steps| && p.steps[j].name == name && ph[j].Terminal()
    {
      assert !Missing(p, i) && Known(p, name);
      var j: nat :| j < |p.steps| && p.steps[j].name == name;
      assert Dep(p, i, j) && ph[j].Terminal();
    }
  }

  // ---- The guard is exact

  lemma UnsteadyBreaks(p: Spec, ph: seq<StepPhase>, ph': seq<StepPhase>)
    requires |ph| == |ph'| == |p.steps| && PhaseStep(p, ph, ph') && !Steady(p, ph, ph')
    ensures !Justified(p, ph')
  {
    var i: nat, j: nat :| i < |ph| && j < |ph| && Dep(p, i, j) &&
                          ph[i].Pending? && !ph'[i].Pending? && ph[j].Suspended?;
    assert !ObservedTo(ph, ph');
    assert ph'[j] == ph[j];
    assert !Grounded(p, ph', i);
  }

  lemma JustifiedStepsAreSteady(p: Spec, tr: seq<Store>, k: nat)
    requires LastingRun(p, tr) && k + 1 < |tr| && Justified(p, PhasesAt(p, tr[k + 1]))
    ensures SteadyAt(p, tr, k)
  {
    LastingPhaseStep(p, tr, k);
    if !SteadyAt(p, tr, k) {
      UnsteadyBreaks(p, PhasesAt(p, tr[k]), PhasesAt(p, tr[k + 1]));
    }
  }

  ghost predicate JustifiedAt(p: Spec, tr: seq<Store>, k: int) {
    0 <= k < |tr| ==> Justified(p, PhasesAt(p, tr[k]))
  }

  /** All decisions of a run are justified in all its states exactly when the guard is respected throughout. */
  lemma SteadyExact(p: Spec, tr: seq<Store>)
    requires LastingRun(p, tr)
    ensures SteadyRun(p, tr) <==> forall k :: JustifiedAt(p, tr, k)
  {
    if SteadyRun(p, tr) {
      forall k
        ensures JustifiedAt(p, tr, k)
      {
        if 0 <= k < |tr| {
          DecisionsStayJustified(p, tr, k);
        }
      }
    }
    if forall k :: JustifiedAt(p, tr, k) {
      forall k
        ensures SteadyAt(p, tr, k)
      {
        if 0 <= k < |tr| - 1 {
          assert JustifiedAt(p, tr, k + 1);
          JustifiedStepsAreSteady(p, tr, k);
        }
      }
    }
  }

  // ---- Clean-up

  /** When the pipeline is over, an any-failure handler with a failed listed step was run to its end, and no step
      with a fail condition was left undecided after a failure. */
  lemma CleanUpGuaranteed(p: Spec, tr: seq<Store>, k: nat, i: nat)
    requires SteadyRun(p, tr) && k < |tr| && tr[k].status.phase.Terminal()
    requires i < |p.steps| && p.steps[i].HandlesFailure()
    ensures !PhasesAt(p, tr[k])[i].Pending?
    ensures !p.steps[i].runIf.value.RequiresAll() &&
            (exists j :: 0 <= j < |p.steps| && Dep(p, i, j) && PhasesAt(p, tr[k])[j].Failed?)
            ==> PhasesAt(p, tr[k])[i].Succeeded? || PhasesAt(p, tr[k])[i].Failed?
  {
    RunKeepsInv(p, tr, k);
    DecisionsStayJustified(p, tr, k);
  }

  /** A started step with runIf meets its start condition. */
  ghost predicate ConditionsMet(p: Spec, ph: seq<StepPhase>)
    requires |ph| == |p.steps|
  {
    forall i :: 0 <= i < |ph| && p.steps[i].runIf.Some? && ph[i].Started() ==> StartCondition(p, ph, i)
  }

  lemma ConditionStays(p: Spec, ph: seq<StepPhase>, ph': seq<StepPhase>, i: nat)
    requires |ph| == |ph'| == |p.steps| && KeepsFinal(ph, ph') && i < |ph| && p.steps[i].runIf.Some?
    requires StartCondition(p, ph, i)
    ensures StartCondition(p, ph', i)
  {
    var r := p.steps[i].runIf.value;
    if !r.RequiresAll() {
      var j :| 0 <= j < |ph| && Dep(p, i, j) && Matches(r.IsCheckingFailure(), ph[j]);
      assert Matches(r.IsCheckingFailure(), ph'[j]);
    }
  }

  lemma PhaseStepMeetsConditions(p: Spec, ph: seq<StepPhase>, ph': seq<StepPhase>)
    requires |ph| == |p.steps| && PhaseStep(p, ph, ph') && ConditionsMet(p, ph)
    ensures |ph'| == |ph| && ConditionsMet(p, ph')
  {
    PhaseStepAdvances(p, ph, ph');
    forall i: nat | i < |ph| && p.steps[i].runIf.Some? && ph'[i].Started()
      ensures StartCondition(p, ph', i)
    {
      assert StartCondition(p, ph, i);
      ConditionStays(p, ph, ph', i);
    }
  }

  /** In every lasting run, suspended Jobs or not, every step with runIf that has ever started meets its start condition
      now: what it needed has happened and stays so. */
  lemma {:induction false} StartedConditionsStay(p: Spec, tr: seq<Store>, k: nat)
    requires LastingRun(p, tr) && k < |tr|
    ensures ConditionsMet(p, PhasesAt(p, tr[k]))
  {
    if k == 0 {
      assert forall i :: 0 <= i < |p.steps| ==> PhasesAt(p, tr[0])[i].Pending?;
    } else {
      StartedConditionsStay(p, tr, k - 1);
      LastingPhaseStep(p, tr, k - 1);
      PhaseStepMeetsConditions(p, PhasesAt(p, tr[k - 1]), PhasesAt(p, tr[k]));
    }
  }

  /** Success-of-all and failure-of-any of the same list exclude each other. */
  lemma ConditionsExclude(p: Spec, ph: seq<StepPhase>, a: nat, b: nat)
    requires |ph| == |p.steps| && a < |ph| && b < |ph| && p.steps[a].runIf.Some? && p.steps[b].runIf.Some?
    requires p.steps[a].runIf.value.steps == p.steps[b].runIf.value.steps
    requires !p.steps[a].HandlesFailure() && p.steps[a].runIf.value.RequiresAll()
    requires p.steps[b].HandlesFailure() && !p.steps[b].runIf.value.RequiresAll()
    ensures !(StartCondition(p, ph, a) && StartCondition(p, ph, b))
  {
    if StartCondition(p, ph, b) {
      var j :| 0 <= j < |ph| && Dep(p, b, j) && Matches(true, ph[j]);
      assert Dep(p, a, j) && !Matches(false, ph[j]);
    }
  }

  /** Steps that react to the success of all and to the failure of any of the same list never both start, and in steady
      runs, when nothing listed was skipped, a Succeeded pipeline ran exactly the first. */
  lemma ComplementaryBranches(p: Spec, tr: seq<Store>, k: nat, a: nat, b: nat)
    requires LastingRun(p, tr) && k < |tr| && a < |p.steps| && b < |p.steps|
    requires p.steps[a].runIf.Some? && p.steps[b].runIf.Some?
    requires p.steps[a].runIf.value.steps == p.steps[b].runIf.value.steps
    requires !p.steps[a].HandlesFailure() && p.steps[a].runIf.value.RequiresAll()
    requires p.steps[b].HandlesFailure() && !p.steps[b].runIf.value.RequiresAll()
    ensures !(PhasesAt(p, tr[k])[a].Started() && PhasesAt(p, tr[k])[b].Started())
    ensures SteadyRun(p, tr) && tr[k].status.phase.Succeeded? &&
            (forall j :: 0 <= j < |p.steps| && Dep(p, a, j) ==> !PhasesAt(p, tr[k])[j].Skipped?)
            ==> PhasesAt(p, tr[k])[a].Succeeded? && PhasesAt(p, tr[k])[b].Skipped?
  {
    var ph := PhasesAt(p, tr[k]);
    StartedConditionsStay(p, tr, k);
    ConditionsExclude(p, ph, a, b);
    if SteadyRun(p, tr) && tr[k].status.phase.Succeeded? {
      SucceededBranches(p, tr, k, a, b);
    }
  }

  lemma SucceededBranches(p: Spec, tr: seq<Store>, k: nat, a: nat, b: nat)
    requires SteadyRun(p, tr) && k < |tr| && a < |p.steps| && b < |p.steps| && tr[k].status.phase.Succeeded?
    requires p.steps[a].runIf.Some? && p.steps[b].runIf.Some?
    requires p.steps[a].runIf.value.steps == p.steps[b].runIf.value.steps
    requires !p.steps[a].HandlesFailure() && p.steps[a].runIf.value.RequiresAll()
    requires p.steps[b].HandlesFailure() && !p.steps[b].runIf.value.RequiresAll()
    ensures (forall j :: 0 <= j < |p.steps| && Dep(p, a, j) ==> !PhasesAt(p, tr[k])[j].Skipped?)
            ==> PhasesAt(p, tr[k])[a].Succeeded? && PhasesAt(p, tr[k])[b].Skipped?
  {
    var ph := PhasesAt(p, tr[k]);
    VerdictIsSound(p, tr, k);
    DecisionsStayJustified(p, tr, k);
    ConditionsExclude(p, ph, a, b);
    if forall j :: 0 <= j < |ph| && Dep(p, a, j) ==> !ph[j].Skipped? {
      assert StartCondition(p, ph, a);
    }
  }

  // ---- A Job lost before it was seen to finish

  /** The step runs or is suspended, and its Job is gone. */
  ghost predicate Lost(p: Spec, s: Store, i: nat)
    requires i < |p.steps|
  {
    (PhasesAt(p, s)[i].Running? || PhasesAt(p, s)[i].Suspended?) && JobName(p, i) !in s.jobs
  }

  lemma ObserveLost(p: Spec, s: Store, s': Store, i: nat)
    requires CoreInv(p, s) && i < |p.steps| && Lost(p, s, i) && ObserveJobs(p, s, s')
    ensures PhasesAt(p, s')[i] == PhasesAt(p, s)[i]
  {
    assert s.status.steps[i].jobName == JobName(p, i);
    assert ObserveStep(s.status.steps[i], s.jobs) == s.status.steps[i];
  }

  lemma WalkLeavesStarted(p: Spec, ph: seq<StepPhase>, ph': seq<StepPhase>, i: nat)
    requires |ph| == |ph'| == |p.steps| && (ph' == ph || WalkPhaseStep(p, ph, ph')) && i < |ph| && ph[i].Started()
    ensures ph'[i] == ph[i]
  {}

  lemma LostStaysLost(p: Spec, s: Store, s': Store, i: nat)
    requires CoreInv(p, s) && Next(p, s, s') && Unreplaced(s, s') && i < |p.steps| && Lost(p, s, i)
    ensures Lost(p, s', i) && PhasesAt(p, s')[i] == PhasesAt(p, s)[i]
  {
    assert s.status.steps[i].jobName == JobName(p, i);
    if ObserveJobs(p, s, s') {
      ObserveLost(p, s, s', i);
    } else {
      OtherStepsWalk(p, s, s');
      WalkLeavesStarted(p, PhasesAt(p, s), PhasesAt(p, s'), i);
    }
  }

  lemma LostAt(p: Spec, tr: seq<Store>, k: nat, i: nat)
    requires LastingRun(p, tr) && k + 1 < |tr| && i < |p.steps| && Lost(p, tr[k], i)
    ensures Lost(p, tr[k + 1], i) && PhasesAt(p, tr[k + 1])[i] == PhasesAt(p, tr[k])[i]
  {
    RunKeepsCore(p, tr, k);
    assert StepAt(p, tr, k) && UnreplacedAt(tr, k);
    LostStaysLost(p, tr[k], tr[k + 1], i);
  }

  /** A step whose Job goes before it is seen to finish stays as it is in every continuation, and the pipeline never
      ends. */
  lemma {:induction false} LostJobHangs(p: Spec, tr: seq<Store>, k: nat, l: nat, i: nat)
    requires LastingRun(p, tr) && k <= l < |tr| && i < |p.steps| && Lost(p, tr[k], i)
    ensures Lost(p, tr[l], i) && PhasesAt(p, tr[l])[i] == PhasesAt(p, tr[k])[i]
    ensures !tr[l].status.phase.Terminal()
    decreases l
  {
    if k < l {
      LostJobHangs(p, tr, k, l - 1, i);
      LostAt(p, tr, l - 1, i);
    }
    VerdictIsSound(p, tr, l);
  }

  // ---- Pipelines without runIf

  ghost predicate Plain(p: Spec) {
    forall i :: 0 <= i < |p.steps| ==> p.steps[i].runIf.None?
  }

  ghost predicate NothingSkipped(ph: seq<StepPhase>) {
    forall i :: 0 <= i < |ph| ==> !ph[i].Skipped?
  }

  lemma PlainOrder(p: Spec, ph: seq<StepPhase>, i: nat, j: nat)
    requires |ph| == |p.steps| && Plain(p) && Justified(p, ph)
    requires i < j < |ph| && ph[j].Started()
    ensures ph[i].Succeeded?
  {
    SequentialRule(p, ph, j);
    assert Dep(p, j, i);
  }

  lemma PlainFailureStandsAlone(p: Spec, ph: seq<StepPhase>, f: nat, r: nat)
    requires |ph| == |p.steps| && Plain(p) && Justified(p, ph)
    requires f < |ph| && r < |ph| && ph[f].Failed?
    ensures !ph[r].Running? && !ph[r].Suspended?
  {
    if r < f {
      assert Dep(p, f, r);
    }
  }

  lemma PlainStepSkipsNothing(p: Spec, ph: seq<StepPhase>, ph': seq<StepPhase>)
    requires |ph| == |p.steps| && Plain(p) && PhaseStep(p, ph, ph')
    requires Justified(p, ph) && NothingSkipped(ph)
    ensures NothingSkipped(ph')
  {
    forall f: nat, r: nat | f < |ph| && r < |ph| && ph[f].Failed?
      ensures !ph[r].Running? && !ph[r].Suspended?
    {
      PlainFailureStandsAlone(p, ph, f, r);
    }
    forall i: nat
      ensures !SkipsAt(p, ph, i, ph')
    {
      if i < |ph| {
        SequentialRule(p, ph, i);
      }
    }
  }

  lemma {:induction false} PlainRunSkipsNothing(p: Spec, tr: seq<Store>, k: nat)
    requires SteadyRun(p, tr) && Plain(p) && k < |tr|
    ensures NothingSkipped(PhasesAt(p, tr[k]))
  {
    if k > 0 {
      PlainRunSkipsNothing(p, tr, k - 1);
      DecisionsStayJustified(p, tr, k - 1);
      SteadyStep(p, tr, k - 1);
      PlainStepSkipsNothing(p, PhasesAt(p, tr[k - 1]), PhasesAt(p, tr[k]));
    }
  }

  /** Every state of a plain pipeline is: successes, then one step in any phase but Skipped, then Pending steps. So one
      Job runs at a time and nothing runs after a failure. */
  lemma SequentialShape(p: Spec, tr: seq<Store>, k: nat) returns (cut: nat)
    requires SteadyRun(p, tr) && Plain(p) && k < |tr|
    ensures var ph := PhasesAt(p, tr[k]);
            && cut <= |ph|
            && (forall i :: 0 <= i < cut ==> ph[i].Succeeded?)
            && (cut < |ph| ==> !ph[cut].Succeeded? && !ph[cut].Skipped?)
            && (forall i :: cut < i < |ph| ==> ph[i].Pending?)
  {
    var ph := PhasesAt(p, tr[k]);
    PlainRunSkipsNothing(p, tr, k);
    DecisionsStayJustified(p, tr, k);
    cut := 0;
    while cut < |ph| && ph[cut].Succeeded?
      invariant cut <= |ph| && forall i :: 0 <= i < cut ==> ph[i].Succeeded?
    {
      cut := cut + 1;
    }
    forall i | cut < i < |ph|
      ensures ph[i].Pending?
    {
      if ph[i].Started() {
        PlainOrder(p, ph, cut, i);
      }
    }
  }

  // ---- A bound on progress, whatever the schedule

  function Weight(ph: seq<StepPhase>): nat {
    if ph == [] then 0
    else Weight(ph[..|ph| - 1]) +
         match ph[|ph| - 1] { case Pending => 2 case Running => 1 case Suspended => 1 case _ => 0 }
  }

  /** Some phase changes, other than by suspending or resuming a Job. */
  predicate Progresses(a: seq<StepPhase>, b: seq<StepPhase>)
    requires |a| == |b|
  {
    exists i :: 0 <= i < |a| && a[i] != b[i] && (a[i].Pending? || b[i].Terminal())
  }

  /** The lifecycle never raises the weight, and progress lowers it. */
  lemma {:induction false} WeightFalls(a: seq<StepPhase>, b: seq<StepPhase>)
    requires |a| == |b| && forall i :: 0 <= i < |a| ==> Advances(a[i], b[i])
    ensures Weight(b) <= Weight(a)
    ensures Progresses(a, b) ==> Weight(b) < Weight(a)
  {
    if a != [] {
      var m := |a| - 1;
      var x, y := a[..m], b[..m];
      WeightFalls(x, y);
      if Progresses(a, b) && Advances(a[m], b[m]) && (a[m] == b[m] || !(a[m].Pending? || b[m].Terminal())) {
        var i :| 0 <= i < |a| && a[i] != b[i] && (a[i].Pending? || b[i].Terminal());
        assert i < m && x[i] == a[i] && y[i] == b[i];
        assert Progresses(x, y);
      }
    }
  }

  /** Number of steps of the run that made progress. */
  ghost function ProgressSteps(p: Spec, tr: seq<Store>): nat {
    if |tr| <= 1 then 0
    else ProgressSteps(p, tr[..|tr| - 1]) +
         if Progresses(PhasesAt(p, tr[|tr| - 2]), PhasesAt(p, Last(tr))) then 1 else 0
  }

  lemma RunPrefix(p: Spec, tr: seq<Store>)
    requires Run(p, tr) && |tr| > 1
    ensures Run(p, tr[..|tr| - 1])
    ensures Last(tr[..|tr| - 1]) == tr[|tr| - 2]
  {
    var front := tr[..|tr| - 1];
    forall k
      ensures StepAt(p, front, k)
    {
      assert StepAt(p, tr, k);
    }
  }

  lemma LastingPrefix(p: Spec, tr: seq<Store>)
    requires LastingRun(p, tr) && |tr| > 1
    ensures LastingRun(p, tr[..|tr| - 1]) && Last(tr[..|tr| - 1]) == tr[|tr| - 2]
  {
    RunPrefix(p, tr);
    var front := tr[..|tr| - 1];
    forall k
      ensures UnreplacedAt(front, k)
    {
      assert UnreplacedAt(tr, k);
    }
  }

  lemma {:induction false} AllPendingWeight(ph: seq<StepPhase>)
    requires forall i :: 0 <= i < |ph| ==> ph[i].Pending?
    ensures Weight(ph) == 2 * |ph|
  {
    if ph != [] {
      AllPendingWeight(ph[..|ph| - 1]);
    }
  }

  lemma InitWeight(p: Spec, s: Store)
    requires Init(p, s)
    ensures Weight(PhasesAt(p, s)) == 2 * |p.steps|
  {
    AllPendingWeight(PhasesAt(p, s));
  }

  lemma RunWeightFalls(p: Spec, tr: seq<Store>, k: nat)
    requires LastingRun(p, tr) && k + 1 < |tr|
    ensures Weight(PhasesAt(p, tr[k + 1])) + (if Progresses(PhasesAt(p, tr[k]), PhasesAt(p, tr[k + 1])) then 1 else 0)
            <= Weight(PhasesAt(p, tr[k]))
  {
    LastingPhaseStep(p, tr, k);
    PhaseStepAdvances(p, PhasesAt(p, tr[k]), PhasesAt(p, tr[k + 1]));
    WeightFalls(PhasesAt(p, tr[k]), PhasesAt(p, tr[k + 1]));
  }

  lemma LastProgress(p: Spec, tr: seq<Store>)
    requires LastingRun(p, tr) && |tr| > 1
    ensures ProgressSteps(p, tr) + Weight(PhasesAt(p, Last(tr))) <=
            ProgressSteps(p, tr[..|tr| - 1]) + Weight(PhasesAt(p, tr[|tr| - 2]))
  {
    RunWeightFalls(p, tr, |tr| - 2);
  }

  /** An n-step pipeline makes progress at most 2n times, however often its Jobs are suspended and resumed, and the
      remaining weight bounds what is to come. */
  lemma {:induction false} BoundedChanges(p: Spec, tr: seq<Store>)
    requires LastingRun(p, tr)
    ensures ProgressSteps(p, tr) + Weight(PhasesAt(p, Last(tr))) <= 2 * |p.steps|
    decreases |tr|
  {
    if |tr| == 1 {
      InitWeight(p, tr[0]);
    } else {
      LastingPrefix(p, tr);
      BoundedChanges(p, tr[..|tr| - 1]);
      LastProgress(p, tr);
    }
  }
}
