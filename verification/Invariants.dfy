/** What every persisted state of every run satisfies, whatever call fails and however the cluster interferes. */
module Invariants {
  import opened PipelineTypes
  import opened Scheduling
  import opened Passes
  import opened Transitions

  // ---- The invariant

  /** Step statuses are absent or match the spec in order; a Job name is recorded exactly for started steps. */
  ghost predicate StoreInv(p: Spec, s: Store) {
    && (s.status.steps == [] || Aligned(p, s.status.steps))
    && (s.status.phase.Unset? ==> s.status.steps == [])
    && (s.status.phase.Terminal() ==> Aligned(p, s.status.steps))
    && forall i :: 0 <= i < |s.status.steps| && i < |p.steps| ==>
         s.status.steps[i].jobName == if s.status.steps[i].phase.Started() then JobName(p, i) else ""
  }

  /** The Ready condition, the phase and the completion time never contradict each other. */
  ghost predicate StatusInv(s: Store) {
    && s.status.conditions.Keys <= {"Ready"}
    && ("Ready" in s.status.conditions ==>
          s.status.conditions["Ready"] == ReadyFor(s.status.phase) && !s.status.phase.Unset?)
    && ("Ready" !in s.status.conditions ==> s.status.phase.Unset? || s.status.phase.Pending?)
    && (s.status.completionTime.Some? <==> s.status.phase.Terminal())
  }

  /** A reported verdict is true of the steps. */
  ghost predicate VerdictInv(p: Spec, s: Store) {
    var ph := Phases(p, s.status.steps);
    && (s.status.phase.Succeeded? ==> forall i :: 0 <= i < |ph| ==> ph[i].Succeeded? || ph[i].Skipped?)
    && (s.status.phase.Failed? ==>
          && (exists i :: 0 <= i < |ph| && ph[i].Failed?)
          && (forall i :: 0 <= i < |ph| ==> !ph[i].Running? && !ph[i].Suspended?)
          && (forall i :: 0 <= i < |ph| && p.steps[i].HandlesFailure() ==> !ph[i].Pending?))
  }

  /** A finished step whose Job still exists sees the same result when it looks again. */
  ghost predicate Settled(job: JobStatus, phase: StepPhase) {
    (phase.Succeeded? || phase.Failed?) ==> FirstTrue(job.conditions) == Some(phase)
  }

  ghost predicate JobInv(p: Spec, s: Store) {
    forall i :: 0 <= i < |s.status.steps| &&
                s.status.steps[i].phase.Started() && s.status.steps[i].jobName in s.jobs ==>
      && s.jobs[s.status.steps[i].jobName].owner == p.name
      && Settled(s.jobs[s.status.steps[i].jobName].status, s.status.steps[i].phase)
  }

  /** No Job of the pipeline exists without the finalizer, so none outlives the pipeline object. */
  ghost predicate FinalizerInv(p: Spec, s: Store) {
    && (!s.finalizer ==> Owned(p, s.jobs) == {})
    && (!s.present ==> !s.finalizer)
  }

  /** What holds whatever the cluster does. */
  ghost predicate CoreInv(p: Spec, s: Store) {
    UniqueNames(p) && StoreInv(p, s) && StatusInv(s) && VerdictInv(p, s) && FinalizerInv(p, s)
  }

  /** What holds as long as no Job is replaced. */
  ghost predicate Inv(p: Spec, s: Store) {
    CoreInv(p, s) && JobInv(p, s)
  }

  // ---- Job conditions

  lemma {:induction false} FirstTrueHolds(conditions: seq<JobCondition>)
    ensures match FirstTrue(conditions)
            case Some(phase) =>
              exists k :: 0 <= k < |conditions| && conditions[k].status.True? &&
                          !conditions[k].kind.OtherType? && PhaseOfCondition(conditions[k].kind) == phase
            case None =>
              forall k :: 0 <= k < |conditions| ==> !conditions[k].status.True? || conditions[k].kind.OtherType?
  {
    if conditions != [] {
      var rest := conditions[1..];
      FirstTrueHolds(rest);
      if FirstTrue(conditions) == FirstTrue(rest) && FirstTrue(rest).Some? {
        var k :| 0 <= k < |rest| && rest[k].status.True? && !rest[k].kind.OtherType? &&
                 PhaseOfCondition(rest[k].kind) == FirstTrue(rest).value;
        assert conditions[k + 1] == rest[k];
      }
    }
  }

  /** When only one deciding condition is True, list order does not matter. */
  lemma FirstTrueIsTheTrueOne(job: JobStatus, kind: JobConditionType)
    requires Exclusive(job) && !kind.OtherType?
    ensures HasTrue(job, kind) <==> FirstTrue(job.conditions) == Some(PhaseOfCondition(kind))
  {
    FirstTrueHolds(job.conditions);
    if FirstTrue(job.conditions).Some? {
      var k :| 0 <= k < |job.conditions| && job.conditions[k].status.True? && !job.conditions[k].kind.OtherType? &&
               PhaseOfCondition(job.conditions[k].kind) == FirstTrue(job.conditions).value;
      assert job.conditions[k] == JobCondition(job.conditions[k].kind, True);
      assert HasTrue(job, job.conditions[k].kind);
    }
  }

  /** What an observation reads off a Job, in terms of which condition holds rather than of its place in the list. */
  lemma ObservedPhaseExact(job: JobStatus, current: StepPhase)
    requires Exclusive(job)
    ensures HasTrue(job, Complete) ==> ObservedPhase(job, current) == StepPhase.Succeeded
    ensures HasTrue(job, JobFailed) ==> ObservedPhase(job, current) == StepPhase.Failed
    ensures HasTrue(job, JobSuspended) ==> ObservedPhase(job, current) == StepPhase.Suspended
    ensures !HasTrue(job, Complete) && !HasTrue(job, JobFailed) && !HasTrue(job, JobSuspended) ==>
            ObservedPhase(job, current) == if job.active > 0 then StepPhase.Running else current
  {
    FirstTrueIsTheTrueOne(job, Complete);
    FirstTrueIsTheTrueOne(job, JobFailed);
    FirstTrueIsTheTrueOne(job, JobSuspended);
    FirstTrueHolds(job.conditions);
  }

  lemma EvolvesKeepsResult(a: Job, b: Job, phase: StepPhase)
    requires Evolves(a, b) && Settled(a.status, phase)
    ensures Settled(b.status, phase)
  {
    if a != b && (phase.Succeeded? || phase.Failed?) {
      var kind := if phase.Succeeded? then Complete else JobFailed;
      FirstTrueHolds(a.status.conditions);
      var k :| 0 <= k < |a.status.conditions| && a.status.conditions[k].status.True? &&
               !a.status.conditions[k].kind.OtherType? && PhaseOfCondition(a.status.conditions[k].kind) == phase;
      assert a.status.conditions[k] == JobCondition(kind, True);
      assert HasTrue(a.status, kind);
      FirstTrueIsTheTrueOne(b.status, kind);
    }
  }

  /** Looking again at a finished step keeps its phase exactly when the Job is gone, still shows that result, or shows
      no result at all and is idle. */
  lemma FinalPhaseKeptExact(st: StepStatus, jobs: map<string, Job>)
    requires st.phase.Succeeded? || st.phase.Failed?
    requires st.jobName != ""
    ensures ObserveStep(st, jobs).phase == st.phase <==>
            (st.jobName in jobs ==>
               Settled(jobs[st.jobName].status, st.phase) ||
               (FirstTrue(jobs[st.jobName].status.conditions).None? && jobs[st.jobName].status.active <= 0))
  {}

  // ---- The steps as seen on phases alone

  ghost predicate SkipsAt(p: Spec, ph: seq<StepPhase>, i: nat, ph': seq<StepPhase>)
    requires |ph| == |p.steps|
  {
    i < |ph| && ph[i].Pending? && Gate(p, ph) && Decide(p, ph, i) == Skip && ph' == ph[i := StepPhase.Skipped]
  }

  ghost predicate StartsAt(p: Spec, ph: seq<StepPhase>, i: nat, ph': seq<StepPhase>)
    requires |ph| == |p.steps|
  {
    i < |ph| && ph[i].Pending? && Gate(p, ph) && Decide(p, ph, i) == Start && ph' == ph[i := StepPhase.Running]
  }

  /** An observation moves Running and Suspended steps only. */
  ghost predicate ObservedTo(ph: seq<StepPhase>, ph': seq<StepPhase>) {
    && |ph'| == |ph|
    && forall i :: 0 <= i < |ph| && ph'[i] != ph[i] ==> (ph[i].Running? || ph[i].Suspended?) && ph'[i].Started()
  }

  /** An observation of Jobs that may have been replaced moves any started step. */
  ghost predicate ReobservedTo(ph: seq<StepPhase>, ph': seq<StepPhase>) {
    && |ph'| == |ph|
    && forall i :: 0 <= i < |ph| && ph'[i] != ph[i] ==> ph[i].Started() && ph'[i].Started()
  }

  ghost predicate WalkPhaseStep(p: Spec, ph: seq<StepPhase>, ph': seq<StepPhase>)
    requires |ph| == |p.steps|
  {
    (exists i: nat :: SkipsAt(p, ph, i, ph')) || (exists i: nat :: StartsAt(p, ph, i, ph'))
  }

  ghost predicate PhaseStep(p: Spec, ph: seq<StepPhase>, ph': seq<StepPhase>)
    requires |ph| == |p.steps|
  {
    ObservedTo(ph, ph') || WalkPhaseStep(p, ph, ph')
  }

  /** A step of any run. */
  ghost predicate AnyPhaseStep(p: Spec, ph: seq<StepPhase>, ph': seq<StepPhase>)
    requires |ph| == |p.steps|
  {
    ReobservedTo(ph, ph') || WalkPhaseStep(p, ph, ph')
  }

  // ---- Each step keeps the core invariant

  lemma JobNameNotEmpty(p: Spec, i: nat)
    requires i < |p.steps|
    ensures JobName(p, i) != ""
  {
    assert |JobName(p, i)| >= 1;
  }

  /** Whatever a Job says, a started step stays started and no other step is touched. */
  lemma ObservedStaysStarted(st: StepStatus, jobs: map<string, Job>)
    requires st.jobName == "" <==> !st.phase.Started()
    ensures var st' := ObserveStep(st, jobs);
            && st'.name == st.name && st'.jobName == st.jobName && st'.phase.Started() == st.phase.Started()
            && (!st.phase.Started() ==> st' == st)
  {
    if st.jobName in jobs {
      FirstTrueHolds(jobs[st.jobName].status.conditions);
    }
  }

  lemma ObserveJobsKeepsCore(p: Spec, s: Store, s': Store)
    requires CoreInv(p, s) && ObserveJobs(p, s, s')
    ensures CoreInv(p, s') && ReobservedTo(Phases(p, s.status.steps), Phases(p, s'.status.steps))
  {
    forall i | 0 <= i < |s.status.steps|
      ensures var st, st' := s.status.steps[i], s'.status.steps[i];
              && st'.name == st.name && st'.jobName == st.jobName && st'.phase.Started() == st.phase.Started()
              && (!st.phase.Started() ==> st' == st)
    {
      JobNameNotEmpty(p, i);
      ObservedStaysStarted(s.status.steps[i], s.jobs);
    }
  }

  /** A verdict that is about to be written is true of the steps. */
  lemma NextPhaseIsTrue(p: Spec, steps: seq<StepStatus>, before: PipelinePhase)
    requires Aligned(p, steps) && !before.Terminal()
    ensures var ph, next := Phases(p, steps), NextPhase(p, steps, before);
            && (next.Succeeded? ==> forall i :: 0 <= i < |ph| ==> ph[i].Succeeded? || ph[i].Skipped?)
            && (next.Failed? ==>
                  && (exists i :: 0 <= i < |ph| && ph[i].Failed?)
                  && (forall i :: 0 <= i < |ph| ==> !ph[i].Running? && !ph[i].Suspended?)
                  && (forall i :: 0 <= i < |ph| && p.steps[i].HandlesFailure() ==> !ph[i].Pending?))
  {
    var ph, next := Phases(p, steps), NextPhase(p, steps, before);
    assert forall i :: 0 <= i < |ph| ==> ph[i] == steps[i].phase;
    if next.Failed? {
      assert Any(steps, StepPhase.Failed) && !Any(steps, StepPhase.Running) && !Any(steps, StepPhase.Suspended);
      var i :| 0 <= i < |steps| && steps[i].phase == StepPhase.Failed;
      assert ph[i].Failed?;
    }
  }

  lemma PassVerdictKeepsCore(p: Spec, s: Store, s': Store)
    requires CoreInv(p, s) && PassVerdict(p, s, s')
    ensures CoreInv(p, s') && Phases(p, s'.status.steps) == Phases(p, s.status.steps)
  {
    var now :| s'.status == Judge(p, s.status.(steps := s'.status.steps), now);
    NextPhaseIsTrue(p, s'.status.steps, s.status.phase);
  }

  lemma SkipKeepsCore(p: Spec, s: Store, i: nat, s': Store)
    requires CoreInv(p, s) && SkipStep(p, s, i, s')
    ensures CoreInv(p, s')
    ensures Phases(p, s'.status.steps) == Phases(p, s.status.steps)[i := StepPhase.Skipped]
  {}

  lemma StartKeepsCore(p: Spec, s: Store, i: nat, s': Store)
    requires CoreInv(p, s) && StartStep(p, s, i, s')
    ensures CoreInv(p, s')
    ensures Phases(p, s'.status.steps) == Phases(p, s.status.steps)[i := StepPhase.Running]
  {}

  /** A step of the walk. */
  ghost predicate WalkStep(p: Spec, s: Store, s': Store) {
    || (exists i: nat :: SkipStep(p, s, i, s'))
    || (exists i: nat :: StartStep(p, s, i, s'))
    || (exists i: nat :: LoseStart(p, s, i, s'))
  }

  lemma WalkStepKeepsCore(p: Spec, s: Store, s': Store)
    requires CoreInv(p, s) && WalkStep(p, s, s')
    ensures CoreInv(p, s')
    ensures var ph, ph' := Phases(p, s.status.steps), Phases(p, s'.status.steps);
            ph' == ph || WalkPhaseStep(p, ph, ph')
  {
    var ph, ph' := Phases(p, s.status.steps), Phases(p, s'.status.steps);
    if i: nat :| SkipStep(p, s, i, s') {
      SkipKeepsCore(p, s, i, s');
      assert SkipsAt(p, ph, i, ph');
    } else if i: nat :| StartStep(p, s, i, s') {
      StartKeepsCore(p, s, i, s');
      assert StartsAt(p, ph, i, ph');
    }
  }

  lemma QuietStepKeepsCore(p: Spec, s: Store, s': Store)
    requires CoreInv(p, s)
    requires Attach(s, s') || Accept(s, s') || Populate(p, s, s') || Release(p, s, s') || DeletionRequested(s, s')
    ensures CoreInv(p, s') && Phases(p, s'.status.steps) == Phases(p, s.status.steps)
  {}

  lemma JobsMoveKeepsCore(p: Spec, s: Store, s': Store)
    requires CoreInv(p, s)
    requires CleanUp(p, s, s') || JobVanishes(s, s') || JobsChange(s, s') || JobAppears(p, s, s')
    ensures CoreInv(p, s') && s'.status == s.status
  {
    assert Owned(p, s'.jobs) <= Owned(p, s.jobs);
  }

  lemma OtherStepsWalk(p: Spec, s: Store, s': Store)
    requires CoreInv(p, s) && Next(p, s, s') && !ObserveJobs(p, s, s')
    ensures CoreInv(p, s')
    ensures var ph, ph' := Phases(p, s.status.steps), Phases(p, s'.status.steps);
            ph' == ph || WalkPhaseStep(p, ph, ph')
  {
    if WalkStep(p, s, s') {
      WalkStepKeepsCore(p, s, s');
    } else if PassVerdict(p, s, s') {
      PassVerdictKeepsCore(p, s, s');
    } else if CleanUp(p, s, s') || JobVanishes(s, s') || JobsChange(s, s') || JobAppears(p, s, s') {
      JobsMoveKeepsCore(p, s, s');
    } else {
      QuietStepKeepsCore(p, s, s');
    }
  }

  /** Every step keeps the core invariant; phases move by observation, skip or start. */
  lemma NextKeepsCore(p: Spec, s: Store, s': Store)
    requires CoreInv(p, s) && Next(p, s, s')
    ensures CoreInv(p, s')
    ensures AnyPhaseStep(p, Phases(p, s.status.steps), Phases(p, s'.status.steps))
  {
    if ObserveJobs(p, s, s') {
      ObserveJobsKeepsCore(p, s, s');
    } else {
      OtherStepsWalk(p, s, s');
    }
  }

  // ---- While no Job is replaced

  /** The phases an observation can bring. */
  lemma ObservedPhases(st: StepStatus, jobs: map<string, Job>)
    requires st.jobName in jobs ==> Settled(jobs[st.jobName].status, st.phase)
    requires st.jobName == "" <==> !st.phase.Started()
    ensures var st' := ObserveStep(st, jobs);
            && st'.jobName == st.jobName && st'.phase.Started() == st.phase.Started()
            && (st'.phase != st.phase ==>
                  && (st.phase.Running? || st.phase.Suspended?) && st.jobName in jobs
                  && Settled(jobs[st.jobName].status, st'.phase))
  {
    if st.jobName in jobs {
      FirstTrueHolds(jobs[st.jobName].status.conditions);
    }
  }

  lemma ObserveJobsKeepsJobs(p: Spec, s: Store, s': Store)
    requires Inv(p, s) && ObserveJobs(p, s, s')
    ensures JobInv(p, s') && ObservedTo(Phases(p, s.status.steps), Phases(p, s'.status.steps))
  {
    forall i | 0 <= i < |s.status.steps|
      ensures var st, st' := s.status.steps[i], s'.status.steps[i];
              && st'.jobName == st.jobName && st'.phase.Started() == st.phase.Started()
              && (st'.phase != st.phase ==> st.phase.Running? || st.phase.Suspended?)
              && (st'.phase.Started() && st'.jobName in s.jobs ==> Settled(s.jobs[st'.jobName].status, st'.phase))
    {
      JobNameNotEmpty(p, i);
      ObservedPhases(s.status.steps[i], s.jobs);
    }
  }

  lemma StartKeepsJobs(p: Spec, s: Store, i: nat, s': Store)
    requires Inv(p, s) && (StartStep(p, s, i, s') || LoseStart(p, s, i, s'))
    ensures JobInv(p, s')
  {
    forall k | 0 <= k < |s.status.steps| && k != i && s.status.steps[k].phase.Started()
      ensures s.status.steps[k].jobName != JobName(p, i)
    {
      JobNameInjective(p, i, k);
    }
  }

  lemma WalkStepKeepsJobs(p: Spec, s: Store, s': Store)
    requires Inv(p, s) && WalkStep(p, s, s')
    ensures JobInv(p, s')
  {
    if i: nat :| StartStep(p, s, i, s') || LoseStart(p, s, i, s') {
      StartKeepsJobs(p, s, i, s');
    }
  }

  lemma JobsChangeKeepsJobs(p: Spec, s: Store, s': Store)
    requires Inv(p, s) && JobsChange(s, s')
    ensures JobInv(p, s')
  {
    forall i | 0 <= i < |s.status.steps| && s.status.steps[i].phase.Started() && s.status.steps[i].jobName in s.jobs
      ensures Settled(s'.jobs[s.status.steps[i].jobName].status, s.status.steps[i].phase)
    {
      var name := s.status.steps[i].jobName;
      EvolvesKeepsResult(s.jobs[name], s'.jobs[name], s.status.steps[i].phase);
    }
  }

  lemma JobsMoveKeepsJobs(p: Spec, s: Store, s': Store)
    requires Inv(p, s) && Unreplaced(s, s')
    requires CleanUp(p, s, s') || JobVanishes(s, s') || JobAppears(p, s, s')
    ensures JobInv(p, s')
  {}

  lemma QuietStepKeepsJobs(p: Spec, s: Store, s': Store)
    requires Inv(p, s)
    requires Attach(s, s') || Accept(s, s') || Populate(p, s, s') || Release(p, s, s') || DeletionRequested(s, s') ||
             PassVerdict(p, s, s')
    ensures JobInv(p, s')
  {}

  /** While no Job is replaced, every step keeps the whole invariant, and observations never move a finished step. */
  lemma NextKeepsInv(p: Spec, s: Store, s': Store)
    requires Inv(p, s) && Next(p, s, s') && Unreplaced(s, s')
    ensures Inv(p, s')
    ensures PhaseStep(p, Phases(p, s.status.steps), Phases(p, s'.status.steps))
  {
    NextKeepsCore(p, s, s');
    if WalkStep(p, s, s') {
      WalkStepKeepsCore(p, s, s');
      WalkStepKeepsJobs(p, s, s');
    } else if ObserveJobs(p, s, s') {
      ObserveJobsKeepsJobs(p, s, s');
    } else if JobsChange(s, s') {
      JobsChangeKeepsJobs(p, s, s');
    } else if CleanUp(p, s, s') || JobVanishes(s, s') || JobAppears(p, s, s') {
      JobsMoveKeepsJobs(p, s, s');
    } else {
      QuietStepKeepsJobs(p, s, s');
      if PassVerdict(p, s, s') {
        PassVerdictKeepsCore(p, s, s');
      } else {
        QuietStepKeepsCore(p, s, s');
      }
    }
  }

  lemma StartReplacesNothing(p: Spec, s: Store, i: nat, s': Store)
    requires CoreInv(p, s) && (StartStep(p, s, i, s') || LoseStart(p, s, i, s'))
    ensures Unreplaced(s, s')
  {
    forall k | 0 <= k < |s.status.steps| && s.status.steps[k].phase.Started()
      ensures s.status.steps[k].jobName != JobName(p, i)
    {
      JobNameInjective(p, i, k);
    }
  }

  lemma IdleAddsNothing(p: Spec, s: Store, s': Store)
    requires ControllerStep(p, s, s') && !WalkStep(p, s, s')
    ensures s'.jobs.Keys <= s.jobs.Keys
  {}

  /** Steps of the controller never replace a Job. */
  lemma ControllerReplacesNothing(p: Spec, s: Store, s': Store)
    requires CoreInv(p, s) && ControllerStep(p, s, s')
    ensures Unreplaced(s, s')
  {
    if WalkStep(p, s, s') {
      if i: nat :| StartStep(p, s, i, s') || LoseStart(p, s, i, s') {
        StartReplacesNothing(p, s, i, s');
      }
    } else {
      IdleAddsNothing(p, s, s');
    }
  }

  // ---- Along runs

  /** The core invariant holds in every persisted state of every run. */
  lemma {:induction false} RunKeepsCore(p: Spec, tr: seq<Store>, k: nat)
    requires Run(p, tr) && k < |tr|
    ensures CoreInv(p, tr[k])
  {
    if k > 0 {
      RunKeepsCore(p, tr, k - 1);
      assert StepAt(p, tr, k - 1);
      NextKeepsCore(p, tr[k - 1], tr[k]);
    }
  }

  /** Each step of a run, on phases. */
  lemma RunPhaseStep(p: Spec, tr: seq<Store>, k: nat)
    requires Run(p, tr) && k + 1 < |tr|
    ensures AnyPhaseStep(p, Phases(p, tr[k].status.steps), Phases(p, tr[k + 1].status.steps))
  {
    RunKeepsCore(p, tr, k);
    assert StepAt(p, tr, k);
    NextKeepsCore(p, tr[k], tr[k + 1]);
  }

  /** The whole invariant holds in every persisted state of a run in which no Job is replaced. */
  lemma {:induction false} RunKeepsInv(p: Spec, tr: seq<Store>, k: nat)
    requires LastingRun(p, tr) && k < |tr|
    ensures Inv(p, tr[k])
  {
    if k > 0 {
      RunKeepsInv(p, tr, k - 1);
      assert StepAt(p, tr, k - 1) && UnreplacedAt(tr, k - 1);
      NextKeepsInv(p, tr[k - 1], tr[k]);
    }
  }

  /** Each step of such a run, on phases. */
  lemma LastingPhaseStep(p: Spec, tr: seq<Store>, k: nat)
    requires LastingRun(p, tr) && k + 1 < |tr|
    ensures PhaseStep(p, Phases(p, tr[k].status.steps), Phases(p, tr[k + 1].status.steps))
  {
    RunKeepsInv(p, tr, k);
    assert StepAt(p, tr, k) && UnreplacedAt(tr, k);
    NextKeepsInv(p, tr[k], tr[k + 1]);
  }

  lemma {:induction false} LastingChainKeepsInv(p: Spec, tr: seq<Store>, k: nat)
    requires LastingChain(p, tr) && Inv(p, tr[0]) && k < |tr|
    ensures Inv(p, tr[k])
  {
    if k > 0 {
      LastingChainKeepsInv(p, tr, k - 1);
      assert StepAt(p, tr, k - 1) && UnreplacedAt(tr, k - 1);
      NextKeepsInv(p, tr[k - 1], tr[k]);
    }
  }

  lemma ContinuesKeepsInv(p: Spec, s: Store, t: Store)
    requires Inv(p, s) && Continues(p, s, t)
    ensures Inv(p, t)
  {
    var tr :| LastingChain(p, tr) && tr[0] == s && Last(tr) == t;
    LastingChainKeepsInv(p, tr, |tr| - 1);
  }

  /** A pass is a stretch in which no Job is replaced. */
  lemma {:induction false} PathReplacesNothing(p: Spec, s: Store, tr: seq<Store>, t: Store, k: nat)
    requires CoreInv(p, s) && Path(p, s, tr, t) && k < |tr|
    ensures CoreInv(p, tr[k])
    ensures forall j :: 0 <= j < k ==> UnreplacedAt(tr, j)
  {
    if k > 0 {
      PathReplacesNothing(p, s, tr, t, k - 1);
      assert ControllerStepAt(p, tr, k - 1);
      NextKeepsCore(p, tr[k - 1], tr[k]);
      ControllerReplacesNothing(p, tr[k - 1], tr[k]);
    }
  }

  lemma ReachesContinues(p: Spec, s: Store, t: Store)
    requires CoreInv(p, s) && Reaches(p, s, t)
    ensures Continues(p, s, t)
  {
    var tr :| Path(p, s, tr, t);
    ControllerPathIsChain(p, s, tr, t);
    PathReplacesNothing(p, s, tr, t, |tr| - 1);
    forall k
      ensures UnreplacedAt(tr, k)
    {
      assert k < 0 || k >= |tr| - 1 || 0 <= k < |tr| - 1;
    }
    assert LastingChain(p, tr);
  }
}
