/** How often a step's Job is created: an exact account over whole runs with failing calls, vanishing Jobs,
    foreign Jobs and deletion at any point. */
module JobCreation {
  import opened PipelineTypes
  import opened Scheduling
  import opened Passes
  import opened Transitions
  import opened Invariants
  import opened RunProperties

  /** The step's own Job exists. */
  ghost predicate HasJob(p: Spec, s: Store, i: nat)
    requires i < |p.steps|
  {
    JobName(p, i) in Owned(p, s.jobs)
  }

  /** The step is recorded as started. */
  ghost predicate Begun(p: Spec, s: Store, i: nat)
    requires i < |p.steps|
  {
    PhasesAt(p, s)[i].Started()
  }

  ghost predicate Creates(p: Spec, s: Store, s': Store, i: nat)
    requires i < |p.steps|
  {
    !HasJob(p, s, i) && HasJob(p, s', i)
  }

  /** The Job disappears while the store does not know that the step was started. */
  ghost predicate Forgets(p: Spec, s: Store, s': Store, i: nat)
    requires i < |p.steps|
  {
    HasJob(p, s, i) && !HasJob(p, s', i) && !Begun(p, s, i)
  }

  lemma OwnedByName(p: Spec, jobs: map<string, Job>, name: string)
    ensures name in Owned(p, jobs) <==> name in jobs && jobs[name].owner == p.name
  {}

  /** A step of the controller that creates the Job of step `i`. */
  ghost predicate Starts(p: Spec, s: Store, i: nat, s': Store) {
    StartStep(p, s, i, s') || LoseStart(p, s, i, s')
  }

  lemma OnlyStartsAdd(p: Spec, s: Store, s': Store)
    requires Next(p, s, s') && forall i: nat :: !Starts(p, s, i, s')
    ensures Owned(p, s'.jobs) <= Owned(p, s.jobs)
  {
    assert forall i: nat :: StartStep(p, s, i, s') ==> Starts(p, s, i, s');
    assert forall i: nat :: LoseStart(p, s, i, s') ==> Starts(p, s, i, s');
  }

  lemma StartCreates(p: Spec, s: Store, i: nat, s': Store)
    requires Starts(p, s, i, s')
    ensures i < |p.steps| && Creates(p, s, s', i)
  {
    OwnedByName(p, s.jobs, JobName(p, i));
    OwnedByName(p, s'.jobs, JobName(p, i));
  }

  lemma OtherStartCreatesNothing(p: Spec, s: Store, k: nat, s': Store, i: nat)
    requires UniqueNames(p) && Starts(p, s, k, s') && i < |p.steps| && i != k
    ensures !Creates(p, s, s', i)
  {
    JobNameInjective(p, k, i);
    OwnedByName(p, s.jobs, JobName(p, i));
    OwnedByName(p, s'.jobs, JobName(p, i));
  }

  /** Only the controller creates the step's Job, and only while it decides to start the still Pending step. */
  lemma OnlyStartsCreate(p: Spec, s: Store, s': Store, i: nat)
    requires CoreInv(p, s) && Next(p, s, s') && i < |p.steps|
    ensures Creates(p, s, s', i) <==> StartStep(p, s, i, s') || LoseStart(p, s, i, s')
  {
    if Starts(p, s, i, s') {
      StartCreates(p, s, i, s');
    } else if k: nat :| Starts(p, s, k, s') {
      OtherStartCreatesNothing(p, s, k, s', i);
    } else {
      OnlyStartsAdd(p, s, s');
    }
  }

  /** How one step of a run moves the step's Job and its record. */
  lemma AccountStep(p: Spec, s: Store, s': Store, i: nat)
    requires CoreInv(p, s) && Next(p, s, s') && i < |p.steps|
    ensures Begun(p, s, i) ==> Begun(p, s', i)
    ensures Begun(p, s', i) && !Begun(p, s, i) ==> Creates(p, s, s', i)
    ensures Creates(p, s, s', i) ==> !Begun(p, s, i)
  {
    OnlyStartsCreate(p, s, s', i);
    NextKeepsCore(p, s, s');
    AnyPhaseStepKeeps(p, PhasesAt(p, s), PhasesAt(p, s'));
    if Begun(p, s', i) && !Begun(p, s, i) {
      BeginsByStarting(p, s, s', i);
    }
  }

  lemma BeginsByStarting(p: Spec, s: Store, s': Store, i: nat)
    requires CoreInv(p, s) && Next(p, s, s') && i < |p.steps|
    requires Begun(p, s', i) && !Begun(p, s, i)
    ensures StartStep(p, s, i, s')
  {
    if ObserveJobs(p, s, s') {
      ObserveJobsKeepsCore(p, s, s');
    } else if WalkStep(p, s, s') {
      WalkBegins(p, s, s', i);
    } else {
      IdleBeginsNothing(p, s, s');
    }
  }

  lemma SkipBeginsNothing(p: Spec, s: Store, k: nat, s': Store, i: nat)
    requires CoreInv(p, s) && SkipStep(p, s, k, s') && i < |p.steps|
    ensures Begun(p, s', i) ==> Begun(p, s, i)
  {
    SkipKeepsCore(p, s, k, s');
  }

  lemma StartBeginsOne(p: Spec, s: Store, k: nat, s': Store, i: nat)
    requires CoreInv(p, s) && StartStep(p, s, k, s') && i < |p.steps|
    ensures Begun(p, s', i) ==> Begun(p, s, i) || i == k
  {
    StartKeepsCore(p, s, k, s');
  }

  lemma WalkBegins(p: Spec, s: Store, s': Store, i: nat)
    requires CoreInv(p, s) && WalkStep(p, s, s') && i < |p.steps|
    requires Begun(p, s', i) && !Begun(p, s, i)
    ensures StartStep(p, s, i, s')
  {
    if k: nat :| SkipStep(p, s, k, s') {
      SkipBeginsNothing(p, s, k, s', i);
    } else if k: nat :| StartStep(p, s, k, s') {
      StartBeginsOne(p, s, k, s', i);
    }
  }

  lemma IdleBeginsNothing(p: Spec, s: Store, s': Store)
    requires CoreInv(p, s) && Next(p, s, s') && !ObserveJobs(p, s, s') && !WalkStep(p, s, s')
    ensures PhasesAt(p, s') == PhasesAt(p, s)
  {
    if PassVerdict(p, s, s') {
      PassVerdictKeepsCore(p, s, s');
    }
  }

  ghost function Creations(p: Spec, tr: seq<Store>, i: nat): nat
    requires i < |p.steps|
  {
    if |tr| <= 1 then 0
    else Creations(p, tr[..|tr| - 1], i) + if Creates(p, tr[|tr| - 2], Last(tr), i) then 1 else 0
  }

  ghost function Forgotten(p: Spec, tr: seq<Store>, i: nat): nat
    requires i < |p.steps|
  {
    if |tr| <= 1 then 0
    else Forgotten(p, tr[..|tr| - 1], i) + if Forgets(p, tr[|tr| - 2], Last(tr), i) then 1 else 0
  }

  lemma RunAccount(p: Spec, tr: seq<Store>, k: nat, i: nat)
    requires Run(p, tr) && k + 1 < |tr| && i < |p.steps|
    ensures Begun(p, tr[k], i) ==> Begun(p, tr[k + 1], i)
    ensures Begun(p, tr[k + 1], i) && !Begun(p, tr[k], i) ==> Creates(p, tr[k], tr[k + 1], i)
    ensures Creates(p, tr[k], tr[k + 1], i) ==> !Begun(p, tr[k], i)
  {
    RunKeepsCore(p, tr, k);
    assert StepAt(p, tr, k);
    AccountStep(p, tr[k], tr[k + 1], i);
  }

  /** Conservation: every creation is accounted for by the present record or Job, or by a Job that was lost before it
      was recorded. */
  lemma {:induction false} CreationAccount(p: Spec, tr: seq<Store>, i: nat)
    requires Run(p, tr) && i < |p.steps|
    ensures Creations(p, tr, i) ==
            Forgotten(p, tr, i) + if Begun(p, Last(tr), i) || HasJob(p, Last(tr), i) then 1 else 0
    decreases |tr|
  {
    if |tr| > 1 {
      RunPrefix(p, tr);
      CreationAccount(p, tr[..|tr| - 1], i);
      RunAccount(p, tr, |tr| - 2, i);
    }
  }

  /** A step's Job is created at most once exactly when no unrecorded Job was lost, or one was lost and nothing is
      left. */
  lemma AtMostOnceExact(p: Spec, tr: seq<Store>, i: nat)
    requires Run(p, tr) && i < |p.steps|
    ensures Creations(p, tr, i) <= 1 <==>
            (Forgotten(p, tr, i) == 0 ||
             (Forgotten(p, tr, i) == 1 && !Begun(p, Last(tr), i) && !HasJob(p, Last(tr), i)))
  {
    CreationAccount(p, tr, i);
  }

  /** While Jobs stay where they are, failing calls and retries never create a step's Job twice. */
  lemma AtMostOnceWhileJobsStay(p: Spec, tr: seq<Store>, i: nat)
    requires Run(p, tr) && i < |p.steps|
    requires forall k :: 0 <= k < |tr| - 1 ==> tr[k].jobs.Keys <= tr[k + 1].jobs.Keys
    ensures Creations(p, tr, i) <= 1
  {
    NothingForgotten(p, tr, i);
    CreationAccount(p, tr, i);
  }

  lemma {:induction false} NothingForgotten(p: Spec, tr: seq<Store>, i: nat)
    requires Run(p, tr) && i < |p.steps|
    requires forall k :: 0 <= k < |tr| - 1 ==> tr[k].jobs.Keys <= tr[k + 1].jobs.Keys
    ensures Forgotten(p, tr, i) == 0
    decreases |tr|
  {
    if |tr| > 1 {
      var k := |tr| - 2;
      RunPrefix(p, tr);
      NothingForgotten(p, tr[..k + 1], i);
      assert StepAt(p, tr, k);
      if Forgets(p, tr[k], tr[k + 1], i) {
        KeptJobKeepsOwner(p, tr[k], tr[k + 1], JobName(p, i));
      }
    }
  }

  lemma KeptJobKeepsOwner(p: Spec, s: Store, s': Store, name: string)
    requires Next(p, s, s') && name in s.jobs && name in s'.jobs
    ensures s'.jobs[name].owner == s.jobs[name].owner
  {}

  lemma TakenNameStartsNothing(p: Spec, s: Store, s': Store, i: nat)
    requires CoreInv(p, s) && Next(p, s, s') && i < |p.steps|
    requires JobName(p, i) in s.jobs && !Begun(p, s, i)
    ensures !Begun(p, s', i)
  {
    if Begun(p, s', i) {
      BeginsByStarting(p, s, s', i);
    }
  }

  lemma DueStays(p: Spec, ph: seq<StepPhase>, ph': seq<StepPhase>, i: nat)
    requires |ph| == |p.steps| && PhaseStep(p, ph, ph') && i < |ph| && !ph'[i].Started()
    requires ph[i].Pending? && Grounded(p, ph, i) && Decide(p, ph, i) == Start
    ensures ph'[i].Pending? && Grounded(p, ph', i) && Decide(p, ph', i) == Start
  {
    PhaseStepAdvances(p, ph, ph');
    DecisionStable(p, ph, ph', i);
  }

  lemma TakenNameBlocksAt(p: Spec, tr: seq<Store>, i: nat, k: nat)
    requires LastingRun(p, tr) && i < |p.steps| && k + 1 < |tr| && JobName(p, i) in tr[k].jobs
    requires var ph := PhasesAt(p, tr[k]);
             ph[i].Pending? && Grounded(p, ph, i) && Decide(p, ph, i) == Start
    ensures var ph := PhasesAt(p, tr[k + 1]);
            ph[i].Pending? && Grounded(p, ph, i) && Decide(p, ph, i) == Start
  {
    RunKeepsCore(p, tr, k);
    assert StepAt(p, tr, k);
    TakenNameStartsNothing(p, tr[k], tr[k + 1], i);
    LastingPhaseStep(p, tr, k);
    DueStays(p, PhasesAt(p, tr[k]), PhasesAt(p, tr[k + 1]), i);
  }

  /** While its name is taken, a step that is due to start stays Pending, however often it is retried, and the pipeline
      does not succeed. */
  lemma {:induction false} TakenNameBlocks(p: Spec, tr: seq<Store>, i: nat, k: nat, l: nat)
    requires LastingRun(p, tr) && i < |p.steps| && k <= l < |tr|
    requires forall m :: k <= m <= l ==> JobName(p, i) in tr[m].jobs
    requires var ph := PhasesAt(p, tr[k]);
             ph[i].Pending? && Grounded(p, ph, i) && Decide(p, ph, i) == Start
    ensures var ph := PhasesAt(p, tr[l]);
            ph[i].Pending? && Grounded(p, ph, i) && Decide(p, ph, i) == Start
    ensures !tr[l].status.phase.Succeeded?
    decreases l
  {
    if k < l {
      TakenNameBlocks(p, tr, i, k, l - 1);
      TakenNameBlocksAt(p, tr, i, l - 1);
    }
    VerdictIsSound(p, tr, l);
  }
}
