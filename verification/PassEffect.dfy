/** What a pass does when no call fails and no name it needs is taken: exactly, and on phases and Jobs alone. */
module PassEffect {
  import opened PipelineTypes
  import opened Scheduling
  import opened Passes
  import opened Transitions
  import opened Invariants
  import opened RunProperties

  /** No Job blocks the name of a step that is still to be started. */
  ghost predicate NamesFree(p: Spec, ph: seq<StepPhase>, jobs: map<string, Job>)
    requires |ph| == |p.steps|
  {
    forall i :: 0 <= i < |ph| && ph[i].Pending? ==> JobName(p, i) !in jobs
  }

  // ---- The walk

  ghost predicate StartsNow(p: Spec, ph: seq<StepPhase>, i: nat)
    requires |ph| == |p.steps| && i < |ph|
  {
    ph[i].Pending? && Decide(p, ph, i) == Start
  }

  ghost function Handled(p: Spec, ph: seq<StepPhase>, i: nat): (r: seq<StepPhase>)
    requires |ph| == |p.steps| && i < |ph|
    ensures |r| == |ph|
  {
    if !ph[i].Pending? then ph
    else
      match Decide(p, ph, i)
      case Wait => ph
      case Skip => ph[i := StepPhase.Skipped]
      case Start => ph[i := StepPhase.Running]
  }

  ghost function WithJob(p: Spec, ph: seq<StepPhase>, jobs: map<string, Job>, i: nat): map<string, Job>
    requires |ph| == |p.steps| && i < |ph|
  {
    if StartsNow(p, ph, i) then jobs[JobName(p, i) := Job(p.name, NEW_JOB_STATUS)] else jobs
  }

  /** The phases after the walk over the steps from `i` on; a decision counts for the steps after it. */
  ghost function WalkPhases(p: Spec, ph: seq<StepPhase>, i: nat): (r: seq<StepPhase>)
    requires |ph| == |p.steps| && i <= |ph|
    ensures |r| == |ph|
    decreases |ph| - i
  {
    if i == |ph| then ph else WalkPhases(p, Handled(p, ph, i), i + 1)
  }

  /** The Jobs after that walk. */
  ghost function WalkJobs(p: Spec, ph: seq<StepPhase>, jobs: map<string, Job>, i: nat): map<string, Job>
    requires |ph| == |p.steps| && i <= |ph|
    decreases |ph| - i
  {
    if i == |ph| then jobs else WalkJobs(p, Handled(p, ph, i), WithJob(p, ph, jobs, i), i + 1)
  }

  lemma HandledNamesFree(p: Spec, ph: seq<StepPhase>, jobs: map<string, Job>, i: nat)
    requires UniqueNames(p) && |ph| == |p.steps| && i < |ph| && NamesFree(p, ph, jobs)
    ensures NamesFree(p, Handled(p, ph, i), WithJob(p, ph, jobs, i))
  {
    forall j: nat | j < |ph| && j != i
      ensures JobName(p, j) != JobName(p, i)
    {
      JobNameInjective(p, i, j);
    }
  }

  /** The names of the steps that the walk leaves Pending are still free after it. */
  lemma {:induction false} NamesStayFree(p: Spec, ph: seq<StepPhase>, jobs: map<string, Job>, i: nat)
    requires UniqueNames(p) && |ph| == |p.steps| && i <= |ph| && NamesFree(p, ph, jobs)
    ensures NamesFree(p, WalkPhases(p, ph, i), WalkJobs(p, ph, jobs, i))
    decreases |ph| - i
  {
    if i < |ph| {
      HandledNamesFree(p, ph, jobs, i);
      NamesStayFree(p, Handled(p, ph, i), WithJob(p, ph, jobs, i), i + 1);
    }
  }

  /** The walk starts and skips Pending steps and touches nothing else. */
  lemma {:induction false} WalkOnlyDecides(p: Spec, ph: seq<StepPhase>, i: nat)
    requires |ph| == |p.steps| && i <= |ph|
    ensures forall j :: 0 <= j < |ph| ==> var after := WalkPhases(p, ph, i)[j];
              after == ph[j] || (ph[j].Pending? && (after.Running? || after.Skipped?))
    decreases |ph| - i
  {
    if i < |ph| {
      WalkOnlyDecides(p, Handled(p, ph, i), i + 1);
    }
  }

  /** A step that is due does not look at the steps that the walk moves. */
  lemma HandledKeepsReady(p: Spec, ph: seq<StepPhase>, i: nat, j: nat)
    requires |ph| == |p.steps| && i < |ph| && j < |ph| && i != j
    requires ph[j].Pending? && Decide(p, ph, j) != Wait
    ensures Handled(p, ph, i)[j].Pending? && Decide(p, Handled(p, ph, i), j) == Decide(p, ph, j)
  {
    assert forall k :: 0 <= k < |ph| && Dep(p, j, k) ==> Handled(p, ph, i)[k] == ph[k];
  }

  /** The phase that a decision gives a Pending step. */
  function PhaseOf(d: Decision): StepPhase {
    match d case Wait => StepPhase.Pending case Skip => StepPhase.Skipped case Start => StepPhase.Running
  }

  lemma HandledIsFinal(p: Spec, ph: seq<StepPhase>, i: nat, j: nat)
    requires |ph| == |p.steps| && i <= |ph| && j < |ph| && !ph[j].Pending?
    ensures WalkPhases(p, ph, i)[j] == ph[j]
  {
    WalkOnlyDecides(p, ph, i);
  }

  /** The walk decides every Pending step that is due when it begins, and as it is due then. */
  lemma {:induction false} WalkDecides(p: Spec, ph: seq<StepPhase>, i: nat, j: nat)
    requires |ph| == |p.steps| && i <= j < |ph| && ph[j].Pending? && Decide(p, ph, j) != Wait
    ensures WalkPhases(p, ph, i)[j] == PhaseOf(Decide(p, ph, j))
    decreases |ph| - i
  {
    var ph' := Handled(p, ph, i);
    if i == j {
      HandledIsFinal(p, ph', i + 1, j);
    } else {
      HandledKeepsReady(p, ph, i, j);
      WalkDecides(p, ph', i + 1, j);
    }
  }

  /** Memory and store agree on all phases. */
  ghost predicate Synced(p: Spec, c: Ctx) {
    && Aligned(p, c.mem.steps) && Aligned(p, c.store.status.steps)
    && Phases(p, c.store.status.steps) == Phases(p, c.mem.steps)
    && c.store.status.phase == c.mem.phase
  }

  /** `c` becomes a synchronised `c'` with these phases and Jobs; nothing else of the store but the status moves. */
  ghost predicate Becomes(p: Spec, c: Ctx, c': Ctx, ph: seq<StepPhase>, jobs: map<string, Job>) {
    && Synced(p, c') && c'.budget == Unlimited && c'.mem.phase == c.mem.phase
    && Phases(p, c'.mem.steps) == ph
    && c'.store == c.store.(jobs := jobs, status := c'.store.status)
  }

  lemma HandleStepExact(p: Spec, c: Ctx, i: nat)
    requires Synced(p, c) && c.budget.Unlimited? && i < |p.steps|
    requires NamesFree(p, Phases(p, c.mem.steps), c.store.jobs)
    ensures var r, ph := HandleStep(p, c, i), Phases(p, c.mem.steps);
            r.Ok? && Becomes(p, c, r.c, Handled(p, ph, i), WithJob(p, ph, c.store.jobs, i))
  {
    var ph, r := Phases(p, c.mem.steps), HandleStep(p, c, i);
    assert ph[i] == c.mem.steps[i].phase;
    if ph[i].Pending? {
      match Decide(p, ph, i)
      case Wait =>
      case Skip =>
        assert r.Ok? && Phases(p, r.c.mem.steps) == ph[i := StepPhase.Skipped];
      case Start =>
        assert JobName(p, i) !in c.store.jobs;
        assert r.Ok? && Phases(p, r.c.mem.steps) == ph[i := StepPhase.Running];
    }
  }

  /** On a walk in which no call fails, the code computes exactly these phases and Jobs. */
  lemma {:induction false} WalkExact(p: Spec, c: Ctx, i: nat)
    requires UniqueNames(p) && Synced(p, c) && c.budget.Unlimited? && i <= |p.steps|
    requires NamesFree(p, Phases(p, c.mem.steps), c.store.jobs)
    ensures var r, ph := StartFrom(p, c, i), Phases(p, c.mem.steps);
            r.Ok? && Becomes(p, c, r.c, WalkPhases(p, ph, i), WalkJobs(p, ph, c.store.jobs, i))
    decreases |p.steps| - i
  {
    if i < |p.steps| {
      HandleStepExact(p, c, i);
      HandledNamesFree(p, Phases(p, c.mem.steps), c.store.jobs, i);
      WalkExact(p, HandleStep(p, c, i).c, i + 1);
    }
  }

  // ---- The observation and the verdict

  /** The phases after every started step's Job, where there is one, has been read. */
  ghost function SeenPhases(p: Spec, ph: seq<StepPhase>, jobs: map<string, Job>): (r: seq<StepPhase>)
    requires |ph| == |p.steps|
    ensures |r| == |ph|
  {
    seq(|ph|, i requires 0 <= i < |ph| =>
      if ph[i].Started() && JobName(p, i) in jobs then ObservedPhase(jobs[JobName(p, i)].status, ph[i]) else ph[i])
  }

  ghost function Seen(p: Spec, s: Store): (r: seq<StepPhase>)
    ensures |r| == |p.steps|
  {
    SeenPhases(p, PhasesAt(p, s), s.jobs)
  }

  /** Nothing runs or is suspended, and what is Pending has been given up because of a failure it does not handle. */
  ghost predicate Over(p: Spec, ph: seq<StepPhase>)
    requires |ph| == |p.steps|
  {
    && (forall i :: 0 <= i < |ph| ==> !ph[i].Running? && !ph[i].Suspended?)
    && (forall i :: 0 <= i < |ph| && ph[i].Pending? ==>
          (exists j :: 0 <= j < |ph| && ph[j].Failed?) && !p.steps[i].HandlesFailure())
  }

  lemma ObserveSees(p: Spec, s: Store)
    requires StoreInv(p, s) && Aligned(p, s.status.steps)
    ensures Aligned(p, Observe(s.status.steps, s.jobs)) && Phases(p, Observe(s.status.steps, s.jobs)) == Seen(p, s)
  {
    forall i | 0 <= i < |p.steps|
      ensures ObserveStep(s.status.steps[i], s.jobs).phase == Seen(p, s)[i]
    {
      JobNameNotEmpty(p, i);
    }
  }

  lemma SamePhasesExact(p: Spec, a: seq<StepStatus>, b: seq<StepStatus>)
    requires Aligned(p, a) && Aligned(p, b)
    ensures SamePhases(a, b) <==> Phases(p, a) == Phases(p, b)
  {
    assert forall i :: 0 <= i < |a| ==> Phases(p, a)[i] == a[i].phase && Phases(p, b)[i] == b[i].phase;
  }

  lemma ObservationExact(p: Spec, c: Ctx)
    requires StoreInv(p, c.store) && Aligned(p, c.store.status.steps)
    requires c.mem == c.store.status && c.budget.Unlimited?
    ensures var r := UpdateStepStatuses(c);
            r.Ok? && Becomes(p, c, r.c, Seen(p, c.store), c.store.jobs)
  {
    var after := Observe(c.mem.steps, c.store.jobs);
    ObserveSees(p, c.store);
    SamePhasesExact(p, c.mem.steps, after);
    var r := UpdateStepStatuses(c);
    assert r.Ok? && r.c.mem == c.mem.(steps := after);
  }

  /** In progress: the only stores on which a pass observes and starts anything. */
  ghost predicate Live(s: Store) {
    s.present && !s.deleting && !s.status.phase.Unset? && !s.status.phase.Terminal()
  }

  /** What a pass leaves behind when no call fails and the phases seen are `seen`. */
  ghost predicate PassResult(p: Spec, s: Store, seen: seq<StepPhase>, o: Outcome)
    requires |seen| == |p.steps|
  {
    && o.store == s.(finalizer := true, jobs := o.store.jobs, status := o.store.status)
    && !o.store.status.phase.Unset?
    && (o.store.status.phase.Terminal() <==> Over(p, seen))
    && (o.store.status.phase.Failed? <==> Over(p, seen) && exists i :: 0 <= i < |seen| && seen[i].Failed?)
    && o.answer == (if Over(p, seen) then Stop else RequeueLater)
    && PhasesAt(p, o.store) == (if Over(p, seen) then seen else WalkPhases(p, seen, 0))
    && o.store.jobs == (if Over(p, seen) then s.jobs else WalkJobs(p, seen, s.jobs, 0))
  }

  lemma VerdictOnPhases(p: Spec, steps: seq<StepStatus>, before: PipelinePhase)
    requires Aligned(p, steps) && !before.Terminal() && !before.Unset?
    ensures var ph, next := Phases(p, steps), NextPhase(p, steps, before);
            && !next.Unset?
            && (next.Terminal() <==> Over(p, ph))
            && (next.Failed? <==> Over(p, ph) && exists i :: 0 <= i < |ph| && ph[i].Failed?)
  {
    VerdictExact(p, steps, before);
  }

  lemma VerdictKeepsSync(p: Spec, c: Ctx, now: int)
    requires Synced(p, c) && c.budget.Unlimited?
    ensures var r := UpdatePipelinePhase(p, c, now);
            && r.Ok? && Synced(p, r.c) && r.c.budget.Unlimited? && r.c.mem.steps == c.mem.steps
            && r.c.store == c.store.(status := r.c.store.status)
            && r.c.mem.phase == NextPhase(p, c.mem.steps, c.mem.phase)
  {}

  lemma SecondHalfExact(p: Spec, c: Ctx, now: int)
    requires UniqueNames(p) && Synced(p, c) && c.budget.Unlimited? && c.store.finalizer
    requires !c.mem.phase.Unset? && !c.mem.phase.Terminal()
    requires NamesFree(p, Phases(p, c.mem.steps), c.store.jobs)
    ensures PassResult(p, c.store, Phases(p, c.mem.steps), JudgeAndStart(p, c, now))
  {
    VerdictKeepsSync(p, c, now);
    VerdictOnPhases(p, c.mem.steps, c.mem.phase);
    var c1 := UpdatePipelinePhase(p, c, now).c;
    if !c1.mem.phase.Terminal() {
      WalkExact(p, c1, 0);
    }
  }

  lemma InitialiseExact(p: Spec, s: Store)
    requires Working(s) && StoreInv(p, s)
    ensures var r := Initialise(p, Ctx(s, Unlimited, s.status));
            && r.Ok? && r.c.mem == r.c.store.status && r.c.budget == Unlimited && StoreInv(p, r.c.store)
            && Aligned(p, r.c.mem.steps) && r.c.store == s.(status := r.c.mem) && r.c.mem.phase == s.status.phase
            && PhasesAt(p, r.c.store) == PhasesAt(p, s)
  {}

  lemma PipelinePassExact(p: Spec, s: Store, now: int)
    requires UniqueNames(p) && Working(s) && StoreInv(p, s) && NamesFree(p, Seen(p, s), s.jobs)
    ensures PassResult(p, s, Seen(p, s), ReconcilePipeline(p, Ctx(s, Unlimited, s.status), now))
  {
    InitialiseExact(p, s);
    var c1 := Initialise(p, Ctx(s, Unlimited, s.status)).c;
    ObservationExact(p, c1);
    var c2 := UpdateStepStatuses(c1).c;
    SecondHalfExact(p, c2, now);
  }

  lemma SeenKeepsPending(p: Spec, ph: seq<StepPhase>, jobs: map<string, Job>, i: nat)
    requires |ph| == |p.steps| && i < |ph|
    ensures SeenPhases(p, ph, jobs)[i].Pending? <==> ph[i].Pending?
    ensures SeenPhases(p, ph, jobs)[i].Started() <==> ph[i].Started()
  {
    if ph[i].Started() && JobName(p, i) in jobs {
      FirstTrueHolds(jobs[JobName(p, i)].status.conditions);
    }
  }

  /** The whole pass: verdict on what has been seen, and, unless it is final, the walk on it. */
  lemma PassExact(p: Spec, s: Store, listed: seq<string>, now: int)
    requires UniqueNames(p) && StoreInv(p, s) && Live(s) && NamesFree(p, PhasesAt(p, s), s.jobs)
    ensures PassResult(p, s, Seen(p, s), Reconcile(p, s, Unlimited, listed, now))
  {
    forall i: nat | i < |p.steps|
      ensures Seen(p, s)[i].Pending? <==> PhasesAt(p, s)[i].Pending?
    {
      SeenKeepsPending(p, PhasesAt(p, s), s.jobs, i);
    }
    PipelinePassExact(p, s.(finalizer := true), now);
  }

  /** A pass that does not end the pipeline leaves the names of the Pending steps free. */
  lemma PassKeepsNamesFree(p: Spec, s: Store, listed: seq<string>, now: int)
    requires UniqueNames(p) && StoreInv(p, s) && Live(s) && NamesFree(p, PhasesAt(p, s), s.jobs)
    ensures var t := Reconcile(p, s, Unlimited, listed, now).store;
            NamesFree(p, PhasesAt(p, t), t.jobs)
  {
    PassExact(p, s, listed, now);
    forall i: nat | i < |p.steps|
      ensures Seen(p, s)[i].Pending? <==> PhasesAt(p, s)[i].Pending?
    {
      SeenKeepsPending(p, PhasesAt(p, s), s.jobs, i);
    }
    NamesStayFree(p, Seen(p, s), s.jobs, 0);
  }

  // ---- What becomes of a step that is due

  /** The verdict comes before the walk: a failure that nothing running, suspended or Pending reacts to ends the
      pipeline. */
  ghost predicate GivenUp(p: Spec, ph: seq<StepPhase>)
    requires |ph| == |p.steps|
  {
    && (exists i :: 0 <= i < |ph| && ph[i].Failed?)
    && (forall i :: 0 <= i < |ph| ==> !ph[i].Running? && !ph[i].Suspended?)
    && (forall i :: 0 <= i < |ph| && ph[i].Pending? ==> !p.steps[i].HandlesFailure())
  }

  lemma PendingOverExact(p: Spec, ph: seq<StepPhase>, i: nat)
    requires |ph| == |p.steps| && i < |ph| && ph[i].Pending?
    ensures Over(p, ph) <==> GivenUp(p, ph)
  {}

  /** A step that a pass sees due is decided by that pass exactly unless the pipeline is given up on what it has seen;
      then it stays Pending for ever. */
  lemma DueStepExact(p: Spec, s: Store, listed: seq<string>, now: int, i: nat)
    requires UniqueNames(p) && StoreInv(p, s) && Live(s) && NamesFree(p, PhasesAt(p, s), s.jobs)
    requires i < |p.steps| && Seen(p, s)[i].Pending? && Decide(p, Seen(p, s), i) != Wait
    ensures var t := Reconcile(p, s, Unlimited, listed, now).store;
            && (!PhasesAt(p, t)[i].Pending? <==> !GivenUp(p, Seen(p, s)))
            && (!GivenUp(p, Seen(p, s)) ==> PhasesAt(p, t)[i] == PhaseOf(Decide(p, Seen(p, s), i)))
            && (GivenUp(p, Seen(p, s)) ==> t.status.phase.Failed?)
  {
    PassExact(p, s, listed, now);
    PendingOverExact(p, Seen(p, s), i);
    WalkDecides(p, Seen(p, s), 0, i);
  }
}
