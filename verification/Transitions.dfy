/** The pipeline as a transition system over what is persisted: one step per effective API call of the controller,
    and the steps of the cluster around it. Every reconcile pass, cut short by a failing call at any point, is a
    sequence of controller steps, so what holds in every run of this system holds in every persisted state. */
module Transitions {
  import opened PipelineTypes
  import opened Scheduling
  import opened Passes
  import opened Controller

  // ---- What a later write may carry along

  /** `b` is `a` with refreshed Job statuses and possibly a refreshed Ready condition. */
  ghost predicate Refreshed(a: Status, b: Status) {
    && b == a.(steps := b.steps, conditions := b.conditions)
    && |b.steps| == |a.steps|
    && (forall i :: 0 <= i < |a.steps| ==> b.steps[i] == a.steps[i].(jobStatus := b.steps[i].jobStatus))
    && (b.conditions == a.conditions || b.conditions == WithReady(a.conditions, a.phase))
  }

  // ---- Controller steps

  ghost predicate Working(s: Store) {
    s.present && !s.deleting && s.finalizer && !s.status.phase.Unset? && !s.status.phase.Terminal()
  }

  /** Steps are started or skipped only while a failure has not settled the verdict. */
  ghost predicate Gate(p: Spec, ph: seq<StepPhase>) {
    (exists i :: 0 <= i < |ph| && ph[i].Failed?) ==>
      || (exists i :: 0 <= i < |ph| && (ph[i].Running? || ph[i].Suspended?))
      || (exists i :: 0 <= i < |p.steps| && p.steps[i].HandlesFailure())
  }

  /** Step `i` is Pending and the waiting rules decide `d` for it. */
  ghost predicate Decides(p: Spec, s: Store, i: nat, d: Decision) {
    && Working(s) && Aligned(p, s.status.steps) && i < |p.steps|
    && s.status.steps[i].phase.Pending?
    && Gate(p, Phases(p, s.status.steps))
    && Decide(p, Phases(p, s.status.steps), i) == d
  }

  ghost predicate Attach(s: Store, s': Store) {
    s.present && !s.deleting && !s.finalizer && s' == s.(finalizer := true)
  }

  ghost predicate Accept(s: Store, s': Store) {
    && s.present && !s.deleting && s.finalizer && s.status.phase.Unset?
    && s' == s.(status := s.status.(phase := PipelinePhase.Pending, startTime := s'.status.startTime))
    && s'.status.startTime.Some?
  }

  ghost predicate Populate(p: Spec, s: Store, s': Store) {
    Working(s) && s.status.steps == [] && s' == s.(status := s.status.(steps := FreshSteps(p)))
  }

  ghost predicate ObserveJobs(p: Spec, s: Store, s': Store) {
    && Working(s) && Aligned(p, s.status.steps)
    && s' == s.(status := s.status.(steps := Observe(s.status.steps, s.jobs)))
  }

  ghost predicate PassVerdict(p: Spec, s: Store, s': Store) {
    && Working(s) && Aligned(p, s.status.steps)
    && Refreshed(s.status, s.status.(steps := s'.status.steps)) && Aligned(p, s'.status.steps)
    && s'.status.phase != s.status.phase
    && s' == s.(status := s'.status)
    && exists now :: s'.status == Judge(p, s.status.(steps := s'.status.steps), now)
  }

  ghost predicate SkipStep(p: Spec, s: Store, i: nat, s': Store) {
    && Decides(p, s, i, Skip)
    && s' == s.(status := s'.status)
    && Refreshed(SetPhase(s.status, i, StepPhase.Skipped), s'.status)
  }

  ghost predicate StartStep(p: Spec, s: Store, i: nat, s': Store) {
    && Decides(p, s, i, Start)
    && JobName(p, i) !in s.jobs
    && s' == s.(jobs := s.jobs[JobName(p, i) := Job(p.name, NEW_JOB_STATUS)], status := s'.status)
    && Refreshed(SetPhase(SetJobName(s.status, i, JobName(p, i)), i, StepPhase.Running), s'.status)
  }

  /** The Job was created but the status write after it failed. */
  ghost predicate LoseStart(p: Spec, s: Store, i: nat, s': Store) {
    && Decides(p, s, i, Start)
    && JobName(p, i) !in s.jobs
    && s' == s.(jobs := s.jobs[JobName(p, i) := Job(p.name, NEW_JOB_STATUS)])
  }

  ghost predicate CleanUp(p: Spec, s: Store, s': Store) {
    && s.present && s.deleting && s.finalizer
    && exists name :: name in Owned(p, s.jobs) && s' == s.(jobs := s.jobs - {name})
  }

  ghost predicate Release(p: Spec, s: Store, s': Store) {
    && s.present && s.deleting && s.finalizer && Owned(p, s.jobs) == {}
    && s' == s.(finalizer := false, present := false)
  }

  ghost predicate ControllerStep(p: Spec, s: Store, s': Store) {
    || Attach(s, s')
    || Accept(s, s')
    || Populate(p, s, s')
    || ObserveJobs(p, s, s')
    || PassVerdict(p, s, s')
    || (exists i: nat :: SkipStep(p, s, i, s'))
    || (exists i: nat :: StartStep(p, s, i, s'))
    || (exists i: nat :: LoseStart(p, s, i, s'))
    || CleanUp(p, s, s')
    || Release(p, s, s')
  }

  // ---- Cluster steps

  ghost predicate HasTrue(job: JobStatus, kind: JobConditionType) {
    exists k :: 0 <= k < |job.conditions| && job.conditions[k] == JobCondition(kind, True)
  }

  /** At most one of Complete, Failed and Suspended is True. */
  ghost predicate Exclusive(job: JobStatus) {
    forall a, b :: HasTrue(job, a) && HasTrue(job, b) && !a.OtherType? && !b.OtherType? ==> a == b
  }

  /** A Job changes freely, except that a True Complete or Failed condition is permanent. */
  ghost predicate Evolves(a: Job, b: Job) {
    && b.owner == a.owner
    && (a == b ||
        (Exclusive(b.status) &&
         (HasTrue(a.status, Complete) ==> HasTrue(b.status, Complete)) &&
         (HasTrue(a.status, JobFailed) ==> HasTrue(b.status, JobFailed))))
  }

  ghost predicate JobsEvolve(a: map<string, Job>, b: map<string, Job>) {
    a.Keys == b.Keys && forall name :: name in a ==> Evolves(a[name], b[name])
  }

  ghost predicate JobsChange(s: Store, s': Store) {
    s' == s.(jobs := s'.jobs) && JobsEvolve(s.jobs, s'.jobs)
  }

  ghost predicate JobVanishes(s: Store, s': Store) {
    exists name :: name in s.jobs && s' == s.(jobs := s.jobs - {name})
  }

  /** Somebody else's Job. */
  ghost predicate JobAppears(p: Spec, s: Store, s': Store) {
    exists name ::
      && name in s'.jobs && name !in s.jobs
      && s' == s.(jobs := s.jobs[name := s'.jobs[name]])
      && s'.jobs[name].owner != p.name
  }

  ghost predicate DeletionRequested(s: Store, s': Store) {
    s.present && s' == if s.finalizer then s.(deleting := true) else s.(present := false)
  }

  ghost predicate ClusterStep(p: Spec, s: Store, s': Store) {
    JobsChange(s, s') || JobVanishes(s, s') || JobAppears(p, s, s') || DeletionRequested(s, s')
  }

  // ---- Runs

  ghost predicate Next(p: Spec, s: Store, s': Store) {
    ControllerStep(p, s, s') || ClusterStep(p, s, s')
  }

  ghost predicate StepAt(p: Spec, tr: seq<Store>, k: int) {
    0 <= k < |tr| - 1 ==> Next(p, tr[k], tr[k + 1])
  }

  ghost predicate Chain(p: Spec, tr: seq<Store>) {
    |tr| > 0 && forall k :: StepAt(p, tr, k)
  }

  /** A new pipeline object. Its phase may have been defaulted to Pending; none of its Jobs exists. */
  ghost predicate Init(p: Spec, s: Store) {
    && s.present && !s.deleting && !s.finalizer
    && (s.status.phase.Unset? || s.status.phase.Pending?)
    && s.status.steps == [] && s.status.conditions == map[] && s.status.completionTime.None?
    && Owned(p, s.jobs) == {}
  }

  /** The persisted states of one pipeline's life, in order. */
  ghost predicate Run(p: Spec, tr: seq<Store>) {
    UniqueNames(p) && Chain(p, tr) && Init(p, tr[0])
  }

  function Last(tr: seq<Store>): Store
    requires |tr| > 0
  {
    tr[|tr| - 1]
  }

  // ---- The guard that no Job is replaced

  /** No Job appears under the name of a started step whose Job is gone. */
  ghost predicate Unreplaced(s: Store, s': Store) {
    forall i :: 0 <= i < |s.status.steps| &&
                s.status.steps[i].phase.Started() && s.status.steps[i].jobName !in s.jobs ==>
      s.status.steps[i].jobName !in s'.jobs
  }

  ghost predicate UnreplacedAt(tr: seq<Store>, k: int) {
    0 <= k < |tr| - 1 ==> Unreplaced(tr[k], tr[k + 1])
  }

  /** A run in which no Job replaces the vanished Job of a started step. */
  ghost predicate LastingRun(p: Spec, tr: seq<Store>) {
    Run(p, tr) && forall k :: UnreplacedAt(tr, k)
  }

  /** A stretch of such a run. */
  ghost predicate LastingChain(p: Spec, tr: seq<Store>) {
    Chain(p, tr) && forall k :: UnreplacedAt(tr, k)
  }

  /** `t` can follow `s`, after any number of steps, in a run in which no Job is replaced. */
  ghost predicate Continues(p: Spec, s: Store, t: Store) {
    exists tr :: LastingChain(p, tr) && tr[0] == s && Last(tr) == t
  }

  lemma ChainJoin(p: Spec, a: seq<Store>, b: seq<Store>)
    requires LastingChain(p, a) && LastingChain(p, b) && Last(a) == b[0]
    ensures LastingChain(p, a + b[1..]) && (a + b[1..])[0] == a[0] && Last(a + b[1..]) == Last(b)
  {
    var c := a + b[1..];
    forall k
      ensures StepAt(p, c, k) && UnreplacedAt(c, k)
    {
      assert StepAt(p, a, k) && StepAt(p, b, k - |a| + 1);
      assert UnreplacedAt(a, k) && UnreplacedAt(b, k - |a| + 1);
    }
  }

  lemma ContinuesAtMostOnce(p: Spec, s: Store, t: Store)
    requires s == t || (Next(p, s, t) && Unreplaced(s, t))
    ensures Continues(p, s, t)
  {
    var tr := if s == t then [s] else [s, t];
    assert LastingChain(p, tr) && tr[0] == s && Last(tr) == t;
  }

  lemma ContinuesTransitive(p: Spec, s: Store, t: Store, u: Store)
    requires Continues(p, s, t) && Continues(p, t, u)
    ensures Continues(p, s, u)
  {
    var a :| LastingChain(p, a) && a[0] == s && Last(a) == t;
    var b :| LastingChain(p, b) && b[0] == t && Last(b) == u;
    ChainJoin(p, a, b);
  }

  // ---- Sequences of controller steps

  ghost predicate ControllerStepAt(p: Spec, tr: seq<Store>, k: int) {
    0 <= k < |tr| - 1 ==> ControllerStep(p, tr[k], tr[k + 1])
  }

  ghost predicate Path(p: Spec, s: Store, tr: seq<Store>, t: Store) {
    |tr| > 0 && tr[0] == s && Last(tr) == t && forall k :: ControllerStepAt(p, tr, k)
  }

  /** `t` is reached from `s` by steps of the controller alone. */
  ghost predicate Reaches(p: Spec, s: Store, t: Store) {
    exists tr :: Path(p, s, tr, t)
  }

  lemma ReachesAtMostOnce(p: Spec, s: Store, t: Store)
    requires s == t || ControllerStep(p, s, t)
    ensures Reaches(p, s, t)
  {
    assert Path(p, s, if s == t then [s] else [s, t], t);
  }

  lemma ReachesTransitive(p: Spec, s: Store, t: Store, u: Store)
    requires Reaches(p, s, t) && Reaches(p, t, u)
    ensures Reaches(p, s, u)
  {
    var a :| Path(p, s, a, t);
    var b :| Path(p, t, b, u);
    var c := a + b[1..];
    forall k
      ensures ControllerStepAt(p, c, k)
    {
      assert ControllerStepAt(p, a, k) && ControllerStepAt(p, b, k - |a| + 1);
    }
    assert Path(p, s, c, u);
  }

  // ---- Every pass is a sequence of controller steps

  /** The in-memory copy says what the store says, up to what a later write may carry along. */
  ghost predicate WalkReady(p: Spec, c: Ctx) {
    && Working(c.store) && Aligned(p, c.store.status.steps)
    && Refreshed(c.store.status, c.mem)
    && Gate(p, Phases(p, c.mem.steps))
  }

  lemma SamePhasesAsStore(p: Spec, c: Ctx)
    requires WalkReady(p, c)
    ensures Aligned(p, c.mem.steps) && Phases(p, c.mem.steps) == Phases(p, c.store.status.steps)
  {}

  lemma GateKept(p: Spec, ph: seq<StepPhase>, i: nat, phase: StepPhase)
    requires i < |ph| && ph[i].Pending? && Gate(p, ph) && !phase.Failed?
    ensures Gate(p, ph[i := phase])
  {
    var ph' := ph[i := phase];
    if j :| 0 <= j < |ph'| && ph'[j].Failed? {
      assert ph[j].Failed?;
      if k :| 0 <= k < |ph| && (ph[k].Running? || ph[k].Suspended?) {
        assert ph'[k] == ph[k];
      }
    }
  }

  lemma HandleSkipReaches(p: Spec, c: Ctx, i: nat)
    requires WalkReady(p, c) && Aligned(p, c.mem.steps) && i < |p.steps|
    requires c.mem.steps[i].phase.Pending? && Decide(p, Phases(p, c.mem.steps), i) == Skip
    ensures Reaches(p, c.store, HandleStep(p, c, i).Final())
    ensures HandleStep(p, c, i).Ok? ==> WalkReady(p, HandleStep(p, c, i).c)
  {
    SamePhasesAsStore(p, c);
    var r, ph := HandleStep(p, c, i), Phases(p, c.mem.steps);
    if r.Ok? {
      assert SkipStep(p, c.store, i, r.Final());
      GateKept(p, ph, i, StepPhase.Skipped);
      assert Phases(p, r.c.mem.steps) == ph[i := StepPhase.Skipped];
    }
    ReachesAtMostOnce(p, c.store, r.Final());
  }

  lemma HandleStartReaches(p: Spec, c: Ctx, i: nat)
    requires WalkReady(p, c) && Aligned(p, c.mem.steps) && i < |p.steps|
    requires c.mem.steps[i].phase.Pending? && Decide(p, Phases(p, c.mem.steps), i) == Start
    ensures Reaches(p, c.store, HandleStep(p, c, i).Final())
    ensures HandleStep(p, c, i).Ok? ==> WalkReady(p, HandleStep(p, c, i).c)
  {
    SamePhasesAsStore(p, c);
    var r, ph := HandleStep(p, c, i), Phases(p, c.mem.steps);
    if r.Ok? {
      assert StartStep(p, c.store, i, r.Final());
      GateKept(p, ph, i, StepPhase.Running);
      assert Phases(p, r.c.mem.steps) == ph[i := StepPhase.Running];
    } else if r.Final() != c.store {
      assert LoseStart(p, c.store, i, r.Final());
    }
    ReachesAtMostOnce(p, c.store, r.Final());
  }

  lemma HandleStepReaches(p: Spec, c: Ctx, i: nat)
    requires WalkReady(p, c) && Aligned(p, c.mem.steps) && i < |p.steps|
    ensures Reaches(p, c.store, HandleStep(p, c, i).Final())
    ensures HandleStep(p, c, i).Ok? ==> WalkReady(p, HandleStep(p, c, i).c)
  {
    var d := Decide(p, Phases(p, c.mem.steps), i);
    if !c.mem.steps[i].phase.Pending? || d == Wait {
      ReachesAtMostOnce(p, c.store, c.store);
    } else if d == Skip {
      HandleSkipReaches(p, c, i);
    } else {
      HandleStartReaches(p, c, i);
    }
  }

  lemma {:induction false} WalkReaches(p: Spec, c: Ctx, i: nat)
    requires WalkReady(p, c) && Aligned(p, c.mem.steps) && i <= |p.steps|
    ensures Reaches(p, c.store, StartFrom(p, c, i).Final())
    decreases |p.steps| - i
  {
    if i == |p.steps| {
      ReachesAtMostOnce(p, c.store, c.store);
    } else {
      HandleStepReaches(p, c, i);
      var r := HandleStep(p, c, i);
      if r.Ok? {
        WalkReaches(p, r.c, i + 1);
        ReachesTransitive(p, c.store, r.c.store, StartFrom(p, c, i).Final());
      }
    }
  }

  /** A verdict that is not final leaves the gate open. */
  lemma UndecidedOpensGate(p: Spec, steps: seq<StepStatus>, before: PipelinePhase)
    requires Aligned(p, steps) && !NextPhase(p, steps, before).Terminal()
    ensures Gate(p, Phases(p, steps))
  {
    var ph := Phases(p, steps);
    if j :| 0 <= j < |ph| && ph[j].Failed? {
      assert steps[j].phase == StepPhase.Failed;
      if Any(steps, StepPhase.Running) {
        var k :| 0 <= k < |steps| && steps[k].phase == StepPhase.Running;
        assert ph[k].Running?;
      } else if Any(steps, StepPhase.Suspended) {
        var k :| 0 <= k < |steps| && steps[k].phase == StepPhase.Suspended;
        assert ph[k].Suspended?;
      } else {
        assert PendingHandler(p, steps);
      }
    }
  }

  lemma ObservationReaches(p: Spec, c: Ctx)
    requires Working(c.store) && c.mem == c.store.status && Aligned(p, c.mem.steps)
    ensures var r := UpdateStepStatuses(c);
            && Reaches(p, c.store, r.Final())
            && (r.Ok? ==>
                && Working(r.c.store) && Aligned(p, r.c.store.status.steps) && Aligned(p, r.c.mem.steps)
                && r.c.mem == r.c.store.status.(steps := r.c.mem.steps)
                && Refreshed(r.c.store.status, r.c.mem))
  {
    var r := UpdateStepStatuses(c);
    assert r.Final() == c.store || ObserveJobs(p, c.store, r.Final());
    ReachesAtMostOnce(p, c.store, r.Final());
  }

  lemma VerdictReaches(p: Spec, c: Ctx, now: int)
    requires Working(c.store) && Aligned(p, c.store.status.steps) && Aligned(p, c.mem.steps)
    requires c.mem == c.store.status.(steps := c.mem.steps) && Refreshed(c.store.status, c.mem)
    ensures var r := UpdatePipelinePhase(p, c, now);
            && Reaches(p, c.store, r.Final())
            && (r.Ok? && !r.c.mem.phase.Terminal() ==> WalkReady(p, r.c))
  {
    var r := UpdatePipelinePhase(p, c, now);
    if r.Final() != c.store {
      assert PassVerdict(p, c.store, r.Final());
    }
    ReachesAtMostOnce(p, c.store, r.Final());
    if r.Ok? && !r.c.mem.phase.Terminal() {
      UndecidedOpensGate(p, c.mem.steps, c.mem.phase);
      assert r.c.mem.steps == c.mem.steps;
    }
  }

  lemma ReconcilePipelineReaches(p: Spec, s: Store, budget: Budget, now: int)
    requires Working(s) && (s.status.steps == [] || Aligned(p, s.status.steps))
    ensures Reaches(p, s, ReconcilePipeline(p, Ctx(s, budget, s.status), now).store)
  {
    var r1 := Initialise(p, Ctx(s, budget, s.status));
    assert r1.Final() == s || Populate(p, s, r1.Final());
    ReachesAtMostOnce(p, s, r1.Final());
    if r1.Ok? {
      var r2 := UpdateStepStatuses(r1.c);
      ObservationReaches(p, r1.c);
      ReachesTransitive(p, s, r1.c.store, r2.Final());
      if r2.Ok? {
        var r3 := UpdatePipelinePhase(p, r2.c, now);
        VerdictReaches(p, r2.c, now);
        ReachesTransitive(p, s, r2.c.store, r3.Final());
        if r3.Ok? && !r3.c.mem.phase.Terminal() {
          WalkReaches(p, r3.c, 0);
          ReachesTransitive(p, s, r3.c.store, StartFrom(p, r3.c, 0).Final());
        }
      }
    }
  }

  lemma {:induction false} DeleteAllReaches(p: Spec, s: Store, names: seq<string>)
    requires s.present && s.deleting && s.finalizer
    requires forall k :: 0 <= k < |names| ==> names[k] in Owned(p, s.jobs)
    requires forall i, j :: 0 <= i < j < |names| ==> names[i] != names[j]
    ensures Reaches(p, s, s.(jobs := DeleteAll(s.jobs, names)))
    ensures Owned(p, DeleteAll(s.jobs, names)) == Owned(p, s.jobs) - set k | 0 <= k < |names| :: names[k]
    decreases |names|
  {
    if names == [] {
      ReachesAtMostOnce(p, s, s);
    } else {
      var s1 := s.(jobs := s.jobs - {names[0]});
      assert CleanUp(p, s, s1);
      ReachesAtMostOnce(p, s, s1);
      assert Owned(p, s1.jobs) == Owned(p, s.jobs) - {names[0]};
      DeleteAllReaches(p, s1, names[1..]);
      ReachesTransitive(p, s, s1, s.(jobs := DeleteAll(s.jobs, names)));
      assert (set k | 0 <= k < |names| :: names[k]) == {names[0]} + set k | 0 <= k < |names[1..]| :: names[1..][k];
    }
  }

  lemma ReconcileDeleteReaches(p: Spec, s: Store, budget: Budget, listed: seq<string>)
    requires s.present && s.deleting && Lists(p, s.jobs, listed)
    ensures Reaches(p, s, ReconcileDelete(p, s, budget, listed).store)
  {
    var t := ReconcileDelete(p, s, budget, listed).store;
    if !s.finalizer || budget.Spent() {
      ReachesAtMostOnce(p, s, s);
    } else if !budget.Spend().Covers(|listed|) {
      DeleteAllReaches(p, s, listed[..budget.Spend().calls]);
    } else {
      DeleteAllReaches(p, s, listed);
      var s1 := s.(jobs := DeleteAll(s.jobs, listed));
      assert Owned(p, s1.jobs) == {};
      ReachesAtMostOnce(p, s1, t);
      ReachesTransitive(p, s, s1, t);
    }
  }

  /** Refinement: whatever call fails, a pass takes the store along controller steps only. */
  lemma ReconcileReaches(p: Spec, s: Store, budget: Budget, listed: seq<string>, now: int)
    requires s.status.steps == [] || Aligned(p, s.status.steps)
    requires Lists(p, s.jobs, listed)
    ensures Reaches(p, s, Reconcile(p, s, budget, listed, now).store)
  {
    var t := Reconcile(p, s, budget, listed, now).store;
    if budget.Spent() || !s.present || (!s.deleting && !s.finalizer && budget.Spend().Spent()) {
      ReachesAtMostOnce(p, s, s);
    } else if s.deleting {
      ReconcileDeleteReaches(p, s, budget.Spend(), listed);
    } else {
      var b := if s.finalizer then budget.Spend() else budget.Spend().Spend();
      var s1 := s.(finalizer := true);
      ReachesAtMostOnce(p, s, s1);
      if s.status.phase.Unset? || s.status.phase.Terminal() {
        ReachesAtMostOnce(p, s1, t);
      } else {
        ReconcilePipelineReaches(p, s1, b, now);
      }
      ReachesTransitive(p, s, s1, t);
    }
  }

  // ---- Executions

  /** What happens next: a pass, with the number of calls that succeed, the answer to its label query and its clock,
      or a step of the cluster. */
  datatype Move = Pass(budget: Budget, listed: seq<string>, now: int) | Cluster

  ghost predicate Moves(p: Spec, s: Store, m: Move, s': Store) {
    match m
    case Pass(budget, listed, now) =>
      && (s.status.steps == [] || Aligned(p, s.status.steps))
      && Lists(p, s.jobs, listed)
      && s' == Reconcile(p, s, budget, listed, now).store
    case Cluster => ClusterStep(p, s, s')
  }

  ghost predicate MovesAt(p: Spec, ss: seq<Store>, ms: seq<Move>, k: int)
    requires |ss| == |ms| + 1
  {
    0 <= k < |ms| ==> Moves(p, ss[k], ms[k], ss[k + 1])
  }

  /** The states between the passes of the controller and the steps of the cluster, from a new pipeline on. */
  ghost predicate Execution(p: Spec, ss: seq<Store>, ms: seq<Move>) {
    UniqueNames(p) && |ss| == |ms| + 1 && Init(p, ss[0]) && forall k :: MovesAt(p, ss, ms, k)
  }

  lemma ControllerPathIsChain(p: Spec, s: Store, tr: seq<Store>, t: Store)
    requires Path(p, s, tr, t)
    ensures Chain(p, tr)
  {
    forall k
      ensures StepAt(p, tr, k)
    {
      assert ControllerStepAt(p, tr, k);
    }
  }

  lemma RunGoesOn(p: Spec, tr: seq<Store>, more: seq<Store>)
    requires Run(p, tr) && Chain(p, more) && Last(tr) == more[0]
    ensures Run(p, tr + more[1..]) && Last(tr + more[1..]) == Last(more)
  {
    var c := tr + more[1..];
    forall k
      ensures StepAt(p, c, k)
    {
      assert StepAt(p, tr, k) && StepAt(p, more, k - |tr| + 1);
    }
  }

  /** Every execution of the code is a run, so what holds in every run holds of the code. */
  lemma {:induction false} ExecutionIsRun(p: Spec, ss: seq<Store>, ms: seq<Move>, n: nat) returns (tr: seq<Store>)
    requires Execution(p, ss, ms) && n <= |ms|
    ensures Run(p, tr) && Last(tr) == ss[n]
  {
    if n == 0 {
      tr := [ss[0]];
    } else {
      tr := ExecutionIsRun(p, ss, ms, n - 1);
      assert MovesAt(p, ss, ms, n - 1);
      var more := MoveIsChain(p, ss[n - 1], ms[n - 1], ss[n]);
      RunGoesOn(p, tr, more);
      tr := tr + more[1..];
    }
  }

  lemma MoveIsChain(p: Spec, s: Store, m: Move, s': Store) returns (tr: seq<Store>)
    requires Moves(p, s, m, s')
    ensures Chain(p, tr) && tr[0] == s && Last(tr) == s'
  {
    match m
    case Pass(budget, listed, now) =>
      ReconcileReaches(p, s, budget, listed, now);
      tr :| Path(p, s, tr, s');
      ControllerPathIsChain(p, s, tr, s');
    case Cluster =>
      tr := [s, s'];
  }
}
