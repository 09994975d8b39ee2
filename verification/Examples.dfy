/** Executions of the code, pass by pass: one that shows the promises can be kept, and the ones that break them. */
module Examples {
  import opened PipelineTypes
  import opened Scheduling
  import opened Passes
  import opened Controller
  import opened Transitions
  import opened Invariants
  import opened RunProperties
  import opened JobCreation
  import opened Fate
  import opened Deadlock
  import opened PassEffect
  import opened Liveness

  // ---- Building executions

  /** The label query can always be answered. */
  lemma {:induction false} Listing(names: set<string>) returns (listed: seq<string>)
    ensures forall name :: name in listed <==> name in names
    ensures forall i, j :: 0 <= i < j < |listed| ==> listed[i] != listed[j]
    decreases |names|
  {
    listed := [];
    if name :| name in names {
      var rest := Listing(names - {name});
      listed := [name] + rest;
    }
  }

  /** No call of any pass fails. */
  ghost predicate NothingFails(ms: seq<Move>) {
    forall k :: 0 <= k < |ms| && ms[k].Pass? ==> ms[k].budget.Unlimited?
  }

  /** The cluster does nothing but let Jobs change: none is lost, none appears, no deletion is requested. */
  ghost predicate Gentle(ss: seq<Store>, ms: seq<Move>) {
    |ss| == |ms| + 1 && forall k :: 0 <= k < |ms| && ms[k].Cluster? ==> JobsChange(ss[k], ss[k + 1])
  }

  lemma GentleGoesOn(ss: seq<Store>, ms: seq<Move>, m: Move, t: Store)
    requires Gentle(ss, ms) && (m.Cluster? ==> JobsChange(Last(ss), t))
    ensures Gentle(ss + [t], ms + [m])
  {}

  lemma GoesOn(p: Spec, ss: seq<Store>, ms: seq<Move>, m: Move, t: Store)
    requires Execution(p, ss, ms) && Moves(p, Last(ss), m, t)
    ensures Execution(p, ss + [t], ms + [m])
  {
    var ss', ms' := ss + [t], ms + [m];
    forall k
      ensures MovesAt(p, ss', ms', k)
    {
      assert MovesAt(p, ss, ms, k);
    }
  }

  lemma ExecutionKeepsCore(p: Spec, ss: seq<Store>, ms: seq<Move>)
    requires Execution(p, ss, ms)
    ensures CoreInv(p, Last(ss))
  {
    var tr := ExecutionIsRun(p, ss, ms, |ms|);
    RunKeepsCore(p, tr, |tr| - 1);
  }

  /** The execution has arrived at a pipeline in progress with these phases and Jobs. */
  ghost predicate At(p: Spec, ss: seq<Store>, ms: seq<Move>, ph: seq<StepPhase>, jobs: map<string, Job>) {
    && Execution(p, ss, ms) && NothingFails(ms)
    && Live(Last(ss)) && PhasesAt(p, Last(ss)) == ph && Last(ss).jobs == jobs
  }

  lemma Begin(p: Spec) returns (s: Store)
    requires UniqueNames(p)
    ensures At(p, [s], [], seq(|p.steps|, i => StepPhase.Pending), map[])
    ensures Init(p, s) && s.jobs == map[] && Gentle([s], [])
  {
    s := Store(true, false, false, Status(PipelinePhase.Pending, None, None, [], map[]), map[]);
    assert Owned(p, s.jobs) == {};
    forall k
      ensures MovesAt(p, [s], [], k)
    {}
  }

  /** The next pass. */
  lemma NextPass(p: Spec, ss: seq<Store>, ms: seq<Move>) returns (m: Move, o: Outcome)
    requires Execution(p, ss, ms) && NothingFails(ms) && Live(Last(ss))
    requires NamesFree(p, PhasesAt(p, Last(ss)), Last(ss).jobs)
    ensures Execution(p, ss + [o.store], ms + [m]) && NothingFails(ms + [m])
    ensures PassResult(p, Last(ss), Seen(p, Last(ss)), o)
    ensures Gentle(ss, ms) ==> Gentle(ss + [o.store], ms + [m])
  {
    var s := Last(ss);
    ExecutionKeepsCore(p, ss, ms);
    var listed := Listing(Owned(p, s.jobs));
    m, o := Pass(Unlimited, listed, 0), Reconcile(p, s, Unlimited, listed, 0);
    PassExact(p, s, listed, 0);
    GoesOn(p, ss, ms, m, o.store);
    if Gentle(ss, ms) {
      GentleGoesOn(ss, ms, m, o.store);
    }
  }

  /** The next pass, when it does not end the pipeline. */
  lemma PassTo(p: Spec, ss: seq<Store>, ms: seq<Move>, ph: seq<StepPhase>, jobs: map<string, Job>, seen: seq<StepPhase>)
    returns (m: Move, t: Store)
    requires |ph| == |p.steps| && At(p, ss, ms, ph, jobs) && NamesFree(p, ph, jobs)
    requires seen == SeenPhases(p, ph, jobs) && !Over(p, seen)
    ensures At(p, ss + [t], ms + [m], WalkPhases(p, seen, 0), WalkJobs(p, seen, jobs, 0))
    ensures Gentle(ss, ms) ==> Gentle(ss + [t], ms + [m])
  {
    var o;
    m, o := NextPass(p, ss, ms);
    t := o.store;
  }

  /** The next step of the cluster; it changes Jobs only. */
  lemma ClusterTo(p: Spec, ss: seq<Store>, ms: seq<Move>, ph: seq<StepPhase>,
                  jobs: map<string, Job>, jobs': map<string, Job>)
    returns (t: Store)
    requires At(p, ss, ms, ph, jobs) && ClusterStep(p, Last(ss), Last(ss).(jobs := jobs'))
    ensures t == Last(ss).(jobs := jobs')
    ensures At(p, ss + [t], ms + [Cluster], ph, jobs')
    ensures Gentle(ss, ms) && JobsChange(Last(ss), t) ==> Gentle(ss + [t], ms + [Cluster])
  {
    t := Last(ss).(jobs := jobs');
    GoesOn(p, ss, ms, Cluster, t);
    if Gentle(ss, ms) && JobsChange(Last(ss), t) {
      GentleGoesOn(ss, ms, Cluster, t);
    }
  }

  // ---- Jobs

  const SUCCEEDED := JobStatus([JobCondition(Complete, True)], 0)
  const FAILED := JobStatus([JobCondition(JobFailed, True)], 0)
  const SUSPENDED := JobStatus([JobCondition(JobSuspended, True)], 0)
  const ACTIVE := JobStatus([], 1)

  lemma JobReads(phase: StepPhase)
    ensures ObservedPhase(SUCCEEDED, phase) == StepPhase.Succeeded
    ensures ObservedPhase(FAILED, phase) == StepPhase.Failed
    ensures ObservedPhase(SUSPENDED, phase) == StepPhase.Suspended
    ensures ObservedPhase(ACTIVE, phase) == StepPhase.Running
    ensures ObservedPhase(NEW_JOB_STATUS, phase) == phase
  {}

  /** A Job that has not finished can come to any of these ends. */
  lemma JobMoves(owner: string, before: JobStatus, after: JobStatus)
    requires before == NEW_JOB_STATUS || before == SUSPENDED
    requires after == SUCCEEDED || after == FAILED || after == SUSPENDED
    ensures Evolves(Job(owner, before), Job(owner, after))
  {
    assert |after.conditions| == 1;
  }

  // ---- Pipelines of two unconditional steps

  ghost predicate Pair(p: Spec) {
    |p.steps| == 2 && UniqueNames(p) && p.steps[0].runIf.None? && p.steps[1].runIf.None?
  }

  /** What a walk does to a pair, whatever the phases. */
  lemma PairWalks(p: Spec, a: StepPhase, b: StepPhase, jobs: map<string, Job>)
    requires Pair(p)
    ensures a.Pending? && b.Pending? ==>
              && WalkPhases(p, [a, b], 0) == [StepPhase.Running, StepPhase.Pending]
              && WalkJobs(p, [a, b], jobs, 0) == jobs[JobName(p, 0) := Job(p.name, NEW_JOB_STATUS)]
    ensures (a.Succeeded? || a.Suspended?) && b.Pending? ==>
              && WalkPhases(p, [a, b], 0) == [a, StepPhase.Running]
              && WalkJobs(p, [a, b], jobs, 0) == jobs[JobName(p, 1) := Job(p.name, NEW_JOB_STATUS)]
    ensures !a.Pending? && !b.Pending? ==> WalkPhases(p, [a, b], 0) == [a, b] && WalkJobs(p, [a, b], jobs, 0) == jobs
  {
    var ph := [a, b];
    var ph1 := Handled(p, ph, 0);
    PairUnrolls(p, ph, jobs);
    SequentialRule(p, ph, 0);
    SequentialRule(p, ph1, 1);
    if a.Pending? {
      assert Decide(p, ph, 0) == Start && ph1 == [StepPhase.Running, b] && ph1[0].Waiting();
      assert Decide(p, ph1, 1) == Wait;
    } else {
      assert ph1 == ph && !StartsNow(p, ph, 0);
      if a.Succeeded? || a.Suspended? {
        assert forall j :: 0 <= j < 1 ==> ph[j] == a;
        assert Decide(p, ph, 1) == Start;
      }
    }
  }

  lemma PairUnrolls(p: Spec, ph: seq<StepPhase>, jobs: map<string, Job>)
    requires Pair(p) && |ph| == 2
    ensures WalkPhases(p, ph, 0) == Handled(p, Handled(p, ph, 0), 1)
    ensures WalkJobs(p, ph, jobs, 0) == WithJob(p, Handled(p, ph, 0), WithJob(p, ph, jobs, 0), 1)
  {
    var ph1 := Handled(p, ph, 0);
    var jobs1 := WithJob(p, ph, jobs, 0);
    assert WalkPhases(p, ph, 0) == WalkPhases(p, ph1, 1);
    assert WalkPhases(p, ph1, 1) == WalkPhases(p, Handled(p, ph1, 1), 2);
    assert WalkJobs(p, ph, jobs, 0) == WalkJobs(p, ph1, jobs1, 1);
    assert WalkJobs(p, ph1, jobs1, 1) == WalkJobs(p, Handled(p, ph1, 1), WithJob(p, ph1, jobs1, 1), 2);
  }

  lemma PairSees(p: Spec, a: StepPhase, b: StepPhase, jobs: map<string, Job>)
    requires Pair(p)
    ensures var see := (phase: StepPhase, name: string) =>
                    if phase.Started() && name in jobs then ObservedPhase(jobs[name].status, phase) else phase;
            SeenPhases(p, [a, b], jobs) == [see(a, JobName(p, 0)), see(b, JobName(p, 1))]
  {}

  /** Both examples begin like this: the first step runs, and then its Job comes to some end. */
  lemma FirstJobEnds(p: Spec, end: JobStatus) returns (ss: seq<Store>, ms: seq<Move>)
    requires Pair(p) && (end == SUCCEEDED || end == SUSPENDED)
    ensures At(p, ss, ms, [StepPhase.Running, StepPhase.Pending], map[JobName(p, 0) := Job(p.name, end)])
    ensures Gentle(ss, ms)
  {
    var s0 := Begin(p);
    var fresh0 := [StepPhase.Pending, StepPhase.Pending];
    assert seq(|p.steps|, i => StepPhase.Pending) == fresh0;
    PairSees(p, StepPhase.Pending, StepPhase.Pending, map[]);
    PairWalks(p, StepPhase.Pending, StepPhase.Pending, map[]);
    assert fresh0[0].Pending?;
    var m, s1 := PassTo(p, [s0], [], fresh0, map[], fresh0);
    ss, ms := [s0] + [s1], [] + [m];
    JobMoves(p.name, NEW_JOB_STATUS, end);
    var jobs := map[JobName(p, 0) := Job(p.name, NEW_JOB_STATUS)];
    var jobs' := map[JobName(p, 0) := Job(p.name, end)];
    assert s1.jobs == jobs;
    assert JobsChange(s1, s1.(jobs := jobs'));
    var s2 := ClusterTo(p, ss, ms, [StepPhase.Running, StepPhase.Pending], jobs, jobs');
    ss, ms := ss + [s2], ms + [Cluster];
  }

  // ---- A suspended Job leaves the gate open

  /** The gate's Job is suspended, so the second step is started. */
  lemma GateOpens(p: Spec) returns (ss: seq<Store>, ms: seq<Move>, jobs: map<string, Job>)
    requires Pair(p)
    ensures jobs == map[JobName(p, 0) := Job(p.name, SUSPENDED), JobName(p, 1) := Job(p.name, NEW_JOB_STATUS)]
    ensures At(p, ss, ms, [StepPhase.Suspended, StepPhase.Running], jobs) && Gentle(ss, ms)
  {
    ss, ms := FirstJobEnds(p, SUSPENDED);
    JobNameInjective(p, 0, 1);
    var ph := [StepPhase.Running, StepPhase.Pending];
    var held := map[JobName(p, 0) := Job(p.name, SUSPENDED)];
    var seen := [StepPhase.Suspended, StepPhase.Pending];
    JobReads(StepPhase.Running);
    PairSees(p, ph[0], ph[1], held);
    PairWalks(p, seen[0], seen[1], held);
    assert seen[0].Suspended?;
    var m, t := PassTo(p, ss, ms, ph, held, seen);
    ss, ms := ss + [t], ms + [m];
    jobs := held[JobName(p, 1) := Job(p.name, NEW_JOB_STATUS)];
  }

  /** And then the gate fails. */
  lemma GateFails(p: Spec) returns (ss: seq<Store>, ms: seq<Move>, jobs: map<string, Job>)
    requires Pair(p)
    ensures jobs == map[JobName(p, 0) := Job(p.name, FAILED), JobName(p, 1) := Job(p.name, NEW_JOB_STATUS)]
    ensures At(p, ss, ms, [StepPhase.Suspended, StepPhase.Running], jobs) && Gentle(ss, ms)
  {
    var both;
    ss, ms, both := GateOpens(p);
    JobNameInjective(p, 0, 1);
    jobs := map[JobName(p, 0) := Job(p.name, FAILED), JobName(p, 1) := Job(p.name, NEW_JOB_STATUS)];
    JobMoves(p.name, SUSPENDED, FAILED);
    assert both.Keys == jobs.Keys;
    assert JobsChange(Last(ss), Last(ss).(jobs := jobs));
    var u := ClusterTo(p, ss, ms, [StepPhase.Suspended, StepPhase.Running], both, jobs);
    ss, ms := ss + [u], ms + [Cluster];
  }

  /** The next pass sees the failure while the second step runs. */
  lemma GateFailureSeen(p: Spec) returns (ss: seq<Store>, ms: seq<Move>)
    requires Pair(p)
    ensures At(p, ss, ms, [StepPhase.Failed, StepPhase.Running],
               map[JobName(p, 0) := Job(p.name, FAILED), JobName(p, 1) := Job(p.name, NEW_JOB_STATUS)])
    ensures Gentle(ss, ms)
  {
    var jobs;
    ss, ms, jobs := GateFails(p);
    JobNameInjective(p, 0, 1);
    var seen := [StepPhase.Failed, StepPhase.Running];
    JobReads(StepPhase.Suspended);
    JobReads(StepPhase.Running);
    PairSees(p, StepPhase.Suspended, StepPhase.Running, jobs);
    PairWalks(p, seen[0], seen[1], jobs);
    assert seen[1].Running?;
    var m, t := PassTo(p, ss, ms, [StepPhase.Suspended, StepPhase.Running], jobs, seen);
    ss, ms := ss + [t], ms + [m];
  }

  lemma ApproveDeploy() returns (p: Spec)
    ensures p == Spec("p", [Step("approve", None), Step("deploy", None)]) && Pair(p)
  {
    p := Spec("p", [Step("approve", None), Step("deploy", None)]);
  }

  /** Without the guard decisions do not stay justified: no call fails, the cluster only lets Jobs change, and a step
      runs behind a failed one. */
  lemma SuspensionBreaksJustification() returns (p: Spec, ss: seq<Store>, ms: seq<Move>)
    ensures p == Spec("p", [Step("approve", None), Step("deploy", None)])
    ensures Execution(p, ss, ms) && NothingFails(ms) && Gentle(ss, ms)
    ensures PhasesAt(p, Last(ss)) == [StepPhase.Failed, StepPhase.Running] && !Justified(p, PhasesAt(p, Last(ss)))
  {
    p := ApproveDeploy();
    ss, ms := GateFailureSeen(p);
    var ph := PhasesAt(p, Last(ss));
    SequentialRule(p, ph, 1);
    assert ph[0].Failed? && ph[1].Started();
  }

  /** Then the second step succeeds. */
  lemma SecondSucceeds(p: Spec) returns (ss: seq<Store>, ms: seq<Move>, jobs: map<string, Job>)
    requires Pair(p)
    ensures jobs == map[JobName(p, 0) := Job(p.name, FAILED), JobName(p, 1) := Job(p.name, SUCCEEDED)]
    ensures At(p, ss, ms, [StepPhase.Failed, StepPhase.Running], jobs) && Gentle(ss, ms)
  {
    ss, ms := GateFailureSeen(p);
    JobNameInjective(p, 0, 1);
    var before := map[JobName(p, 0) := Job(p.name, FAILED), JobName(p, 1) := Job(p.name, NEW_JOB_STATUS)];
    jobs := map[JobName(p, 0) := Job(p.name, FAILED), JobName(p, 1) := Job(p.name, SUCCEEDED)];
    JobMoves(p.name, NEW_JOB_STATUS, SUCCEEDED);
    assert before.Keys == jobs.Keys;
    assert JobsChange(Last(ss), Last(ss).(jobs := jobs));
    var t := ClusterTo(p, ss, ms, [StepPhase.Failed, StepPhase.Running], before, jobs);
    ss, ms := ss + [t], ms + [Cluster];
  }

  lemma FailedThenSucceededIsSeen(p: Spec, jobs: map<string, Job>)
    requires Pair(p)
    requires jobs == map[JobName(p, 0) := Job(p.name, FAILED), JobName(p, 1) := Job(p.name, SUCCEEDED)]
    ensures var out := [StepPhase.Failed, StepPhase.Succeeded];
            SeenPhases(p, [StepPhase.Failed, StepPhase.Running], jobs) == out && Over(p, out) && out[0].Failed?
  {
    JobNameInjective(p, 0, 1);
    JobReads(StepPhase.Failed);
    JobReads(StepPhase.Running);
    PairSees(p, StepPhase.Failed, StepPhase.Running, jobs);
  }

  /** Nor does the result follow from the outcomes alone: the second step ends Succeeded although its fate is to be
      skipped. */
  lemma SuspensionBreaksFate() returns (p: Spec, out: seq<StepPhase>, ss: seq<Store>, ms: seq<Move>)
    ensures p == Spec("p", [Step("approve", None), Step("deploy", None)])
    ensures out == [StepPhase.Failed, StepPhase.Succeeded]
    ensures Execution(p, ss, ms) && NothingFails(ms) && Gentle(ss, ms)
    ensures Outcomes(p, out) && Delivers(p, Last(ss), out)
    ensures Last(ss).status.phase.Failed? && PhasesAt(p, Last(ss)) == out && FateOf(p, out)[1].Skipped?
  {
    p := ApproveDeploy();
    out := [StepPhase.Failed, StepPhase.Succeeded];
    var jobs;
    ss, ms, jobs := SecondSucceeds(p);
    FailedThenSucceededIsSeen(p, jobs);
    var m, o := NextPass(p, ss, ms);
    ss, ms := ss + [o.store], ms + [m];
    FateSkipsSecond(p, out);
    OutcomesDelivered(p, o.store, out);
  }

  lemma OutcomesDelivered(p: Spec, s: Store, out: seq<StepPhase>)
    requires Pair(p) && out == [StepPhase.Failed, StepPhase.Succeeded]
    requires s.jobs == map[JobName(p, 0) := Job(p.name, FAILED), JobName(p, 1) := Job(p.name, SUCCEEDED)]
    ensures Outcomes(p, out) && Delivers(p, s, out)
  {
    JobNameInjective(p, 0, 1);
  }

  lemma FateSkipsSecond(p: Spec, out: seq<StepPhase>)
    requires Pair(p) && out == [StepPhase.Failed, StepPhase.Succeeded]
    ensures Outcomes(p, out) && FateOf(p, out)[1].Skipped?
  {
    assert Outcomes(p, out);
    FateIsFixed(p, out);
    var fate := FateOf(p, out);
    SequentialRule(p, fate, 0);
    SequentialRule(p, fate, 1);
    assert Round(p, out, fate)[0] == out[0];
    assert Round(p, out, fate)[1] == fate[1];
  }

  // ---- A replaced Job reopens a finished step

  /** The first step has been seen to succeed, and the second runs. */
  lemma FirstSucceeds(p: Spec) returns (ss: seq<Store>, ms: seq<Move>, jobs: map<string, Job>)
    requires Pair(p)
    ensures jobs == map[JobName(p, 0) := Job(p.name, SUCCEEDED), JobName(p, 1) := Job(p.name, NEW_JOB_STATUS)]
    ensures At(p, ss, ms, [StepPhase.Succeeded, StepPhase.Running], jobs)
  {
    ss, ms := FirstJobEnds(p, SUCCEEDED);
    JobNameInjective(p, 0, 1);
    var done := map[JobName(p, 0) := Job(p.name, SUCCEEDED)];
    var seen := [StepPhase.Succeeded, StepPhase.Pending];
    JobReads(StepPhase.Running);
    PairSees(p, StepPhase.Running, StepPhase.Pending, done);
    PairWalks(p, seen[0], seen[1], done);
    assert seen[1].Pending? && !seen[0].Failed?;
    var m, t := PassTo(p, ss, ms, [StepPhase.Running, StepPhase.Pending], done, seen);
    ss, ms := ss + [t], ms + [m];
    jobs := done[JobName(p, 1) := Job(p.name, NEW_JOB_STATUS)];
  }

  /** Then its Job is removed, and another Job takes its name. */
  lemma JobReplaced(p: Spec, owner: string) returns (ss: seq<Store>, ms: seq<Move>, k: nat, jobs: map<string, Job>)
    requires Pair(p) && owner != p.name
    ensures jobs == map[JobName(p, 1) := Job(p.name, NEW_JOB_STATUS), JobName(p, 0) := Job(owner, ACTIVE)]
    ensures At(p, ss, ms, [StepPhase.Succeeded, StepPhase.Running], jobs) && k < |ss|
    ensures PhasesAt(p, ss[k]) == [StepPhase.Succeeded, StepPhase.Running]
  {
    var both;
    ss, ms, both := FirstSucceeds(p);
    JobNameInjective(p, 0, 1);
    k := |ss| - 1;
    var t := Last(ss);
    var one := map[JobName(p, 1) := Job(p.name, NEW_JOB_STATUS)];
    jobs := one[JobName(p, 0) := Job(owner, ACTIVE)];
    var ph := [StepPhase.Succeeded, StepPhase.Running];
    assert both - {JobName(p, 0)} == one;
    assert JobVanishes(t, t.(jobs := one));
    var u := ClusterTo(p, ss, ms, ph, both, one);
    ss, ms := ss + [u], ms + [Cluster];
    assert JobAppears(p, u, u.(jobs := jobs));
    var v := ClusterTo(p, ss, ms, ph, one, jobs);
    ss, ms := ss + [v], ms + [Cluster];
  }

  /** Without that guard the lifecycle is not one-way: when a finished step's Job has been removed and a step of another
      pipeline takes its name, the next pass turns the step from Succeeded back to Running. No call fails. */
  lemma ReplacementReopensStep() returns (p: Spec, q: Spec, ss: seq<Store>, ms: seq<Move>, k: nat)
    ensures p == Spec("a", [Step("b-c", None), Step("d", None)]) && q == Spec("a-b", [Step("c", None)])
    ensures Execution(p, ss, ms) && NothingFails(ms) && k < |ss|
    ensures JobName(q, 0) in Last(ss).jobs && Last(ss).jobs[JobName(q, 0)].owner == q.name
    ensures PhasesAt(p, ss[k])[0].Succeeded? && PhasesAt(p, Last(ss))[0].Running?
  {
    p, q := Spec("a", [Step("b-c", None), Step("d", None)]), Spec("a-b", [Step("c", None)]);
    CollisionExact("a", "b-c", "a-b", "c");
    assert JobName(p, 0) == JobName(q, 0);
    var jobs;
    ss, ms, k, jobs := JobReplaced(p, q.name);
    JobNameInjective(p, 0, 1);
    var seen := [StepPhase.Running, StepPhase.Running];
    JobReads(StepPhase.Succeeded);
    JobReads(StepPhase.Running);
    PairSees(p, StepPhase.Succeeded, StepPhase.Running, jobs);
    PairWalks(p, seen[0], seen[1], jobs);
    assert seen[0].Running?;
    var m, t := PassTo(p, ss, ms, [StepPhase.Succeeded, StepPhase.Running], jobs, seen);
    assert (ss + [t])[k] == ss[k];
    ss, ms := ss + [t], ms + [m];
  }

  // ---- A lost start is repeated

  ghost predicate Single(p: Spec) {
    |p.steps| == 1 && p.steps[0].runIf.None?
  }

  /** The walk creates the Job and has no call left for the status write. */
  lemma StartIsLost(p: Spec, c: Ctx)
    requires Single(p) && c.mem.steps == FreshSteps(p) && c.budget == Limited(1) && c.store.jobs == map[]
    ensures StartFrom(p, c, 0) == Err(c.store.(jobs := map[JobName(p, 0) := Job(p.name, NEW_JOB_STATUS)]))
  {
    SequentialRule(p, Phases(p, c.mem.steps), 0);
    assert HandleStep(p, c, 0).Err?;
  }

  lemma SingleObserves(p: Spec, c: Ctx)
    requires Single(p) && c.mem.steps == FreshSteps(p)
    ensures UpdateStepStatuses(c) == Ok(c)
  {
    assert Observe(c.mem.steps, c.store.jobs) == c.mem.steps;
    assert Tracked(c.mem.steps) == 0;
  }

  lemma SinglePassLosesStart(p: Spec, c: Ctx, now: int)
    requires Single(p) && c.mem.steps == FreshSteps(p) && c.mem.phase.Pending?
    requires c.budget == Limited(1) && c.store.jobs == map[]
    ensures ReconcilePipeline(p, c, now).store == c.store.(jobs := map[JobName(p, 0) := Job(p.name, NEW_JOB_STATUS)])
  {
    SingleObserves(p, c);
    assert c.mem.steps[0].phase.Pending?;
    assert NextPhase(p, c.mem.steps, c.mem.phase) == PipelinePhase.Pending;
    StartIsLost(p, UpdatePipelinePhase(p, c, now).c);
  }

  /** A first pass of four calls and a later one of two both end right after the create. */
  lemma SinglePassesLoseStart(p: Spec, s0: Store, s1: Store, s2: Store)
    requires Single(p) && Init(p, s0) && Live(s0) && s0.jobs == map[]
    requires s1 == s0.(finalizer := true, status := s0.status.(steps := FreshSteps(p)))
    requires s2 == s1.(jobs := map[JobName(p, 0) := Job(p.name, NEW_JOB_STATUS)])
    ensures Moves(p, s0, Pass(Limited(4), [], 0), s2) && Moves(p, s1, Pass(Limited(2), [], 0), s2)
  {
    assert Owned(p, s0.jobs) == {} && Lists(p, s0.jobs, []) && Lists(p, s1.jobs, []);
    SinglePassLosesStart(p, Ctx(s1, Limited(1), s1.status), 0);
    SingleInitialises(p, s0.(finalizer := true), 0);
    assert Reconcile(p, s1, Limited(2), [], 0) == ReconcilePipeline(p, Ctx(s1, Limited(1), s1.status), 0);
  }

  lemma SingleInitialises(p: Spec, s: Store, now: int)
    requires Single(p) && s.status.steps == []
    ensures var s' := s.(status := s.status.(steps := FreshSteps(p)));
            ReconcilePipeline(p, Ctx(s, Limited(2), s.status), now) ==
            ReconcilePipeline(p, Ctx(s', Limited(1), s'.status), now)
  {}

  /** Steps run at most once only while Jobs stay: a Job is created, the write that records it fails, the Job is
      removed, and the next pass creates it again. */
  lemma CreatedTwice() returns (p: Spec, ss: seq<Store>, ms: seq<Move>)
    ensures p == Spec("p", [Step("a", None)]) && Execution(p, ss, ms) && |ms| == 3
    ensures ms[0].Pass? && ms[1].Cluster? && ms[2].Pass? && JobVanishes(ss[1], ss[2])
    ensures Creations(p, ss, 0) == 2
  {
    p := Spec("p", [Step("a", None)]);
    var s0 := Begin(p);
    var s1 := s0.(finalizer := true, status := s0.status.(steps := FreshSteps(p)));
    var s2 := s1.(jobs := map[JobName(p, 0) := Job("p", NEW_JOB_STATUS)]);
    var first, second := Pass(Limited(4), [], 0), Pass(Limited(2), [], 0);
    SinglePassesLoseStart(p, s0, s1, s2);
    assert s1.jobs == s2.jobs - {JobName(p, 0)};
    assert JobVanishes(s2, s1);
    assert Moves(p, s1, second, s2);
    GoesOn(p, [s0], [], first, s2);
    GoesOn(p, [s0] + [s2], [] + [first], Cluster, s1);
    GoesOn(p, [s0] + [s2] + [s1], [] + [first] + [Cluster], second, s2);
    ss, ms := [s0] + [s2] + [s1] + [s2], [] + [first] + [Cluster] + [second];
    CountTwo(p, s0, s1, s2);
  }

  lemma CountTwo(p: Spec, s0: Store, s1: Store, s2: Store)
    requires |p.steps| > 0 && !HasJob(p, s0, 0) && !HasJob(p, s1, 0) && HasJob(p, s2, 0)
    ensures Creations(p, [s0] + [s2] + [s1] + [s2], 0) == 2
  {
    var a, b, c := [s0] + [s2] + [s1] + [s2], [s0] + [s2] + [s1], [s0] + [s2];
    assert a[..3] == b && b[..2] == c && c[..1] == [s0];
    assert Creations(p, c, 0) == 1;
    assert Creations(p, b, 0) == 1;
  }

  // ---- A Job is lost before it is seen to finish

  ghost predicate KeptAt(ss: seq<Store>, ms: seq<Move>, k: int)
    requires |ss| == |ms| + 1
  {
    0 <= k < |ms| && ms[k].Cluster? ==> Unreplaced(ss[k], ss[k + 1])
  }

  lemma MoveContinues(p: Spec, s: Store, m: Move, t: Store)
    requires CoreInv(p, s) && Moves(p, s, m, t) && (m.Cluster? ==> Unreplaced(s, t))
    ensures Continues(p, s, t)
  {
    match m
    case Pass(budget, listed, now) => PassContinues(p, s, budget, listed, now);
    case Cluster => ContinuesAtMostOnce(p, s, t);
  }

  /** An execution in which the cluster replaces no Job stays among the reachable states. */
  lemma {:induction false} ExecutionReaches(p: Spec, ss: seq<Store>, ms: seq<Move>, n: nat)
    requires Execution(p, ss, ms) && n <= |ms| && forall k :: KeptAt(ss, ms, k)
    ensures Reachable(p, ss[n])
  {
    if n == 0 {
      InitIsReachable(p, ss[0]);
    } else {
      ExecutionReaches(p, ss, ms, n - 1);
      ReachableInv(p, ss[n - 1]);
      assert MovesAt(p, ss, ms, n - 1) && KeptAt(ss, ms, n - 1);
      MoveContinues(p, ss[n - 1], ms[n - 1], ss[n]);
      ReachableContinues(p, ss[n - 1], ss[n]);
    }
  }

  lemma SingleWalks(p: Spec, ph: seq<StepPhase>, jobs: map<string, Job>)
    requires Single(p) && ph == [StepPhase.Pending]
    ensures WalkPhases(p, ph, 0) == [StepPhase.Running]
    ensures WalkJobs(p, ph, jobs, 0) == jobs[JobName(p, 0) := Job(p.name, NEW_JOB_STATUS)]
  {
    SequentialRule(p, ph, 0);
    assert StartsNow(p, ph, 0) && WalkPhases(p, ph, 0) == Handled(p, ph, 0);
    assert WalkJobs(p, ph, jobs, 0) == WalkJobs(p, Handled(p, ph, 0), WithJob(p, ph, jobs, 0), 1);
  }

  lemma SingleRunning(p: Spec) returns (s0: Store, m: Move, s1: Store)
    requires Single(p) && UniqueNames(p)
    ensures At(p, [s0] + [s1], [m], [StepPhase.Running], map[JobName(p, 0) := Job(p.name, NEW_JOB_STATUS)]) && m.Pass?
  {
    var ph := [StepPhase.Pending];
    s0 := Begin(p);
    assert seq(|p.steps|, i => StepPhase.Pending) == ph;
    assert SeenPhases(p, ph, map[]) == ph && ph[0].Pending?;
    SingleWalks(p, ph, map[]);
    m, s1 := PassTo(p, [s0], [], ph, map[], ph);
    assert [] + [m] == [m];
  }

  /** "Delete immediately after completion": the Job succeeds and is deleted before the next pass. From then on the
      step is Running and the pipeline never ends, whatever follows. */
  lemma DeletedJobHangs() returns (p: Spec, ss: seq<Store>, ms: seq<Move>)
    ensures p == Spec("p", [Step("a", None)]) && Execution(p, ss, ms) && NothingFails(ms) && |ms| == 3
    ensures ss[2].jobs == map[JobName(p, 0) := Job(p.name, SUCCEEDED)] && JobVanishes(ss[2], ss[3])
    ensures PhasesAt(p, ss[3])[0].Running?
    ensures forall t :: Continues(p, ss[3], t) ==> PhasesAt(p, t)[0].Running? && !t.status.phase.Terminal()
  {
    p := Spec("p", [Step("a", None)]);
    var s0, m, s1 := SingleRunning(p);
    var jobs := map[JobName(p, 0) := Job(p.name, NEW_JOB_STATUS)];
    var done := map[JobName(p, 0) := Job(p.name, SUCCEEDED)];
    JobMoves(p.name, NEW_JOB_STATUS, SUCCEEDED);
    assert JobsChange(s1, s1.(jobs := done));
    var s2 := ClusterTo(p, [s0] + [s1], [m], [StepPhase.Running], jobs, done);
    assert done - {JobName(p, 0)} == map[];
    assert JobVanishes(s2, s2.(jobs := map[]));
    var s3 := ClusterTo(p, [s0] + [s1] + [s2], [m] + [Cluster], [StepPhase.Running], done, map[]);
    ss, ms := [s0] + [s1] + [s2] + [s3], [m] + [Cluster] + [Cluster];
    forall k
      ensures KeptAt(ss, ms, k)
    {
      assert k <= 0 || k == 1 || k == 2 || k > 2;
    }
    ExecutionReaches(p, ss, ms, 3);
    forall t | Continues(p, s3, t)
      ensures PhasesAt(p, t)[0].Running? && !t.status.phase.Terminal()
    {
      LostForever(p, s3, t, 0);
    }
  }

  // ---- An eager run

  lemma SingleIsSound(p: Spec)
    requires Single(p)
    ensures Sound(p)
  {
    forall s: set<nat> | Stuck(p, s)
      ensures s == {}
    {
      StuckMembers(p, s);
      assert WaitsWithin(p, s, 0);
    }
    StuckExact(p);
  }

  lemma SingleStarts(p: Spec, s: Store) returns (listed: seq<string>)
    requires Single(p) && UniqueNames(p) && Init(p, s) && Live(s) && s.jobs == map[]
    ensures Lists(p, s.jobs, listed)
    ensures var t := Reconcile(p, s, Unlimited, listed, 0).store;
            && t == s.(finalizer := true, jobs := t.jobs, status := t.status) && Live(t)
            && PhasesAt(p, t) == [StepPhase.Running] && t.jobs == map[JobName(p, 0) := Job(p.name, NEW_JOB_STATUS)]
  {
    listed := [];
    assert Owned(p, s.jobs) == {};
    PassExact(p, s, listed, 0);
    var ph := [StepPhase.Pending];
    assert Seen(p, s) == ph && ph[0].Pending?;
    SequentialRule(p, ph, 0);
    assert WalkPhases(p, ph, 0) == Handled(p, ph, 0) == [StepPhase.Running];
  }

  lemma SingleEnds(p: Spec, s: Store) returns (listed: seq<string>)
    requires Single(p) && UniqueNames(p) && StoreInv(p, s) && Live(s)
    requires PhasesAt(p, s) == [StepPhase.Running] && s.jobs == map[JobName(p, 0) := Job(p.name, SUCCEEDED)]
    ensures Lists(p, s.jobs, listed)
    ensures Reconcile(p, s, Unlimited, listed, 0).store.status.phase.Succeeded?
  {
    listed := [JobName(p, 0)];
    assert Owned(p, s.jobs) == {JobName(p, 0)};
    PassExact(p, s, listed, 0);
    SingleSeesSuccess(p, s);
  }

  lemma SingleSeesSuccess(p: Spec, s: Store)
    requires Single(p) && PhasesAt(p, s) == [StepPhase.Running]
    requires s.jobs == map[JobName(p, 0) := Job(p.name, SUCCEEDED)]
    ensures Seen(p, s) == [StepPhase.Succeeded] && Over(p, Seen(p, s))
    ensures forall i :: 0 <= i < 1 ==> !Seen(p, s)[i].Failed?
  {
    JobReads(StepPhase.Running);
    assert Seen(p, s) == [StepPhase.Succeeded];
  }

  lemma InitIsReachable(p: Spec, s: Store)
    requires UniqueNames(p) && Init(p, s)
    ensures Reachable(p, s)
  {
    assert LastingRun(p, [s]) && Last([s]) == s;
  }

  lemma SingleRuns(p: Spec, s0: Store) returns (s1: Store)
    requires Single(p) && UniqueNames(p) && Init(p, s0) && Live(s0) && s0.jobs == map[]
    ensures PassThenJobs(p, s0, s1) && Live(s1)
    ensures PhasesAt(p, s1) == [StepPhase.Running] && s1.jobs == map[JobName(p, 0) := Job(p.name, SUCCEEDED)]
  {
    var listed := SingleStarts(p, s0);
    var t := Reconcile(p, s0, Unlimited, listed, 0).store;
    s1 := t.(jobs := map[JobName(p, 0) := Job(p.name, SUCCEEDED)]);
    JobMoves(p.name, NEW_JOB_STATUS, SUCCEEDED);
    assert JobsChange(t, s1);
  }

  lemma EagerFirst(p: Spec, s0: Store) returns (s1: Store)
    requires Single(p) && UniqueNames(p) && Init(p, s0) && Live(s0) && s0.jobs == map[]
    ensures Reachable(p, s0) && AllFinished(p, s0) && PassThenJobs(p, s0, s1) && AllFinished(p, s1)
    ensures Live(s1) && StoreInv(p, s1)
    ensures PhasesAt(p, s1) == [StepPhase.Running] && s1.jobs == map[JobName(p, 0) := Job(p.name, SUCCEEDED)]
  {
    InitIsReachable(p, s0);
    s1 := SingleRuns(p, s0);
    ReachableInv(p, s0);
    PassThenJobsContinues(p, s0, s1);
    ContinuesKeepsInv(p, s0, s1);
  }

  /** What the bounds on passes assume can happen: one step, started by the first pass, seen to have succeeded by the
      second. */
  lemma EagerRunExample() returns (p: Spec, ss: seq<Store>)
    ensures |p.steps| == 1 && Sound(p) && EagerRun(p, ss) && |ss| == 3
    ensures Last(ss).status.phase.Succeeded?
  {
    p := Spec("p", [Step("a", None)]);
    SingleIsSound(p);
    var s0 := Begin(p);
    var s1 := EagerFirst(p, s0);
    var listed := SingleEnds(p, s1);
    var s2 := Reconcile(p, s1, Unlimited, listed, 0).store;
    assert JobsChange(s2, s2);
    ss := [s0, s1, s2];
    forall k
      ensures PassAt(p, ss, k) && FinishedAt(p, ss, k)
    {
      assert k <= 0 || k == 1 || k == 2 || k > 2;
    }
  }
}
