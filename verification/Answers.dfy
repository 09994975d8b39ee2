/** What the operations of a pass answer, case by case, on the resource's own fields and constructors. */
module Answers {
  import opened PipelineTypes
  import opened Scheduling
  import opened Passes
  import opened Controller
  import opened Transitions
  import opened Invariants
  import opened RunProperties
  import opened PassEffect

  // ---- Names

  /** A Job is named after its pipeline and its step. */
  lemma JobNameExample()
    ensures JobName(Spec("release", [Step("build", None), Step("publish", None)]), 1) == "release-publish"
  {}

  // ---- What a Job shows

  /** The first True condition of type Complete, Failed or Suspended decides, wherever others stand in the list. */
  lemma {:induction false} FirstDecides(conditions: seq<JobCondition>, k: nat)
    requires k < |conditions| && conditions[k].status == True && conditions[k].kind != OtherType
    requires forall j :: 0 <= j < k ==> conditions[j].status != True || conditions[j].kind == OtherType
    ensures FirstTrue(conditions) ==
            Some(match conditions[k].kind
                 case Complete => StepPhase.Succeeded
                 case JobFailed => StepPhase.Failed
                 case _ => StepPhase.Suspended)
  {
    if k > 0 {
      assert conditions[1..][k - 1] == conditions[k];
      FirstDecides(conditions[1..], k - 1);
    }
  }

  /** What an observation reads off a Job: that condition's phase, without one Running while a pod is active, and
      otherwise nothing new. */
  lemma ObservedPhaseRule(job: JobStatus, current: StepPhase, k: nat)
    requires k <= |job.conditions|
    requires forall j :: 0 <= j < k ==> job.conditions[j].status != True || job.conditions[j].kind == OtherType
    requires k < |job.conditions| ==> job.conditions[k].status == True && job.conditions[k].kind != OtherType
    ensures ObservedPhase(job, current) ==
            if k < |job.conditions| then
              match job.conditions[k].kind
              case Complete => StepPhase.Succeeded
              case JobFailed => StepPhase.Failed
              case _ => StepPhase.Suspended
            else if job.active > 0 then StepPhase.Running
            else current
  {
    if k < |job.conditions| {
      FirstDecides(job.conditions, k);
    } else {
      FirstTrueHolds(job.conditions);
    }
  }

  /** An entry without a Job name, or whose Job is gone, stays as it is; otherwise the Job's status is recorded, and
      name and Job name stay. */
  lemma ObservedEntry(st: StepStatus, jobs: map<string, Job>)
    ensures st.jobName == "" || st.jobName !in jobs ==> ObserveStep(st, jobs) == st
    ensures st.jobName != "" && st.jobName in jobs ==>
            ObserveStep(st, jobs) == StepStatus(st.name, ObservedPhase(jobs[st.jobName].status, st.phase),
                                                st.jobName, Some(jobs[st.jobName].status))
  {}

  // ---- The verdict

  /** The six situations of a pipeline, and what is reported in each. In the fifth, between two steps, nothing new. */
  lemma VerdictTable(p: Spec, steps: seq<StepStatus>, before: PipelinePhase)
    requires Aligned(p, steps)
    ensures (exists i :: 0 <= i < |steps| && steps[i].phase == StepPhase.Running) ==>
            NextPhase(p, steps, before) == PipelinePhase.Running
    ensures (forall i :: 0 <= i < |steps| ==> steps[i].phase != StepPhase.Running) &&
            (exists i :: 0 <= i < |steps| && steps[i].phase == StepPhase.Suspended) ==>
            NextPhase(p, steps, before) == PipelinePhase.Suspended
    ensures (forall i :: 0 <= i < |steps| ==>
               steps[i].phase != StepPhase.Running && steps[i].phase != StepPhase.Suspended) &&
            (exists i :: 0 <= i < |steps| && steps[i].phase == StepPhase.Failed) ==>
            NextPhase(p, steps, before) ==
            if exists i :: 0 <= i < |steps| && steps[i].phase == StepPhase.Pending &&
                 p.steps[i].runIf.Some? && p.steps[i].runIf.value.condition == OnFail
            then PipelinePhase.Running
            else PipelinePhase.Failed
    ensures (forall i :: 0 <= i < |steps| ==>
               steps[i].phase != StepPhase.Running && steps[i].phase != StepPhase.Suspended &&
               steps[i].phase != StepPhase.Failed) ==>
            NextPhase(p, steps, before) ==
            if exists i :: 0 <= i < |steps| && steps[i].phase == StepPhase.Pending then before
            else PipelinePhase.Succeeded
  {
    if i :| 0 <= i < |steps| && steps[i].phase == StepPhase.Running {
      assert Any(steps, StepPhase.Running) && !AllDone(steps);
    }
    if i :| 0 <= i < |steps| && steps[i].phase == StepPhase.Pending &&
            p.steps[i].runIf.Some? && p.steps[i].runIf.value.condition == OnFail {
      assert p.steps[i].HandlesFailure();
    }
  }

  /** What a verdict puts into the status: its phase, the clock when it is the final one and none is set, and the Ready
      condition that goes with it. Everything else stays. */
  lemma JudgedStatus(p: Spec, mem: Status, now: int)
    requires Aligned(p, mem.steps) && mem.phase != PipelinePhase.Unset
    requires mem.phase != PipelinePhase.Succeeded && mem.phase != PipelinePhase.Failed
    ensures var phase := NextPhase(p, mem.steps, mem.phase);
            var done := phase == PipelinePhase.Succeeded || phase == PipelinePhase.Failed;
            var ready := Condition(if phase == PipelinePhase.Succeeded then True else False, phase);
            Judge(p, mem, now) ==
            Status(phase, mem.startTime,
                   if done && mem.completionTime == None then Some(now) else mem.completionTime,
                   mem.steps, mem.conditions["Ready" := ready])
  {
    VerdictExact(p, mem.steps, mem.phase);
    VerdictExact(p, mem.steps, PipelinePhase.Unset);
  }

  /** The verdict is written exactly when it changes the phase; then, without a call left, it is lost. */
  lemma VerdictWritten(p: Spec, c: Ctx, now: int)
    requires Aligned(p, c.mem.steps)
    ensures NextPhase(p, c.mem.steps, c.mem.phase) == c.mem.phase ==>
            UpdatePipelinePhase(p, c, now) == Ok(Ctx(c.store, c.budget, Judge(p, c.mem, now)))
    ensures NextPhase(p, c.mem.steps, c.mem.phase) != c.mem.phase && c.budget == Limited(0) ==>
            UpdatePipelinePhase(p, c, now) == Err(c.store)
    ensures NextPhase(p, c.mem.steps, c.mem.phase) != c.mem.phase && c.budget != Limited(0) ==>
            var after := Judge(p, c.mem, now);
            UpdatePipelinePhase(p, c, now) ==
            Ok(Ctx(Store(c.store.present, c.store.deleting, c.store.finalizer, after, c.store.jobs),
                   if c.budget.Unlimited? then Unlimited else Limited(c.budget.calls - 1), after))
  {}

  // ---- One turn of the walk

  /** Nothing is done for a step that is not Pending or that waits. */
  lemma TurnPasses(p: Spec, c: Ctx, i: nat)
    requires Aligned(p, c.mem.steps) && i < |p.steps|
    requires c.mem.steps[i].phase != StepPhase.Pending || Decide(p, Phases(p, c.mem.steps), i) == Wait
    ensures HandleStep(p, c, i) == Ok(c)
  {}

  /** A skip costs one call, the write of the status in which the entry is Skipped. */
  lemma TurnSkips(p: Spec, c: Ctx, i: nat)
    requires Aligned(p, c.mem.steps) && i < |p.steps|
    requires c.mem.steps[i].phase == StepPhase.Pending && Decide(p, Phases(p, c.mem.steps), i) == Skip
    ensures c.budget == Limited(0) ==> HandleStep(p, c, i) == Err(c.store)
    ensures c.budget != Limited(0) ==>
            var e, m := c.mem.steps[i], c.mem;
            var entry := StepStatus(e.name, StepPhase.Skipped, e.jobName, e.jobStatus);
            var after := Status(m.phase, m.startTime, m.completionTime, m.steps[i := entry], m.conditions);
            HandleStep(p, c, i) ==
            Ok(Ctx(Store(c.store.present, c.store.deleting, c.store.finalizer, after, c.store.jobs),
                   if c.budget.Unlimited? then Unlimited else Limited(c.budget.calls - 1), after))
  {}

  /** A start costs two: the Job with the pipeline's label, refused when its name is taken, and then the status in
      which the entry is Running and names the Job. With one call left the Job is created and not recorded. */
  lemma TurnStarts(p: Spec, c: Ctx, i: nat)
    requires Aligned(p, c.mem.steps) && i < |p.steps|
    requires c.mem.steps[i].phase == StepPhase.Pending && Decide(p, Phases(p, c.mem.steps), i) == Start
    ensures var e, m, s := c.mem.steps[i], c.mem, c.store;
            var name := p.name + "-" + p.steps[i].name;
            var entry := StepStatus(e.name, StepPhase.Running, name, e.jobStatus);
            var after := Status(m.phase, m.startTime, m.completionTime, m.steps[i := entry], m.conditions);
            var jobs := s.jobs[name := Job(p.name, JobStatus([], 0))];
            HandleStep(p, c, i) ==
            if c.budget == Limited(0) || name in s.jobs then Err(s)
            else if c.budget == Limited(1) then Err(Store(s.present, s.deleting, s.finalizer, s.status, jobs))
            else Ok(Ctx(Store(s.present, s.deleting, s.finalizer, after, jobs),
                        if c.budget.Unlimited? then Unlimited else Limited(c.budget.calls - 2), after))
  {}

  /** The walk goes through the steps in list order: a step is decided on the phases that the steps before it have
      after the walk and the steps after it had before. */
  lemma {:induction false} WalkInOrder(p: Spec, ph: seq<StepPhase>, i: nat, j: nat)
    requires |ph| == |p.steps| && i <= j < |ph|
    ensures var after := WalkPhases(p, ph, i);
            var now := after[..j] + ph[j..];
            after[j] == if ph[j] != StepPhase.Pending || Decide(p, now, j) == Wait then ph[j]
                        else if Decide(p, now, j) == Skip then StepPhase.Skipped
                        else StepPhase.Running
    decreases |ph| - i
  {
    var ph' := Handled(p, ph, i);
    var after := WalkPhases(p, ph, i);
    assert after == WalkPhases(p, ph', i + 1);
    if i == j {
      WalkKeepsFront(p, ph, i);
      WalkKeepsFront(p, ph', i + 1);
      assert after[..j] + ph[j..] == ph;
      assert after[j] == ph'[j];
    } else {
      WalkInOrder(p, ph', i + 1, j);
      assert ph'[j..] == ph[j..];
    }
  }

  lemma {:induction false} WalkKeepsFront(p: Spec, ph: seq<StepPhase>, i: nat)
    requires |ph| == |p.steps| && i <= |ph|
    ensures WalkPhases(p, ph, i)[..i] == ph[..i]
    decreases |ph| - i
  {
    if i < |ph| {
      var ph' := Handled(p, ph, i);
      WalkKeepsFront(p, ph', i + 1);
      assert ph'[..i] == ph[..i];
      assert WalkPhases(p, ph, i)[..i] == WalkPhases(p, ph', i + 1)[..i + 1][..i];
    }
  }

  // ---- Dispatch

  /** Everything a pass can do before, or instead of, working on the steps. */
  lemma Dispatch(p: Spec, s: Store, budget: Budget, listed: seq<string>, now: int)
    requires s.status.steps == [] || Aligned(p, s.status.steps)
    ensures budget == Limited(0) ==> Reconcile(p, s, budget, listed, now) == Outcome(s, Error)
    ensures budget != Limited(0) && !s.present ==> Reconcile(p, s, budget, listed, now) == Outcome(s, Stop)
    ensures budget != Limited(0) && s.present && s.deleting && !s.finalizer ==>
            Reconcile(p, s, budget, listed, now) == Outcome(s, Stop)
    ensures s.present && !s.deleting && !s.finalizer && budget == Limited(1) ==>
            Reconcile(p, s, budget, listed, now) == Outcome(s, Error)
  {}

  /** A pipeline without a phase becomes Pending, its clock starts, and the next pass is asked for at once. */
  lemma FirstContact(p: Spec, s: Store, budget: Budget, listed: seq<string>, now: int)
    requires s.status.steps == [] || Aligned(p, s.status.steps)
    requires s.present && !s.deleting && s.status.phase == PipelinePhase.Unset
    ensures var enough := budget.Unlimited? || budget.calls >= if s.finalizer then 2 else 3;
            var st := s.status;
            var after := Status(PipelinePhase.Pending, Some(now), st.completionTime, st.steps, st.conditions);
            var o := Reconcile(p, s, budget, listed, now);
            && (enough ==> o == Outcome(Store(true, false, true, after, s.jobs), Requeue))
            && (!enough ==> o.answer == Error && o.store.status == s.status && o.store.jobs == s.jobs)
  {}

  /** A finished pipeline only gets its finalizer, if it has none. */
  lemma NothingAfterTheEnd(p: Spec, s: Store, budget: Budget, listed: seq<string>, now: int)
    requires s.status.steps == [] || Aligned(p, s.status.steps)
    requires s.present && !s.deleting
    requires s.status.phase == PipelinePhase.Succeeded || s.status.phase == PipelinePhase.Failed
    requires budget.Unlimited? || budget.calls >= if s.finalizer then 1 else 2
    ensures Reconcile(p, s, budget, listed, now) == Outcome(Store(true, false, true, s.status, s.jobs), Stop)
  {}

  // ---- Deletion

  /** Deleting one after the other removes exactly the listed Jobs. */
  lemma {:induction false} DeletedExactly(jobs: map<string, Job>, names: seq<string>, name: string)
    ensures name in DeleteAll(jobs, names) <==> name in jobs && name !in names
    ensures name in DeleteAll(jobs, names) ==> DeleteAll(jobs, names)[name] == jobs[name]
    decreases |names|
  {
    if names != [] {
      DeletedExactly(jobs - {names[0]}, names[1..], name);
    }
  }

  /** What a deletion pass with `calls` successful calls leaves of the Jobs: those of other owners, and the pipeline's
      own from some point of the list on. */
  ghost predicate DeletedUpTo(p: Spec, s: Store, listed: seq<string>, m: nat, jobs: map<string, Job>) {
    && (forall name :: name in jobs <==> name in s.jobs && !exists k :: 0 <= k < m && k < |listed| && listed[k] == name)
    && (forall name :: name in jobs ==> jobs[name] == s.jobs[name])
  }

  lemma DeleteAllUpTo(p: Spec, s: Store, listed: seq<string>, m: nat)
    requires m <= |listed|
    ensures DeletedUpTo(p, s, listed, m, DeleteAll(s.jobs, listed[..m]))
  {
    forall name
      ensures name in DeleteAll(s.jobs, listed[..m]) <==>
              name in s.jobs && !exists k :: 0 <= k < m && k < |listed| && listed[k] == name
      ensures name in DeleteAll(s.jobs, listed[..m]) ==> DeleteAll(s.jobs, listed[..m])[name] == s.jobs[name]
    {
      DeletedExactly(s.jobs, listed[..m], name);
      if name in listed[..m] {
        var k :| 0 <= k < m && listed[..m][k] == name;
        assert listed[k] == name;
      }
      if k :| 0 <= k < m && k < |listed| && listed[k] == name {
        assert listed[..m][k] == name;
      }
    }
  }

  /** A deletion pass on which no call fails removes every Job of the pipeline and no other, releases the finalizer,
      so that the object goes, and asks for no further pass. */
  lemma DeletionCompletes(p: Spec, s: Store, listed: seq<string>, now: int)
    requires s.status.steps == [] || Aligned(p, s.status.steps)
    requires s.present && s.deleting && s.finalizer && Lists(p, s.jobs, listed)
    ensures var o := Reconcile(p, s, Unlimited, listed, now);
            && o.answer == Stop && !o.store.present && !o.store.finalizer && o.store.status == s.status
            && (forall name :: name in o.store.jobs <==> name in s.jobs && s.jobs[name].owner != p.name)
            && (forall name :: name in o.store.jobs ==> o.store.jobs[name] == s.jobs[name])
  {
    forall name
      ensures name in DeleteAll(s.jobs, listed) <==> name in s.jobs && s.jobs[name].owner != p.name
      ensures name in DeleteAll(s.jobs, listed) ==> DeleteAll(s.jobs, listed)[name] == s.jobs[name]
    {
      DeletedExactly(s.jobs, listed, name);
      assert name in listed <==> name in Owned(p, s.jobs);
    }
  }

  /** The list has one entry for every Job of the pipeline. */
  lemma ListedCount(p: Spec, jobs: map<string, Job>, listed: seq<string>)
    requires Lists(p, jobs, listed)
    ensures |listed| == |set name | name in jobs && jobs[name].owner == p.name|
  {
    var own := set name | name in jobs && jobs[name].owner == p.name;
    assert own == Owned(p, jobs);
    DistinctCount(listed);
    assert (set k | 0 <= k < |listed| :: listed[k]) == own;
  }

  lemma {:induction false} DistinctCount(names: seq<string>)
    requires forall i, j :: 0 <= i < j < |names| ==> names[i] != names[j]
    ensures |set k | 0 <= k < |names| :: names[k]| == |names|
  {
    if names != [] {
      var m := |names| - 1;
      var front := names[..m];
      DistinctCount(front);
      assert (set k | 0 <= k < |names| :: names[k]) == (set k | 0 <= k < m :: front[k]) + {names[m]};
    }
  }

  /** It takes three calls and one for every Job. With fewer the answer is an error and the object stays, without the
      Jobs that the list names first. */
  lemma DeletionCalls(p: Spec, s: Store, n: nat, listed: seq<string>, now: int)
    requires s.status.steps == [] || Aligned(p, s.status.steps)
    requires s.present && s.deleting && s.finalizer && Lists(p, s.jobs, listed)
    ensures var own := set name | name in s.jobs && s.jobs[name].owner == p.name;
            var o := Reconcile(p, s, Limited(n), listed, now);
            && (n < |own| + 3 <==> o.answer == Error)
            && (n >= |own| + 3 ==> o == Reconcile(p, s, Unlimited, listed, now))
            && (n < |own| + 3 ==>
                  && o.store.present && o.store.deleting && o.store.finalizer && o.store.status == s.status
                  && DeletedUpTo(p, s, listed, if n < 2 then 0 else n - 2, o.store.jobs))
  {
    ListedCount(p, s.jobs, listed);
    var m := if n < 2 then 0 else if n - 2 < |listed| then n - 2 else |listed|;
    DeleteAllUpTo(p, s, listed, m);
    assert listed[..|listed|] == listed;
  }
}
