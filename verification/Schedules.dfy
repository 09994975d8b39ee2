/** Two schedules of one pipeline, with the same Job outcomes and different results. */
module Schedules {
  import opened PipelineTypes
  import opened Scheduling
  import opened Passes
  import opened Controller
  import opened Transitions
  import opened Invariants
  import opened RunProperties
  import opened Fate
  import opened Deadlock
  import opened PassEffect
  import opened Liveness
  import opened Examples

  // ---- Executions on phases and Job statuses alone

  /** The pipeline's own Jobs are those of the steps with a status here, with that status. */
  ghost predicate JobsAre(p: Spec, jobs: map<string, Job>, js: seq<Option<JobStatus>>) {
    |js| == |p.steps| && forall i :: 0 <= i < |js| ==>
      if js[i].None? then JobName(p, i) !in jobs
      else JobName(p, i) in jobs && jobs[JobName(p, i)] == Job(p.name, js[i].value)
  }

  /** The execution has arrived at these phases and Job statuses. */
  ghost predicate Arrived(p: Spec, ss: seq<Store>, ms: seq<Move>, ph: seq<StepPhase>, js: seq<Option<JobStatus>>) {
    && Execution(p, ss, ms) && NothingFails(ms) && Gentle(ss, ms)
    && PhasesAt(p, Last(ss)) == ph && JobsAre(p, Last(ss).jobs, js)
  }

  ghost function Read(ph: seq<StepPhase>, js: seq<Option<JobStatus>>): (r: seq<StepPhase>)
    requires |ph| == |js|
    ensures |r| == |ph|
  {
    seq(|ph|, i requires 0 <= i < |ph| =>
      if ph[i].Started() && js[i].Some? then ObservedPhase(js[i].value, ph[i]) else ph[i])
  }

  /** The Job statuses after a walk that turned `ph` into `after`. */
  ghost function Created(ph: seq<StepPhase>, after: seq<StepPhase>, js: seq<Option<JobStatus>>)
    : (r: seq<Option<JobStatus>>)
    requires |ph| == |after| == |js|
    ensures |r| == |js|
  {
    seq(|js|, i requires 0 <= i < |js| => if ph[i].Pending? && after[i].Running? then Some(NEW_JOB_STATUS) else js[i])
  }

  lemma HandledJobsAre(p: Spec, ph: seq<StepPhase>, jobs: map<string, Job>, js: seq<Option<JobStatus>>, i: nat)
    requires UniqueNames(p) && |ph| == |p.steps| && i < |ph| && JobsAre(p, jobs, js)
    ensures JobsAre(p, WithJob(p, ph, jobs, i), Created(ph, Handled(p, ph, i), js))
  {
    forall j: nat | j < |ph| && j != i
      ensures JobName(p, j) != JobName(p, i)
    {
      JobNameInjective(p, i, j);
    }
  }

  /** A walk creates a Job for exactly the steps that it turns from Pending to Running. */
  lemma {:induction false} WalkJobsAre(p: Spec, ph: seq<StepPhase>, jobs: map<string, Job>,
                                           js: seq<Option<JobStatus>>, i: nat)
    requires UniqueNames(p) && |ph| == |p.steps| && i <= |ph| && JobsAre(p, jobs, js)
    ensures JobsAre(p, WalkJobs(p, ph, jobs, i), Created(ph, WalkPhases(p, ph, i), js))
    decreases |ph| - i
  {
    if i == |ph| {
      assert Created(ph, ph, js) == js;
    } else {
      var ph' := Handled(p, ph, i);
      HandledJobsAre(p, ph, jobs, js, i);
      WalkJobsAre(p, ph', WithJob(p, ph, jobs, i), Created(ph, ph', js), i + 1);
      WalkOnlyDecides(p, ph', i + 1);
      assert Created(ph', WalkPhases(p, ph', i + 1), Created(ph, ph', js)) == Created(ph, WalkPhases(p, ph, i), js);
    }
  }

  lemma ReadIsSeen(p: Spec, ph: seq<StepPhase>, jobs: map<string, Job>, js: seq<Option<JobStatus>>)
    requires |ph| == |p.steps| && JobsAre(p, jobs, js)
    ensures SeenPhases(p, ph, jobs) == Read(ph, js)
  {}

  ghost predicate NoneCreated(ph: seq<StepPhase>, js: seq<Option<JobStatus>>)
    requires |ph| == |js|
  {
    forall i :: 0 <= i < |ph| && ph[i].Pending? ==> js[i].None?
  }

  /** What a pass makes of these phases and Job statuses when it does not end the pipeline. */
  ghost predicate PassMakes(p: Spec, ph: seq<StepPhase>, js: seq<Option<JobStatus>>,
                            ph': seq<StepPhase>, js': seq<Option<JobStatus>>)
  {
    && |ph| == |js| == |p.steps| && NoneCreated(ph, js) && !Over(p, Read(ph, js))
    && ph' == WalkPhases(p, Read(ph, js), 0) && js' == Created(Read(ph, js), ph', js)
  }

  lemma PassOn(p: Spec, ss: seq<Store>, ms: seq<Move>, ph: seq<StepPhase>, js: seq<Option<JobStatus>>,
               ph': seq<StepPhase>, js': seq<Option<JobStatus>>)
    returns (m: Move, t: Store)
    requires Arrived(p, ss, ms, ph, js) && Live(Last(ss)) && PassMakes(p, ph, js, ph', js')
    ensures Arrived(p, ss + [t], ms + [m], ph', js') && Live(t)
  {
    var s, seen := Last(ss), Read(ph, js);
    ReadIsSeen(p, ph, s.jobs, js);
    var o;
    m, o := NextPass(p, ss, ms);
    t := o.store;
    WalkJobsAre(p, seen, s.jobs, js, 0);
  }

  lemma PassEnds(p: Spec, ss: seq<Store>, ms: seq<Move>, ph: seq<StepPhase>, js: seq<Option<JobStatus>>,
                 seen: seq<StepPhase>)
    returns (m: Move, t: Store)
    requires |ph| == |p.steps| && Arrived(p, ss, ms, ph, js) && Live(Last(ss)) && NoneCreated(ph, js)
    requires seen == Read(ph, js) && Over(p, seen) && exists i :: 0 <= i < |seen| && seen[i].Failed?
    ensures Arrived(p, ss + [t], ms + [m], seen, js) && t.status.phase.Failed?
  {
    ReadIsSeen(p, ph, Last(ss).jobs, js);
    var o;
    m, o := NextPass(p, ss, ms);
    t := o.store;
  }

  /** The Job of step `i` comes to its end. */
  lemma Ends(p: Spec, ss: seq<Store>, ms: seq<Move>, ph: seq<StepPhase>, js: seq<Option<JobStatus>>,
             i: nat, end: JobStatus)
    returns (t: Store)
    requires UniqueNames(p) && Arrived(p, ss, ms, ph, js) && Live(Last(ss)) && i < |js|
    requires js[i] == Some(NEW_JOB_STATUS) && (end == SUCCEEDED || end == FAILED)
    ensures Arrived(p, ss + [t], ms + [Cluster], ph, js[i := Some(end)]) && Live(t)
  {
    var s := Last(ss);
    t := s.(jobs := s.jobs[JobName(p, i) := Job(p.name, end)]);
    JobMoves(p.name, NEW_JOB_STATUS, end);
    assert t.jobs.Keys == s.jobs.Keys;
    assert JobsChange(s, t);
    GoesOn(p, ss, ms, Cluster, t);
    GentleGoesOn(ss, ms, Cluster, t);
    forall j: nat | j < |js| && j != i
      ensures JobName(p, j) != JobName(p, i)
    {
      JobNameInjective(p, i, j);
    }
  }

  // ---- The pipeline

  /** The second and the third step react to a failure of the first, and the fourth to the success of the second. */
  ghost predicate Reacts(p: Spec) {
    && |p.steps| == 4 && UniqueNames(p) && p.steps[0].runIf.None?
    && p.steps[1].runIf == Some(RunIf(OnFail, And, [p.steps[0].name]))
    && p.steps[2].runIf == Some(RunIf(OnFail, And, [p.steps[0].name]))
    && p.steps[3].runIf == Some(RunIf(OnSuccess, And, [p.steps[1].name]))
  }

  /** Decision of a step with runIf that lists step `j` alone. */
  lemma DecidesOnOne(p: Spec, ph: seq<StepPhase>, i: nat, j: nat)
    requires UniqueNames(p) && |ph| == |p.steps| && i < |ph| && j < |ph| && p.steps[i].runIf.Some?
    requires p.steps[i].runIf.value.steps == [p.steps[j].name] && p.steps[i].runIf.value.RequiresAll()
    ensures Decide(p, ph, i) ==
            if ph[j].Waiting() then Wait
            else if Matches(p.steps[i].runIf.value.IsCheckingFailure(), ph[j]) then Start
            else Skip
  {
    assert Known(p, p.steps[j].name) && Dep(p, i, j);
    assert forall k :: 0 <= k < |ph| && Dep(p, i, k) ==> k == j;
  }

  lemma ReactsDecides(p: Spec, ph: seq<StepPhase>)
    requires Reacts(p) && |ph| == 4
    ensures Decide(p, ph, 0) == Start
    ensures Decide(p, ph, 1) == if ph[0].Waiting() then Wait else if ph[0].Failed? then Start else Skip
    ensures Decide(p, ph, 2) == if ph[0].Waiting() then Wait else if ph[0].Failed? then Start else Skip
    ensures Decide(p, ph, 3) == if ph[1].Waiting() then Wait else if ph[1].Succeeded? then Start else Skip
  {
    SequentialRule(p, ph, 0);
    DecidesOnOne(p, ph, 1, 0);
    DecidesOnOne(p, ph, 2, 0);
    DecidesOnOne(p, ph, 3, 1);
  }

  lemma FourTurns(p: Spec, ph: seq<StepPhase>,
                  a: seq<StepPhase>, b: seq<StepPhase>, c: seq<StepPhase>, d: seq<StepPhase>)
    requires |ph| == |p.steps| == 4
    requires a == Handled(p, ph, 0) && b == Handled(p, a, 1) && c == Handled(p, b, 2) && d == Handled(p, c, 3)
    ensures WalkPhases(p, ph, 0) == d
  {
    assert WalkPhases(p, ph, 0) == WalkPhases(p, a, 1);
    assert WalkPhases(p, a, 1) == WalkPhases(p, b, 2);
    assert WalkPhases(p, b, 2) == WalkPhases(p, c, 3);
    assert WalkPhases(p, c, 3) == WalkPhases(p, d, 4);
  }

  /** The first walk starts the first step. */
  lemma FirstWalk(p: Spec, ph: seq<StepPhase>)
    requires Reacts(p) && ph == [StepPhase.Pending, StepPhase.Pending, StepPhase.Pending, StepPhase.Pending]
    ensures WalkPhases(p, ph, 0) == [StepPhase.Running, StepPhase.Pending, StepPhase.Pending, StepPhase.Pending]
  {
    var a := ph[0 := StepPhase.Running];
    ReactsDecides(p, ph);
    ReactsDecides(p, a);
    FourTurns(p, ph, a, a, a, a);
  }

  /** The second, on its failure, starts the two that react to it. */
  lemma SecondWalk(p: Spec, ph: seq<StepPhase>)
    requires Reacts(p) && ph == [StepPhase.Failed, StepPhase.Pending, StepPhase.Pending, StepPhase.Pending]
    ensures WalkPhases(p, ph, 0) == [StepPhase.Failed, StepPhase.Running, StepPhase.Running, StepPhase.Pending]
  {
    var a := ph[1 := StepPhase.Running];
    var b := a[2 := StepPhase.Running];
    ReactsDecides(p, ph);
    ReactsDecides(p, a);
    ReactsDecides(p, b);
    FourTurns(p, ph, ph, a, b, b);
  }

  /** The third, with the third step still running, starts the fourth. */
  lemma ThirdWalk(p: Spec, ph: seq<StepPhase>)
    requires Reacts(p) && ph == [StepPhase.Failed, StepPhase.Succeeded, StepPhase.Running, StepPhase.Pending]
    ensures WalkPhases(p, ph, 0) == [StepPhase.Failed, StepPhase.Succeeded, StepPhase.Running, StepPhase.Running]
  {
    ReactsDecides(p, ph);
    FourTurns(p, ph, ph, ph, ph, ph[3 := StepPhase.Running]);
  }

  // ---- What the passes make of it

  lemma FirstPass(p: Spec, ph: seq<StepPhase>, js: seq<Option<JobStatus>>)
    requires Reacts(p) && ph == [StepPhase.Pending, StepPhase.Pending, StepPhase.Pending, StepPhase.Pending]
    requires js == [None, None, None, None]
    ensures PassMakes(p, ph, js, [StepPhase.Running, StepPhase.Pending, StepPhase.Pending, StepPhase.Pending],
                      [Some(NEW_JOB_STATUS), None, None, None])
  {
    assert Read(ph, js) == ph;
    assert ph[0].Pending?;
    FirstWalk(p, ph);
  }

  lemma SecondPass(p: Spec, ph: seq<StepPhase>, js: seq<Option<JobStatus>>)
    requires Reacts(p) && ph == [StepPhase.Running, StepPhase.Pending, StepPhase.Pending, StepPhase.Pending]
    requires js == [Some(FAILED), None, None, None]
    ensures PassMakes(p, ph, js, [StepPhase.Failed, StepPhase.Running, StepPhase.Running, StepPhase.Pending],
                      [Some(FAILED), Some(NEW_JOB_STATUS), Some(NEW_JOB_STATUS), None])
  {
    var seen := [StepPhase.Failed, StepPhase.Pending, StepPhase.Pending, StepPhase.Pending];
    JobReads(ph[0]);
    assert Read(ph, js) == seen;
    assert seen[1].Pending? && p.steps[1].HandlesFailure();
    SecondWalk(p, seen);
  }

  lemma ThirdPass(p: Spec, ph: seq<StepPhase>, js: seq<Option<JobStatus>>)
    requires Reacts(p) && ph == [StepPhase.Failed, StepPhase.Running, StepPhase.Running, StepPhase.Pending]
    requires js == [Some(FAILED), Some(SUCCEEDED), Some(NEW_JOB_STATUS), None]
    ensures PassMakes(p, ph, js, [StepPhase.Failed, StepPhase.Succeeded, StepPhase.Running, StepPhase.Running],
                      [Some(FAILED), Some(SUCCEEDED), Some(NEW_JOB_STATUS), Some(NEW_JOB_STATUS)])
  {
    var seen := [StepPhase.Failed, StepPhase.Succeeded, StepPhase.Running, StepPhase.Pending];
    JobReads(ph[0]);
    JobReads(ph[1]);
    assert Read(ph, js) == seen;
    assert seen[2].Running?;
    ThirdWalk(p, seen);
  }

  lemma LastPassGivesUp(p: Spec, ph: seq<StepPhase>, js: seq<Option<JobStatus>>, seen: seq<StepPhase>)
    requires Reacts(p) && ph == [StepPhase.Failed, StepPhase.Running, StepPhase.Running, StepPhase.Pending]
    requires js == [Some(FAILED), Some(SUCCEEDED), Some(SUCCEEDED), None]
    requires seen == [StepPhase.Failed, StepPhase.Succeeded, StepPhase.Succeeded, StepPhase.Pending]
    ensures NoneCreated(ph, js) && Read(ph, js) == seen && Over(p, seen) && seen[0].Failed?
  {
    JobReads(ph[0]);
    JobReads(ph[1]);
    assert seen[0].Failed? && !p.steps[3].HandlesFailure();
  }

  lemma LastPassCompletes(p: Spec, ph: seq<StepPhase>, js: seq<Option<JobStatus>>, seen: seq<StepPhase>)
    requires Reacts(p) && ph == [StepPhase.Failed, StepPhase.Succeeded, StepPhase.Running, StepPhase.Running]
    requires js == [Some(FAILED), Some(SUCCEEDED), Some(SUCCEEDED), Some(SUCCEEDED)]
    requires seen == [StepPhase.Failed, StepPhase.Succeeded, StepPhase.Succeeded, StepPhase.Succeeded]
    ensures NoneCreated(ph, js) && Read(ph, js) == seen && Over(p, seen) && seen[0].Failed?
  {
    JobReads(ph[0]);
    JobReads(ph[1]);
    JobReads(ph[2]);
  }

  // ---- The two executions

  lemma FirstStarts(p: Spec) returns (ss: seq<Store>, ms: seq<Move>)
    requires Reacts(p)
    ensures Arrived(p, ss, ms, [StepPhase.Running, StepPhase.Pending, StepPhase.Pending, StepPhase.Pending],
                    [Some(NEW_JOB_STATUS), None, None, None])
    ensures Live(Last(ss))
  {
    var s := Begin(p);
    var ph := [StepPhase.Pending, StepPhase.Pending, StepPhase.Pending, StepPhase.Pending];
    assert seq(|p.steps|, i => StepPhase.Pending) == ph;
    FirstPass(p, ph, [None, None, None, None]);
    var m, t := PassOn(p, [s], [], ph, [None, None, None, None],
                       [StepPhase.Running, StepPhase.Pending, StepPhase.Pending, StepPhase.Pending],
                       [Some(NEW_JOB_STATUS), None, None, None]);
    ss, ms := [s] + [t], [] + [m];
  }

  /** The pass after the failure of the first step. */
  lemma BothReact(p: Spec) returns (ss: seq<Store>, ms: seq<Move>)
    requires Reacts(p)
    ensures Arrived(p, ss, ms, [StepPhase.Failed, StepPhase.Running, StepPhase.Running, StepPhase.Pending],
                    [Some(FAILED), Some(NEW_JOB_STATUS), Some(NEW_JOB_STATUS), None])
    ensures Live(Last(ss))
  {
    ss, ms := FirstStarts(p);
    var ph := [StepPhase.Running, StepPhase.Pending, StepPhase.Pending, StepPhase.Pending];
    var js: seq<Option<JobStatus>> := [Some(NEW_JOB_STATUS), None, None, None];
    var t := Ends(p, ss, ms, ph, js, 0, FAILED);
    ss, ms, js := ss + [t], ms + [Cluster], js[0 := Some(FAILED)];
    SecondPass(p, ph, js);
    var m, u := PassOn(p, ss, ms, ph, js, [StepPhase.Failed, StepPhase.Running, StepPhase.Running, StepPhase.Pending],
                       [Some(FAILED), Some(NEW_JOB_STATUS), Some(NEW_JOB_STATUS), None]);
    ss, ms := ss + [u], ms + [m];
  }

  /** The second step's Job has succeeded; the third's has not ended. */
  lemma SecondSucceeds(p: Spec) returns (ss: seq<Store>, ms: seq<Move>)
    requires Reacts(p)
    ensures Arrived(p, ss, ms, [StepPhase.Failed, StepPhase.Running, StepPhase.Running, StepPhase.Pending],
                    [Some(FAILED), Some(SUCCEEDED), Some(NEW_JOB_STATUS), None])
    ensures Live(Last(ss))
  {
    ss, ms := BothReact(p);
    var js := [Some(FAILED), Some(NEW_JOB_STATUS), Some(NEW_JOB_STATUS), None];
    var ph := [StepPhase.Failed, StepPhase.Running, StepPhase.Running, StepPhase.Pending];
    var t := Ends(p, ss, ms, ph, js, 1, SUCCEEDED);
    assert js[1 := Some(SUCCEEDED)] == [Some(FAILED), Some(SUCCEEDED), Some(NEW_JOB_STATUS), None];
    ss, ms := ss + [t], ms + [Cluster];
  }

  /** The third succeeds before the next pass: it ends the pipeline, and the fourth step, which is due, is never
      started. */
  lemma GivenUpRun(p: Spec) returns (ss: seq<Store>, ms: seq<Move>)
    requires Reacts(p)
    ensures Arrived(p, ss, ms, [StepPhase.Failed, StepPhase.Succeeded, StepPhase.Succeeded, StepPhase.Pending],
                    [Some(FAILED), Some(SUCCEEDED), Some(SUCCEEDED), None])
    ensures Last(ss).status.phase.Failed?
  {
    ss, ms := SecondSucceeds(p);
    var ph := [StepPhase.Failed, StepPhase.Running, StepPhase.Running, StepPhase.Pending];
    var js := [Some(FAILED), Some(SUCCEEDED), Some(NEW_JOB_STATUS), None];
    var t := Ends(p, ss, ms, ph, js, 2, SUCCEEDED);
    ss, ms, js := ss + [t], ms + [Cluster], js[2 := Some(SUCCEEDED)];
    var seen := [StepPhase.Failed, StepPhase.Succeeded, StepPhase.Succeeded, StepPhase.Pending];
    LastPassGivesUp(p, ph, js, seen);
    var m, u := PassEnds(p, ss, ms, ph, js, seen);
    ss, ms := ss + [u], ms + [m];
  }

  /** The third is still running in that pass: the fourth step is started. */
  lemma FourthStarts(p: Spec) returns (ss: seq<Store>, ms: seq<Move>)
    requires Reacts(p)
    ensures Arrived(p, ss, ms, [StepPhase.Failed, StepPhase.Succeeded, StepPhase.Running, StepPhase.Running],
                    [Some(FAILED), Some(SUCCEEDED), Some(NEW_JOB_STATUS), Some(NEW_JOB_STATUS)])
    ensures Live(Last(ss))
  {
    ss, ms := SecondSucceeds(p);
    var ph := [StepPhase.Failed, StepPhase.Running, StepPhase.Running, StepPhase.Pending];
    var js := [Some(FAILED), Some(SUCCEEDED), Some(NEW_JOB_STATUS), None];
    ThirdPass(p, ph, js);
    var m, t := PassOn(p, ss, ms, ph, js, [StepPhase.Failed, StepPhase.Succeeded, StepPhase.Running, StepPhase.Running],
                       [Some(FAILED), Some(SUCCEEDED), Some(NEW_JOB_STATUS), Some(NEW_JOB_STATUS)]);
    ss, ms := ss + [t], ms + [m];
  }

  /** And the pipeline ends with every step at its fate. */
  lemma CompletedRun(p: Spec) returns (ss: seq<Store>, ms: seq<Move>)
    requires Reacts(p)
    ensures Arrived(p, ss, ms, [StepPhase.Failed, StepPhase.Succeeded, StepPhase.Succeeded, StepPhase.Succeeded],
                    [Some(FAILED), Some(SUCCEEDED), Some(SUCCEEDED), Some(SUCCEEDED)])
    ensures Last(ss).status.phase.Failed?
  {
    ss, ms := FourthStarts(p);
    var ph := [StepPhase.Failed, StepPhase.Succeeded, StepPhase.Running, StepPhase.Running];
    var js := [Some(FAILED), Some(SUCCEEDED), Some(NEW_JOB_STATUS), Some(NEW_JOB_STATUS)];
    var t := Ends(p, ss, ms, ph, js, 2, SUCCEEDED);
    ss, ms, js := ss + [t], ms + [Cluster], js[2 := Some(SUCCEEDED)];
    var u := Ends(p, ss, ms, ph, js, 3, SUCCEEDED);
    ss, ms, js := ss + [u], ms + [Cluster], js[3 := Some(SUCCEEDED)];
    var seen := [StepPhase.Failed, StepPhase.Succeeded, StepPhase.Succeeded, StepPhase.Succeeded];
    LastPassCompletes(p, ph, js, seen);
    var m, v := PassEnds(p, ss, ms, ph, js, seen);
    ss, ms := ss + [v], ms + [m];
  }

  lemma ReactsFate(p: Spec, out: seq<StepPhase>)
    requires Reacts(p) && out == [StepPhase.Failed, StepPhase.Succeeded, StepPhase.Succeeded, StepPhase.Succeeded]
    ensures Outcomes(p, out) && FateOf(p, out) == out && Sound(p)
  {
    assert Outcomes(p, out);
    FateIsFixed(p, out);
    var fate := FateOf(p, out);
    ReactsDecides(p, fate);
    assert Round(p, out, fate)[0] == out[0] == fate[0];
    assert Round(p, out, fate)[1] == out[1] == fate[1];
    assert Round(p, out, fate)[2] == out[2] == fate[2];
    assert Round(p, out, fate)[3] == out[3] == fate[3];
    EverythingDecidedExact(p, out);
  }

  lemma EndsDeliver(p: Spec, s: Store, out: seq<StepPhase>, last: Option<JobStatus>)
    requires Outcomes(p, out)
    requires out == [StepPhase.Failed, StepPhase.Succeeded, StepPhase.Succeeded, StepPhase.Succeeded]
    requires JobsAre(p, s.jobs, [Some(FAILED), Some(SUCCEEDED), Some(SUCCEEDED), last])
    requires last == None || last == Some(SUCCEEDED)
    ensures Delivers(p, s, out)
  {
    JobReads(StepPhase.Running);
  }

  /** A pipeline of this kind. */
  lemma Release() returns (p: Spec)
    ensures p == Spec("p", [Step("build", None),
                            Step("rollback", Some(RunIf(OnFail, And, ["build"]))),
                            Step("cleanup", Some(RunIf(OnFail, And, ["build"]))),
                            Step("announce", Some(RunIf(OnSuccess, And, ["rollback"])))])
    ensures Reacts(p)
  {
    p := Spec("p", [Step("build", None),
                    Step("rollback", Some(RunIf(OnFail, And, ["build"]))),
                    Step("cleanup", Some(RunIf(OnFail, And, ["build"]))),
                    Step("announce", Some(RunIf(OnSuccess, And, ["rollback"])))]);
    assert |"build"| == 5 && |"rollback"| == 8 && |"cleanup"| == 7 && "announce"[0] == 'a' && "rollback"[0] == 'r';
  }

  /** The whole result depends on the schedule. Every pipeline of this kind is sound, and has two executions, without
      failing calls, lost Jobs or suspension, in which every Job ends as the outcomes say: in the first the fourth
      step stays Pending for ever although its condition is met, in the second it is run. */
  lemma ResultDependsOnSchedule(p: Spec, out: seq<StepPhase>)
    returns (ss: seq<Store>, ms: seq<Move>, ss': seq<Store>, ms': seq<Move>)
    requires Reacts(p) && out == [StepPhase.Failed, StepPhase.Succeeded, StepPhase.Succeeded, StepPhase.Succeeded]
    ensures Sound(p) && Outcomes(p, out) && FateOf(p, out) == out
    ensures Execution(p, ss, ms) && NothingFails(ms) && Gentle(ss, ms) && Delivers(p, Last(ss), out)
    ensures Execution(p, ss', ms') && NothingFails(ms') && Gentle(ss', ms') && Delivers(p, Last(ss'), out)
    ensures Last(ss).status.phase.Failed? && Last(ss').status.phase.Failed?
    ensures PhasesAt(p, Last(ss)) == out[3 := StepPhase.Pending] && Decide(p, PhasesAt(p, Last(ss)), 3) == Start
    ensures PhasesAt(p, Last(ss')) == out
  {
    ReactsFate(p, out);
    ss, ms := GivenUpRun(p);
    ss', ms' := CompletedRun(p);
    ReactsDecides(p, PhasesAt(p, Last(ss)));
    EndsDeliver(p, Last(ss), out, None);
    EndsDeliver(p, Last(ss'), out, Some(SUCCEEDED));
  }
}
