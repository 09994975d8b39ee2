/** The bound on ripe passes is met: for every n there is a sound pipeline of n steps that needs n + 1 of them. */
module LongestRun {
  import opened PipelineTypes
  import opened Scheduling
  import opened Passes
  import opened Controller
  import opened Transitions
  import opened Invariants
  import opened RunProperties
  import opened Deadlock
  import opened PassEffect
  import opened Liveness
  import opened Examples
  import opened Schedules

  // ---- Plain pipelines are sound

  lemma {:induction false} PlainNeverStuck(p: Spec, s: set<nat>, i: nat)
    requires Plain(p) && Stuck(p, s)
    ensures i !in s
  {
    if i in s {
      assert WaitsWithin(p, s, i);
      var j :| j in s && j < |p.steps| && Dep(p, i, j);
      PlainNeverStuck(p, s, j);
    }
  }

  /** Without runIf nothing can get stuck. */
  lemma PlainIsSound(p: Spec)
    requires Plain(p)
    ensures Sound(p)
  {
    forall s: set<nat> | Stuck(p, s)
      ensures s == {}
    {
      forall i: nat
        ensures i !in s
      {
        PlainNeverStuck(p, s, i);
      }
    }
    StuckExact(p);
  }

  /** Each step has a name of its own length. */
  function Numbered(n: nat): (p: Spec)
    ensures |p.steps| == n
  {
    Spec("p", seq(n, i requires 0 <= i < n => Step(seq(i, _ => 'a'), None)))
  }

  lemma NumberedIsPlain(n: nat)
    ensures Plain(Numbered(n)) && UniqueNames(Numbered(n))
  {
    var p := Numbered(n);
    forall i, j | 0 <= i < j < |p.steps|
      ensures p.steps[i].name != p.steps[j].name
    {
      assert |p.steps[i].name| == i && |p.steps[j].name| == j;
    }
  }

  // ---- One stage after the other

  /** `k` steps have been started; all but the last of them have been seen to succeed. */
  ghost function Stage(n: nat, k: nat): (r: seq<StepPhase>)
    ensures |r| == n
  {
    seq(n, i requires 0 <= i < n =>
      if i + 1 < k then StepPhase.Succeeded else if i + 1 == k then StepPhase.Running else StepPhase.Pending)
  }

  /** The first `k` steps have been seen to succeed. */
  ghost function Done(n: nat, k: nat): (r: seq<StepPhase>)
    ensures |r| == n
  {
    seq(n, i requires 0 <= i < n => if i < k then StepPhase.Succeeded else StepPhase.Pending)
  }

  /** The first `k` Jobs have succeeded. */
  ghost function Ended(n: nat, k: nat): (r: seq<Option<JobStatus>>)
    ensures |r| == n
  {
    seq(n, i requires 0 <= i < n => if i < k then Some(SUCCEEDED) else None)
  }

  lemma StageRead(n: nat, k: nat)
    requires k <= n
    ensures Read(Stage(n, k), Ended(n, k)) == Done(n, k)
  {
    forall i | 0 <= i < n
      ensures Read(Stage(n, k), Ended(n, k))[i] == Done(n, k)[i]
    {
      JobReads(Stage(n, k)[i]);
    }
  }

  lemma {:induction false} WalkPasses(p: Spec, ph: seq<StepPhase>, i: nat, k: nat)
    requires |ph| == |p.steps| && i <= k <= |ph| && forall j :: 0 <= j < k ==> !ph[j].Pending?
    ensures WalkPhases(p, ph, i) == WalkPhases(p, ph, k)
    decreases k - i
  {
    if i < k {
      WalkPasses(p, ph, i + 1, k);
    }
  }

  lemma NextIsStarted(p: Spec, k: nat)
    requires Plain(p) && k < |p.steps|
    ensures Handled(p, Done(|p.steps|, k), k) == Stage(|p.steps|, k + 1)
  {
    var ph := Done(|p.steps|, k);
    SequentialRule(p, ph, k);
    assert Decide(p, ph, k) == Start;
  }

  lemma OthersWait(p: Spec, k: nat)
    requires Plain(p) && k < |p.steps|
    ensures WalkPhases(p, Stage(|p.steps|, k + 1), k + 1) == Stage(|p.steps|, k + 1)
  {
    var ph := Stage(|p.steps|, k + 1);
    forall j: nat | k < j < |ph|
      ensures Decide(p, ph, j) == Wait
    {
      SequentialRule(p, ph, j);
      assert ph[k].Waiting();
    }
    WalkRestsExact(p, ph, k + 1);
  }

  /** A walk starts the next step and no other. */
  lemma WalkStartsNext(p: Spec, k: nat)
    requires Plain(p) && k < |p.steps|
    ensures WalkPhases(p, Done(|p.steps|, k), 0) == Stage(|p.steps|, k + 1)
  {
    var ph := Done(|p.steps|, k);
    WalkPasses(p, ph, 0, k);
    NextIsStarted(p, k);
    OthersWait(p, k);
    assert WalkPhases(p, ph, k) == WalkPhases(p, Handled(p, ph, k), k + 1);
  }

  ghost predicate Staged(p: Spec, s: Store, k: nat) {
    && k <= |p.steps| && Ready(p, s) && Live(s)
    && PhasesAt(p, s) == Stage(|p.steps|, k) && JobsAre(p, s.jobs, Ended(|p.steps|, k))
  }

  lemma StagedIsFinished(p: Spec, s: Store, k: nat)
    requires Staged(p, s, k)
    ensures AllFinished(p, s)
  {
    forall i | 0 <= i < |p.steps| && PhasesAt(p, s)[i].Running?
      ensures JobName(p, i) in s.jobs && s.jobs[JobName(p, i)].status == SUCCEEDED
    {
      assert Ended(|p.steps|, k)[i] == Some(SUCCEEDED);
    }
    JobReads(StepPhase.Running);
  }

  lemma StagedIsSeen(p: Spec, s: Store, k: nat)
    requires Staged(p, s, k)
    ensures Seen(p, s) == Done(|p.steps|, k)
  {
    ReadIsSeen(p, PhasesAt(p, s), s.jobs, Ended(|p.steps|, k));
    StageRead(|p.steps|, k);
  }

  lemma DoneOverExact(p: Spec, k: nat)
    requires k <= |p.steps|
    ensures Over(p, Done(|p.steps|, k)) <==> k == |p.steps|
    ensures forall i :: 0 <= i < |p.steps| ==> !Done(|p.steps|, k)[i].Failed?
  {
    if k < |p.steps| {
      assert Done(|p.steps|, k)[k].Pending?;
    }
  }

  lemma StagedWalk(p: Spec, jobs: map<string, Job>, k: nat)
    requires Plain(p) && UniqueNames(p) && k < |p.steps| && JobsAre(p, jobs, Ended(|p.steps|, k))
    ensures WalkPhases(p, Done(|p.steps|, k), 0) == Stage(|p.steps|, k + 1)
    ensures JobsAre(p, WalkJobs(p, Done(|p.steps|, k), jobs, 0), Ended(|p.steps|, k)[k := Some(NEW_JOB_STATUS)])
  {
    var n := |p.steps|;
    WalkStartsNext(p, k);
    WalkJobsAre(p, Done(n, k), jobs, Ended(n, k), 0);
    assert Created(Done(n, k), Stage(n, k + 1), Ended(n, k)) == Ended(n, k)[k := Some(NEW_JOB_STATUS)];
  }

  /** The pass at one stage starts the next step. */
  lemma StagedPass(p: Spec, s: Store, k: nat, listed: seq<string>)
    requires Plain(p) && Staged(p, s, k) && k < |p.steps|
    ensures var t := Reconcile(p, s, Unlimited, listed, 0).store;
            Live(t) && PhasesAt(p, t) == Stage(|p.steps|, k + 1) &&
            JobsAre(p, t.jobs, Ended(|p.steps|, k)[k := Some(NEW_JOB_STATUS)])
  {
    StagedIsSeen(p, s, k);
    PassExact(p, s, listed, 0);
    DoneOverExact(p, k);
    StagedWalk(p, s.jobs, k);
  }

  /** And then its Job succeeds. */
  lemma JobSucceeds(p: Spec, t: Store, k: nat) returns (s': Store)
    requires UniqueNames(p) && k < |p.steps| && JobsAre(p, t.jobs, Ended(|p.steps|, k)[k := Some(NEW_JOB_STATUS)])
    ensures JobsChange(t, s') && JobsAre(p, s'.jobs, Ended(|p.steps|, k + 1))
  {
    s' := t.(jobs := t.jobs[JobName(p, k) := Job(p.name, SUCCEEDED)]);
    assert Ended(|p.steps|, k)[k := Some(NEW_JOB_STATUS)][k] == Some(NEW_JOB_STATUS);
    JobMoves(p.name, NEW_JOB_STATUS, SUCCEEDED);
    assert s'.jobs.Keys == t.jobs.Keys;
    forall j: nat | j < |p.steps| && j != k
      ensures JobName(p, j) != JobName(p, k)
    {
      JobNameInjective(p, j, k);
    }
  }

  lemma NextStage(p: Spec, s: Store, k: nat) returns (s': Store)
    requires Plain(p) && Staged(p, s, k) && k < |p.steps|
    ensures PassThenJobs(p, s, s') && Staged(p, s', k + 1)
  {
    var listed := Listing(Owned(p, s.jobs));
    StagedPass(p, s, k, listed);
    s' := JobSucceeds(p, Reconcile(p, s, Unlimited, listed, 0).store, k);
    PassStaysReady(p, s, s');
  }

  lemma LastPassSucceeds(p: Spec, s: Store, listed: seq<string>)
    requires Staged(p, s, |p.steps|)
    ensures Reconcile(p, s, Unlimited, listed, 0).store.status.phase.Succeeded?
  {
    StagedIsSeen(p, s, |p.steps|);
    PassExact(p, s, listed, 0);
    DoneOverExact(p, |p.steps|);
  }

  /** After the last stage the pass reports success. */
  lemma LastStage(p: Spec, s: Store) returns (s': Store)
    requires Staged(p, s, |p.steps|)
    ensures PassThenJobs(p, s, s') && s'.status.phase.Succeeded?
  {
    var listed := Listing(Owned(p, s.jobs));
    LastPassSucceeds(p, s, listed);
    s' := Reconcile(p, s, Unlimited, listed, 0).store;
    assert JobsChange(s', s');
  }

  // ---- The whole run

  lemma EagerRunExtends(p: Spec, ss: seq<Store>, s': Store)
    requires EagerRun(p, ss) && AllFinished(p, Last(ss)) && PassThenJobs(p, Last(ss), s')
    ensures EagerRun(p, ss + [s'])
  {
    var more := ss + [s'];
    forall k
      ensures PassAt(p, more, k) && FinishedAt(p, more, k)
    {
      assert PassAt(p, ss, k) && FinishedAt(p, ss, k);
    }
  }

  lemma FirstStage(p: Spec) returns (ss: seq<Store>)
    requires UniqueNames(p)
    ensures EagerRun(p, ss) && |ss| == 1 && Staged(p, ss[0], 0)
  {
    var s := Begin(p);
    InitIsReachable(p, s);
    ReachableInv(p, s);
    assert PhasesAt(p, s) == Stage(|p.steps|, 0);
    ss := [s];
  }

  lemma StageFollows(p: Spec, ss: seq<Store>, k: nat) returns (s': Store)
    requires Plain(p) && EagerRun(p, ss) && Staged(p, Last(ss), k) && k < |p.steps|
    ensures EagerRun(p, ss + [s']) && Staged(p, s', k + 1)
  {
    StagedIsFinished(p, Last(ss), k);
    s' := NextStage(p, Last(ss), k);
    EagerRunExtends(p, ss, s');
  }

  lemma {:induction false} Stages(p: Spec, k: nat) returns (ss: seq<Store>)
    requires Plain(p) && UniqueNames(p) && k <= |p.steps|
    ensures EagerRun(p, ss) && |ss| == k + 1 && Staged(p, Last(ss), k)
  {
    if k == 0 {
      ss := FirstStage(p);
    } else {
      ss := Stages(p, k - 1);
      var s' := StageFollows(p, ss, k - 1);
      ss := ss + [s'];
    }
  }

  lemma AllAreRipe(p: Spec, ss: seq<Store>, s': Store)
    requires EagerRun(p, ss) && Live(Last(ss)) && AllFinished(p, Last(ss))
    ensures RipePasses(p, ss + [s']) == |ss|
  {
    EagerRunIsRipe(p, ss);
    PassRunStaysReady(p, ss, |ss| - 1);
    EagerIsRipe(p, Last(ss));
    assert (ss + [s'])[..|ss|] == ss;
  }

  /** The bound is met for every n: this run of passes, each of which finds all Jobs finished, has n + 1 ripe and
      productive ones, and after n of them the pipeline has not ended. */
  lemma BoundIsMet(n: nat) returns (p: Spec, ss: seq<Store>)
    ensures |p.steps| == n && Sound(p) && EagerRun(p, ss) && |ss| == n + 2
    ensures RipePasses(p, ss) == n + 1 && ProductivePasses(p, ss) == n + 1
    ensures !ss[n].status.phase.Terminal() && ss[n + 1].status.phase.Succeeded?
  {
    p := Numbered(n);
    NumberedIsPlain(n);
    PlainIsSound(p);
    ss := Stages(p, n);
    StagedIsFinished(p, Last(ss), n);
    var s' := LastStage(p, Last(ss));
    EagerRunExtends(p, ss, s');
    AllAreRipe(p, ss, s');
    ss := ss + [s'];
    RipePassesProduce(p, ss);
    PassRunIsHistory(p, ss);
    ProductivePassesEnd(p, ss);
  }
}
