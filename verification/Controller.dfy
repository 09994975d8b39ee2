/** The reconciler of internal/controller as code on mutable objects: the fetched copy of a Pipeline and an API
    server whose calls can fail. Every method is proved to compute the function of module Passes that specifies it. */
module Controller {
  import opened PipelineTypes
  import opened Scheduling
  import opened Passes

  /** The in-memory copy of a Pipeline that one pass works on. */
  class Pipeline {
    const spec: Spec
    var phase: PipelinePhase
    var startTime: Option<int>
    var completionTime: Option<int>
    var steps: seq<StepStatus>
    var conditions: map<string, Condition>

    constructor (spec: Spec, status: Status)
      ensures this.spec == spec && Status() == status
    {
      this.spec := spec;
      phase := status.phase;
      startTime := status.startTime;
      completionTime := status.completionTime;
      steps := status.steps;
      conditions := status.conditions;
    }

    function Status(): Status
      reads this
    {
      PipelineTypes.Status(phase, startTime, completionTime, steps, conditions)
    }

    /** What every lookup of a spec step relies on. */
    ghost predicate Ready()
      reads this
    {
      UniqueNames(spec) && Aligned(spec, steps)
    }

    ghost function PhaseList(): seq<StepPhase>
      reads this
    {
      Phases(spec, steps)
    }
  }

  /** The outcome of an operation, as its specification gives it, is what the objects now hold. */
  ghost predicate Agrees(r: Result, ok: bool, store: Store, budget: Budget, mem: Status) {
    && ok == r.Ok?
    && (ok ==> r.c == Ctx(store, budget, mem))
    && (!ok ==> r.s == store)
  }

  class ApiServer {
    var store: Store
    var budget: Budget

    method UpdateStatus(pl: Pipeline) returns (ok: bool)
      modifies this
      ensures Agrees(Write(Ctx(old(store), old(budget), pl.Status())), ok, store, budget, pl.Status())
    {
      if budget.Spent() {
        return false;
      }
      budget := budget.Spend();
      store := store.(status := pl.Status());
      ok := true;
    }

    method Create(name: string, owner: string, ghost mem: Status) returns (ok: bool)
      modifies this
      ensures Agrees(CreateJob(Ctx(old(store), old(budget), mem), name, owner), ok, store, budget, mem)
    {
      if budget.Spent() || name in store.jobs {
        return false;
      }
      budget := budget.Spend();
      store := store.(jobs := store.jobs[name := Job(owner, NEW_JOB_STATUS)]);
      ok := true;
    }

    /** A Job that does not exist is an answer, not a failure. */
    method GetJob(name: string) returns (ok: bool, job: Option<Job>)
      modifies this`budget
      ensures ok == !old(budget).Spent()
      ensures ok ==> budget == old(budget).Spend()
      ensures ok ==> job == if name in store.jobs then Some(store.jobs[name]) else None
    {
      ok, job := false, None;
      if !budget.Spent() {
        budget := budget.Spend();
        ok, job := true, if name in store.jobs then Some(store.jobs[name]) else None;
      }
    }
  }

  // ---- pipeline_status.go

  method DetermineStepPhase(job: JobStatus, current: StepPhase) returns (phase: StepPhase)
    ensures phase == ObservedPhase(job, current)
  {
    var k := 0;
    while k < |job.conditions|
      invariant 0 <= k <= |job.conditions|
      invariant FirstTrue(job.conditions) == FirstTrue(job.conditions[k..])
    {
      var condition := job.conditions[k];
      if condition.kind == Complete && condition.status == True {
        return StepPhase.Succeeded;
      } else if condition.kind == JobFailed && condition.status == True {
        return StepPhase.Failed;
      } else if condition.kind == JobSuspended && condition.status == True {
        return StepPhase.Suspended;
      }
      k := k + 1;
    }
    if job.active > 0 {
      return StepPhase.Running;
    }
    phase := current;
  }

  lemma TrackedGrows(steps: seq<StepStatus>, k: nat)
    requires k < |steps|
    ensures Tracked(steps[..k + 1]) == Tracked(steps[..k]) + if steps[k].jobName == "" then 0 else 1
    ensures Tracked(steps[..k + 1]) <= Tracked(steps)
    decreases |steps| - k
  {
    assert steps[..k + 1][..k] == steps[..k];
    if k + 1 < |steps| {
      TrackedGrows(steps, k + 1);
    } else {
      assert steps[..k + 1] == steps;
    }
  }

  lemma SamePhasesGrows(a: seq<StepStatus>, b: seq<StepStatus>, k: nat)
    requires |a| == |b| && k < |a|
    ensures SamePhases(a[..k + 1], b[..k + 1]) <==> SamePhases(a[..k], b[..k]) && a[k].phase == b[k].phase
  {
    assert forall j :: 0 <= j < k ==> a[..k + 1][j] == a[..k][j] && b[..k + 1][j] == b[..k][j];
    assert a[..k + 1][k] == a[k] && b[..k + 1][k] == b[k];
  }

  /** What one turn of the loop costs. */
  lemma BudgetTurn(b: Budget, steps: seq<StepStatus>, i: nat)
    requires i < |steps| && b.Covers(Tracked(steps[..i]))
    ensures steps[i].jobName == "" ==> Tracked(steps[..i + 1]) == Tracked(steps[..i])
    ensures steps[i].jobName != "" && b.SpendMany(Tracked(steps[..i])).Spent() ==> !b.Covers(Tracked(steps))
    ensures steps[i].jobName != "" && !b.SpendMany(Tracked(steps[..i])).Spent() ==>
              && b.Covers(Tracked(steps[..i + 1]))
              && b.SpendMany(Tracked(steps[..i])).Spend() == b.SpendMany(Tracked(steps[..i + 1]))
  {
    TrackedGrows(steps, i);
  }

  /** How far the loop has got: the entries before `i` are observed, the others are as they were. */
  ghost predicate RefreshedUpTo(before: seq<StepStatus>, after: seq<StepStatus>, steps: seq<StepStatus>, i: nat) {
    && |after| == |steps| == |before|
    && forall k :: 0 <= k < |before| ==> steps[k] == if k < i then after[k] else before[k]
  }

  lemma RefreshTurn(before: seq<StepStatus>, after: seq<StepStatus>, steps: seq<StepStatus>, i: nat, changed: bool)
    requires i < |before| && RefreshedUpTo(before, after, steps, i)
    requires changed <==> !SamePhases(before[..i], after[..i])
    ensures steps[i] == before[i]
    ensures RefreshedUpTo(before, after, steps[i := after[i]], i + 1)
    ensures changed || after[i].phase != steps[i].phase <==> !SamePhases(before[..i + 1], after[..i + 1])
  {
    SamePhasesGrows(before, after, i);
  }

  /** One turn of the loop of updateStepStatuses: fetch the step's Job, if it has one, and read its conditions. */
  method RefreshStep(api: ApiServer, st: StepStatus) returns (ok: bool, st': StepStatus)
    modifies api`budget
    ensures ok <==> st.jobName == "" || !old(api.budget).Spent()
    ensures ok ==> api.budget == if st.jobName == "" then old(api.budget) else old(api.budget).Spend()
    ensures ok ==> st' == ObserveStep(st, api.store.jobs)
  {
    ok, st' := true, st;
    if st.jobName != "" {
      var fetched, job := api.GetJob(st.jobName);
      if !fetched {
        return false, st;
      }
      if job.Some? {
        var newPhase := DetermineStepPhase(job.value.status, st.phase);
        st' := st.(jobStatus := Some(job.value.status), phase := newPhase);
      }
    }
  }

  /** The loop of updateStepStatuses; `changed` tells whether some phase moved. */
  method RefreshSteps(api: ApiServer, pl: Pipeline) returns (ok: bool, changed: bool)
    modifies api`budget, pl`steps
    ensures ok <==> old(api.budget).Covers(Tracked(old(pl.steps)))
    ensures ok ==> api.budget == old(api.budget).SpendMany(Tracked(old(pl.steps)))
    ensures ok ==> pl.steps == Observe(old(pl.steps), api.store.jobs)
    ensures ok ==> changed == !SamePhases(old(pl.steps), pl.steps)
  {
    ghost var before, b0 := pl.steps, api.budget;
    ghost var after := Observe(before, api.store.jobs);
    ok, changed := true, false;
    var i := 0;
    while i < |pl.steps|
      invariant 0 <= i <= |pl.steps| == |before|
      invariant b0.Covers(Tracked(before[..i])) && api.budget == b0.SpendMany(Tracked(before[..i]))
      invariant RefreshedUpTo(before, after, pl.steps, i)
      invariant changed <==> !SamePhases(before[..i], after[..i])
    {
      BudgetTurn(b0, before, i);
      RefreshTurn(before, after, pl.steps, i, changed);
      var refreshed, st := RefreshStep(api, pl.steps[i]);
      if !refreshed {
        return false, changed;
      }
      if st.phase != pl.steps[i].phase {
        changed := true;
      }
      pl.steps := pl.steps[i := st];
      i := i + 1;
    }
    assert before[..i] == before && after[..i] == after == pl.steps;
  }

  method UpdateStepStatusesOf(api: ApiServer, pl: Pipeline) returns (ok: bool)
    modifies api, pl`steps
    ensures Agrees(UpdateStepStatuses(Ctx(old(api.store), old(api.budget), old(pl.Status()))),
                   ok, api.store, api.budget, pl.Status())
  {
    var changed;
    ok, changed := RefreshSteps(api, pl);
    if ok && changed {
      ok := api.UpdateStatus(pl);
    }
  }

  method UpdateConditions(pl: Pipeline)
    modifies pl`conditions
    ensures pl.conditions == WithReady(old(pl.conditions), pl.phase)
  {
    var condition;
    match pl.phase {
      case Pending => condition := Condition(False, PipelinePhase.Pending);
      case Running => condition := Condition(False, PipelinePhase.Running);
      case Suspended => condition := Condition(False, PipelinePhase.Suspended);
      case Succeeded => condition := Condition(True, PipelinePhase.Succeeded);
      case Failed => condition := Condition(False, PipelinePhase.Failed);
      case Unset =>
        pl.conditions := pl.conditions["" := Condition(Unknown, PipelinePhase.Unset)];
        return;
    }
    pl.conditions := pl.conditions["Ready" := condition];
  }

  // ---- pipeline_dependencies.go

  /** The index of the first status entry with this name, or -1. */
  method GetStepStatus(pl: Pipeline, name: string) returns (k: int)
    ensures -1 <= k < |pl.steps|
    ensures k == -1 ==> forall j :: 0 <= j < |pl.steps| ==> pl.steps[j].name != name
    ensures k != -1 ==> pl.steps[k].name == name && forall j :: 0 <= j < k ==> pl.steps[j].name != name
  {
    k := 0;
    while k < |pl.steps|
      invariant 0 <= k <= |pl.steps|
      invariant forall j :: 0 <= j < k ==> pl.steps[j].name != name
    {
      if pl.steps[k].name == name {
        return;
      }
      k := k + 1;
    }
    k := -1;
  }

  ghost predicate Answers(d: Decision, ready: bool, shouldSkip: bool) {
    ready == d.Start? && shouldSkip == d.Skip?
  }

  method CheckSequentialExecution(pl: Pipeline, step: Step, ghost i: nat) returns (ready: bool, shouldSkip: bool)
    requires pl.Ready() && i < |pl.spec.steps| && pl.spec.steps[i] == step && step.runIf.None?
    ensures Answers(Decide(pl.spec, pl.PhaseList(), i), ready, shouldSkip)
  {
    SequentialRule(pl.spec, pl.PhaseList(), i);
    var stepIndex := -1;
    var k := 0;
    while k < |pl.spec.steps|
      invariant 0 <= k <= i && stepIndex == -1
    {
      if pl.spec.steps[k].name == step.name {
        stepIndex := k;
        break;
      }
      k := k + 1;
    }
    assert stepIndex == i;
    if stepIndex == 0 {
      return true, false;
    }
    var pendingSteps, failedSteps: seq<string> := [], [];
    k := 0;
    while k < stepIndex
      invariant 0 <= k <= stepIndex == i
      invariant pendingSteps != [] <==> exists j :: 0 <= j < k && pl.steps[j].phase.Waiting()
      invariant failedSteps != [] <==>
                exists j :: 0 <= j < k && (pl.steps[j].phase.Failed? || pl.steps[j].phase.Skipped?)
    {
      var prev := pl.spec.steps[k].name;
      var s := GetStepStatus(pl, prev);
      assert s == k;
      match pl.steps[s].phase {
        case Succeeded =>
        case Failed => failedSteps := failedSteps + [prev];
        case Skipped => failedSteps := failedSteps + [prev];
        case Pending => pendingSteps := pendingSteps + [prev];
        case Running => pendingSteps := pendingSteps + [prev];
        case Suspended =>
      }
      k := k + 1;
    }
    assert forall j :: 0 <= j < i ==> pl.PhaseList()[j] == pl.steps[j].phase;
    if |pendingSteps| > 0 {
      return false, false;
    }
    if |failedSteps| > 0 {
      return false, true;
    }
    return true, false;
  }

  /** The status entry a listed name resolves to. */
  ghost predicate Resolves(steps: seq<StepStatus>, name: string, j: int) {
    0 <= j < |steps| && steps[j].name == name
  }

  ghost predicate Finished(steps: seq<StepStatus>, name: string) {
    exists j :: Resolves(steps, name, j) && !steps[j].phase.Waiting()
  }

  ghost predicate Matched(steps: seq<StepStatus>, name: string, checkFailure: bool) {
    exists j :: Resolves(steps, name, j) && Matches(checkFailure, steps[j].phase)
  }

  ghost predicate AllComplete(steps: seq<StepStatus>, names: seq<string>) {
    forall k :: 0 <= k < |names| ==> Finished(steps, names[k])
  }

  ghost predicate AllMatch(steps: seq<StepStatus>, names: seq<string>, checkFailure: bool) {
    forall k :: 0 <= k < |names| ==> Matched(steps, names[k], checkFailure)
  }

  ghost predicate SomeMatch(steps: seq<StepStatus>, names: seq<string>, checkFailure: bool) {
    exists k :: 0 <= k < |names| && Matched(steps, names[k], checkFailure)
  }

  /** Number of entries of `names` that resolve to a step in the wanted phase; duplicates count each time. */
  ghost function MatchCount(steps: seq<StepStatus>, names: seq<string>, checkFailure: bool): (n: nat)
    ensures n <= |names|
  {
    if names == [] then 0
    else MatchCount(steps, names[..|names| - 1], checkFailure) +
         if Matched(steps, names[|names| - 1], checkFailure) then 1 else 0
  }

  /** Counting with duplicates is as good as quantifying: all entries match, or some entry matches. */
  lemma {:induction false} MatchCountQuantifies(steps: seq<StepStatus>, names: seq<string>, checkFailure: bool)
    ensures MatchCount(steps, names, checkFailure) == |names| <==> AllMatch(steps, names, checkFailure)
    ensures MatchCount(steps, names, checkFailure) > 0 <==> SomeMatch(steps, names, checkFailure)
  {
    if names != [] {
      var m := |names| - 1;
      var front := names[..m];
      MatchCountQuantifies(steps, front, checkFailure);
      assert forall k :: 0 <= k < m ==> front[k] == names[k];
      if SomeMatch(steps, front, checkFailure) {
        var k :| 0 <= k < m && Matched(steps, front[k], checkFailure);
        assert Matched(steps, names[k], checkFailure);
      }
      if SomeMatch(steps, names, checkFailure) {
        var k :| 0 <= k < |names| && Matched(steps, names[k], checkFailure);
        assert k < m ==> Matched(steps, front[k], checkFailure);
      }
    }
  }

  /** What one listed name adds to the count and to completeness, in terms of the entry it resolves to, if any. */
  lemma CheckTurn(steps: seq<StepStatus>, names: seq<string>, k: nat, s: int, checkFailure: bool)
    requires k < |names| && -1 <= s < |steps|
    requires forall i, j :: 0 <= i < j < |steps| ==> steps[i].name != steps[j].name
    requires s == -1 ==> forall j :: 0 <= j < |steps| ==> steps[j].name != names[k]
    requires s != -1 ==> steps[s].name == names[k]
    ensures AllComplete(steps, names[..k + 1]) <==>
            AllComplete(steps, names[..k]) && s != -1 && !steps[s].phase.Waiting()
    ensures MatchCount(steps, names[..k + 1], checkFailure) ==
            MatchCount(steps, names[..k], checkFailure) +
            if s != -1 && Matches(checkFailure, steps[s].phase) then 1 else 0
  {
    var longer := names[..k + 1];
    assert longer[..k] == names[..k] && longer[k] == names[k];
    if s != -1 {
      assert Resolves(steps, names[k], s);
      assert forall j :: Resolves(steps, names[k], j) ==> j == s;
    }
    assert Finished(steps, names[k]) <==> s != -1 && !steps[s].phase.Waiting();
    AllCompleteGrows(steps, names, k);
  }

  lemma AllCompleteGrows(steps: seq<StepStatus>, names: seq<string>, k: nat)
    requires k < |names|
    ensures AllComplete(steps, names[..k + 1]) <==> AllComplete(steps, names[..k]) && Finished(steps, names[k])
  {
    assert forall j :: 0 <= j < k ==> names[..k + 1][j] == names[..k][j];
    assert names[..k + 1][k] == names[k];
  }

  method CheckStepStatuses(pl: Pipeline, names: seq<string>, checkAll: bool, checkFailure: bool)
    returns (conditionMet: bool, allComplete: bool)
    requires pl.Ready()
    ensures allComplete == AllComplete(pl.steps, names)
    ensures conditionMet == (allComplete &&
              if checkAll then AllMatch(pl.steps, names, checkFailure) else SomeMatch(pl.steps, names, checkFailure))
  {
    allComplete := true;
    var matchCount := 0;
    var k := 0;
    while k < |names|
      invariant 0 <= k <= |names|
      invariant allComplete == AllComplete(pl.steps, names[..k])
      invariant matchCount == MatchCount(pl.steps, names[..k], checkFailure)
    {
      var s := GetStepStatus(pl, names[k]);
      CheckTurn(pl.steps, names, k, s, checkFailure);
      if s == -1 {
        allComplete := false;
      } else {
        match pl.steps[s].phase {
          case Succeeded => if !checkFailure { matchCount := matchCount + 1; }
          case Failed => if checkFailure { matchCount := matchCount + 1; }
          case Skipped =>
          case Pending => allComplete := false;
          case Running => allComplete := false;
          case Suspended =>
        }
      }
      k := k + 1;
    }
    assert names[..k] == names;
    MatchCountQuantifies(pl.steps, names, checkFailure);
    if !allComplete {
      return false, false;
    }
    conditionMet := if checkAll then matchCount == |names| else matchCount > 0;
  }

  method CheckConditionalExecution(pl: Pipeline, step: Step, ghost i: nat) returns (ready: bool, shouldSkip: bool)
    requires pl.Ready() && i < |pl.spec.steps| && pl.spec.steps[i] == step && step.runIf.Some?
    ensures Answers(Decide(pl.spec, pl.PhaseList(), i), ready, shouldSkip)
  {
    var r := step.runIf.value;
    var conditionMet, allComplete := CheckStepStatuses(pl, r.steps, r.RequiresAll(), r.IsCheckingFailure());
    BlockedByName(pl.spec, pl.steps, i);
    if !allComplete {
      return false, false;
    }
    StartByName(pl.spec, pl.steps, i);
    if !conditionMet {
      return false, true;
    }
    return true, false;
  }

  /** Waiting for the listed names is waiting for the steps they name. */
  lemma BlockedByName(p: Spec, steps: seq<StepStatus>, i: nat)
    requires UniqueNames(p) && Aligned(p, steps) && i < |p.steps| && p.steps[i].runIf.Some?
    ensures !Blocked(p, Phases(p, steps), i) <==> AllComplete(steps, p.steps[i].runIf.value.steps)
  {
    var ph, names := Phases(p, steps), p.steps[i].runIf.value.steps;
    if !Blocked(p, ph, i) {
      forall k | 0 <= k < |names|
        ensures Finished(steps, names[k])
      {
        assert names[k] in names && Known(p, names[k]);
        var j :| 0 <= j < |p.steps| && p.steps[j].name == names[k];
        assert Dep(p, i, j) && Resolves(steps, names[k], j);
      }
    }
    if AllComplete(steps, names) {
      forall name | name in names
        ensures Known(p, name)
      {
        var k :| 0 <= k < |names| && names[k] == name;
        assert Finished(steps, names[k]);
      }
      forall j | 0 <= j < |ph| && Dep(p, i, j)
        ensures !ph[j].Waiting()
      {
        var k :| 0 <= k < |names| && names[k] == p.steps[j].name;
        assert Finished(steps, names[k]);
      }
    }
  }

  /** A finished listed name stands for exactly one step. */
  lemma ListedStep(p: Spec, steps: seq<StepStatus>, i: nat, k: nat, fail: bool) returns (j: nat)
    requires UniqueNames(p) && Aligned(p, steps) && i < |p.steps| && p.steps[i].runIf.Some?
    requires k < |p.steps[i].runIf.value.steps| && Finished(steps, p.steps[i].runIf.value.steps[k])
    ensures j < |p.steps| && p.steps[j].name == p.steps[i].runIf.value.steps[k] && Dep(p, i, j)
    ensures Matched(steps, p.steps[i].runIf.value.steps[k], fail) <==> Matches(fail, Phases(p, steps)[j])
  {
    var name := p.steps[i].runIf.value.steps[k];
    j :| Resolves(steps, name, j);
    assert forall j' :: Resolves(steps, name, j') ==> j' == j;
  }

  /** Matching the listed names is matching the steps they name. */
  lemma StartByName(p: Spec, steps: seq<StepStatus>, i: nat)
    requires UniqueNames(p) && Aligned(p, steps) && i < |p.steps| && p.steps[i].runIf.Some?
    requires AllComplete(steps, p.steps[i].runIf.value.steps)
    ensures var r := p.steps[i].runIf.value;
            StartCondition(p, Phases(p, steps), i) ==
            if r.RequiresAll() then AllMatch(steps, r.steps, r.IsCheckingFailure())
            else SomeMatch(steps, r.steps, r.IsCheckingFailure())
  {
    var ph, names, fail := Phases(p, steps), p.steps[i].runIf.value.steps, p.steps[i].runIf.value.IsCheckingFailure();
    forall k | 0 <= k < |names|
      ensures Matched(steps, names[k], fail) ==> exists j :: 0 <= j < |ph| && Dep(p, i, j) && Matches(fail, ph[j])
      ensures !Matched(steps, names[k], fail) ==> exists j :: 0 <= j < |ph| && Dep(p, i, j) && !Matches(fail, ph[j])
    {
      var j := ListedStep(p, steps, i, k, fail);
    }
    forall j | 0 <= j < |ph| && Dep(p, i, j)
      ensures Matches(fail, ph[j]) ==> SomeMatch(steps, names, fail)
      ensures !Matches(fail, ph[j]) ==> !AllMatch(steps, names, fail)
    {
      var k :| 0 <= k < |names| && names[k] == p.steps[j].name;
      var j' := ListedStep(p, steps, i, k, fail);
      assert j' == j;
    }
  }

  method AreDependenciesSatisfied(pl: Pipeline, step: Step, ghost i: nat) returns (ready: bool, shouldSkip: bool)
    requires pl.Ready() && i < |pl.spec.steps| && pl.spec.steps[i] == step
    ensures Answers(Decide(pl.spec, pl.PhaseList(), i), ready, shouldSkip)
  {
    if step.HasConditionalExecution() {
      ready, shouldSkip := CheckConditionalExecution(pl, step, i);
    } else {
      ready, shouldSkip := CheckSequentialExecution(pl, step, i);
    }
  }

  method HasPendingFailureHandlers(pl: Pipeline) returns (found: bool)
    requires pl.Ready()
    ensures found == PendingHandler(pl.spec, pl.steps)
  {
    var pendingHandlers: seq<string> := [];
    var i := 0;
    while i < |pl.spec.steps|
      invariant 0 <= i <= |pl.spec.steps|
      invariant pendingHandlers != [] <==>
                exists k :: 0 <= k < i && pl.steps[k].phase.Pending? && pl.spec.steps[k].HandlesFailure()
    {
      var step := pl.spec.steps[i];
      var s := GetStepStatus(pl, step.name);
      assert s == i;
      if pl.steps[s].phase == StepPhase.Pending {
        if step.runIf.Some? && step.runIf.value.IsCheckingFailure() {
          pendingHandlers := pendingHandlers + [step.name];
        }
      }
      i := i + 1;
    }
    found := |pendingHandlers| > 0;
  }

  // ---- pipeline_reconciler.go

  datatype PipelineState = PipelineState(
    allSucceeded: bool, anyFailed: bool, anyRunning: bool, anyPending: bool, anySuspended: bool,
    suspendedSteps: seq<string>, hasPendingFailureHandlers: bool)

  method AnalyzePipelineState(pl: Pipeline) returns (state: PipelineState)
    requires pl.Ready()
    ensures state.allSucceeded <==> AllDone(pl.steps)
    ensures state.anyFailed <==> Any(pl.steps, StepPhase.Failed)
    ensures state.anyRunning <==> Any(pl.steps, StepPhase.Running)
    ensures state.anyPending <==> Any(pl.steps, StepPhase.Pending)
    ensures state.anySuspended <==> Any(pl.steps, StepPhase.Suspended)
    ensures forall name :: name in state.suspendedSteps <==>
            exists k :: 0 <= k < |pl.steps| && pl.steps[k].phase.Suspended? && pl.steps[k].name == name
    ensures state.hasPendingFailureHandlers <==> state.anyFailed && PendingHandler(pl.spec, pl.steps)
  {
    var allSucceeded, anyFailed, anyRunning, anyPending, anySuspended := true, false, false, false, false;
    var suspendedSteps: seq<string> := [];
    var i := 0;
    while i < |pl.steps|
      invariant 0 <= i <= |pl.steps|
      invariant allSucceeded <==> AllDone(pl.steps[..i])
      invariant anyFailed <==> Any(pl.steps[..i], StepPhase.Failed)
      invariant anyRunning <==> Any(pl.steps[..i], StepPhase.Running)
      invariant anyPending <==> Any(pl.steps[..i], StepPhase.Pending)
      invariant anySuspended <==> Any(pl.steps[..i], StepPhase.Suspended)
      invariant forall name :: name in suspendedSteps <==>
                exists k :: 0 <= k < i && pl.steps[k].phase.Suspended? && pl.steps[k].name == name
    {
      assert pl.steps[..i + 1] == pl.steps[..i] + [pl.steps[i]];
      AnyGrows(pl.steps[..i], pl.steps[i]);
      match pl.steps[i].phase {
        case Succeeded =>
        case Skipped =>
        case Failed => anyFailed, allSucceeded := true, false;
        case Running => anyRunning, allSucceeded := true, false;
        case Pending => anyPending, allSucceeded := true, false;
        case Suspended =>
          anySuspended, allSucceeded := true, false;
          suspendedSteps := suspendedSteps + [pl.steps[i].name];
      }
      i := i + 1;
    }
    assert pl.steps[..i] == pl.steps;
    var handlers := false;
    if anyPending && anyFailed {
      handlers := HasPendingFailureHandlers(pl);
    }
    state := PipelineState(allSucceeded, anyFailed, anyRunning, anyPending, anySuspended, suspendedSteps, handlers);
  }

  lemma AnyGrows(steps: seq<StepStatus>, st: StepStatus)
    ensures forall phase :: Any(steps + [st], phase) <==> Any(steps, phase) || st.phase == phase
    ensures AllDone(steps + [st]) <==> AllDone(steps) && (st.phase.Succeeded? || st.phase.Skipped?)
  {
    var all := steps + [st];
    assert all[|steps|] == st && forall i :: 0 <= i < |steps| ==> all[i] == steps[i];
  }

  method UpdatePipelinePhaseOf(api: ApiServer, pl: Pipeline, state: PipelineState, now: int) returns (ok: bool)
    requires pl.Ready()
    requires state.allSucceeded <==> AllDone(pl.steps)
    requires state.anyFailed <==> Any(pl.steps, StepPhase.Failed)
    requires state.anyRunning <==> Any(pl.steps, StepPhase.Running)
    requires state.anySuspended <==> Any(pl.steps, StepPhase.Suspended)
    requires state.hasPendingFailureHandlers <==> state.anyFailed && PendingHandler(pl.spec, pl.steps)
    modifies api, pl`phase, pl`completionTime, pl`conditions
    ensures Agrees(UpdatePipelinePhase(pl.spec, Ctx(old(api.store), old(api.budget), old(pl.Status())), now),
                   ok, api.store, api.budget, pl.Status())
  {
    var oldPhase := pl.phase;
    if state.anySuspended && !state.anyRunning {
      pl.phase := PipelinePhase.Suspended;
    } else if state.anyFailed && !state.anyRunning && !state.anySuspended && !state.hasPendingFailureHandlers {
      pl.phase := PipelinePhase.Failed;
      if pl.completionTime == None {
        pl.completionTime := Some(now);
      }
    } else if state.allSucceeded {
      pl.phase := PipelinePhase.Succeeded;
      if pl.completionTime == None {
        pl.completionTime := Some(now);
      }
    } else if state.anyRunning || state.hasPendingFailureHandlers {
      pl.phase := PipelinePhase.Running;
    }
    UpdateConditions(pl);
    ok := true;
    if oldPhase != pl.phase {
      ok := api.UpdateStatus(pl);
    }
  }

  method InitializeStepStatuses(api: ApiServer, pl: Pipeline) returns (ok: bool)
    requires pl.steps == []
    modifies api, pl`steps
    ensures Agrees(Initialise(pl.spec, Ctx(old(api.store), old(api.budget), old(pl.Status()))),
                   ok, api.store, api.budget, pl.Status())
  {
    var i := 0;
    while i < |pl.spec.steps|
      invariant 0 <= i <= |pl.spec.steps|
      invariant pl.steps == FreshSteps(pl.spec)[..i]
      invariant api.store == old(api.store) && api.budget == old(api.budget)
    {
      pl.steps := pl.steps + [StepStatus(pl.spec.steps[i].name, StepPhase.Pending, "", None)];
      i := i + 1;
    }
    ok := api.UpdateStatus(pl);
  }

  // ---- pipeline_jobs.go

  method CreateJobForStep(api: ApiServer, pl: Pipeline, step: Step, i: nat) returns (ok: bool)
    requires pl.Ready() && i < |pl.spec.steps| && pl.spec.steps[i] == step
    modifies api, pl`steps
    ensures pl.steps == old(pl.steps)[i := old(pl.steps)[i].(jobName := JobName(pl.spec, i))]
    ensures Agrees(CreateJob(Ctx(old(api.store), old(api.budget), pl.Status()), JobName(pl.spec, i), pl.spec.name),
                   ok, api.store, api.budget, pl.Status())
  {
    var jobName := pl.spec.name + "-" + step.name;
    pl.steps := pl.steps[i := pl.steps[i].(jobName := jobName)];
    ok := api.Create(jobName, pl.spec.name, pl.Status());
  }

  /** One turn of the loop of startReadySteps. */
  method TryStep(api: ApiServer, pl: Pipeline, i: nat) returns (ok: bool)
    requires pl.Ready() && i < |pl.spec.steps|
    modifies api, pl`steps
    ensures Agrees(HandleStep(pl.spec, Ctx(old(api.store), old(api.budget), old(pl.Status())), i),
                   ok, api.store, api.budget, pl.Status())
    ensures pl.Ready()
  {
    ok := true;
    var step := pl.spec.steps[i];
    var s := GetStepStatus(pl, step.name);
    assert s == i;
    if pl.steps[s].phase != StepPhase.Pending {
      return;
    }
    var ready, shouldSkip := AreDependenciesSatisfied(pl, step, i);
    if shouldSkip {
      pl.steps := pl.steps[s := pl.steps[s].(phase := StepPhase.Skipped)];
      ok := api.UpdateStatus(pl);
    } else if ready {
      ok := CreateJobForStep(api, pl, step, s);
      if ok {
        pl.steps := pl.steps[s := pl.steps[s].(phase := StepPhase.Running)];
        ok := api.UpdateStatus(pl);
      }
    }
  }

  method StartReadySteps(api: ApiServer, pl: Pipeline) returns (ok: bool)
    requires pl.Ready()
    modifies api, pl`steps
    ensures Agrees(StartFrom(pl.spec, Ctx(old(api.store), old(api.budget), old(pl.Status())), 0),
                   ok, api.store, api.budget, pl.Status())
    ensures pl.Ready()
  {
    ghost var whole := StartFrom(pl.spec, Ctx(api.store, api.budget, pl.Status()), 0);
    var i := 0;
    while i < |pl.spec.steps|
      invariant 0 <= i <= |pl.spec.steps|
      invariant pl.Ready()
      invariant whole == StartFrom(pl.spec, Ctx(api.store, api.budget, pl.Status()), i)
    {
      ok := TryStep(api, pl, i);
      if !ok {
        return;
      }
      i := i + 1;
    }
    ok := true;
  }

  // ---- reconcileDelete, reconcilePipeline, Reconcile

  /** The label query: the names of all Jobs of this pipeline, in some order, each once. */
  ghost predicate Lists(p: Spec, jobs: map<string, Job>, listed: seq<string>) {
    && (forall name :: name in listed <==> name in Owned(p, jobs))
    && forall i, j :: 0 <= i < j < |listed| ==> listed[i] != listed[j]
  }

  method ReconcileDeletePass(api: ApiServer, p: Spec, listed: seq<string>) returns (answer: Answer)
    requires Lists(p, api.store.jobs, listed)
    modifies api
    ensures Outcome(api.store, answer) == ReconcileDelete(p, old(api.store), old(api.budget), listed)
  {
    if api.store.finalizer {
      if api.budget.Spent() {
        return Error;
      }
      api.budget := api.budget.Spend();
      ghost var jobs0, b0 := api.store.jobs, api.budget;
      var i := 0;
      while i < |listed|
        invariant 0 <= i <= |listed|
        invariant b0.Covers(i) && api.budget == b0.SpendMany(i)
        invariant api.store == old(api.store).(jobs := DeleteAll(jobs0, listed[..i]))
      {
        if api.budget.Spent() {
          return Error;
        }
        api.budget := api.budget.Spend();
        DeleteAllSplit(jobs0, listed[..i], listed[i]);
        assert listed[..i + 1] == listed[..i] + [listed[i]];
        api.store := api.store.(jobs := api.store.jobs - {listed[i]});
        i := i + 1;
      }
      assert listed[..i] == listed;
      if api.budget.Spent() {
        return Error;
      }
      api.budget := api.budget.Spend();
      api.store := api.store.(finalizer := false, present := false);
    }
    answer := Stop;
  }

  lemma {:induction false} DeleteAllSplit(jobs: map<string, Job>, names: seq<string>, last: string)
    ensures DeleteAll(jobs, names + [last]) == DeleteAll(jobs, names) - {last}
  {
    if names == [] {
      assert DeleteAll(jobs, [last]) == DeleteAll(jobs - {last}, []);
    } else {
      assert (names + [last])[1..] == names[1..] + [last];
      DeleteAllSplit(jobs - {names[0]}, names[1..], last);
    }
  }

  /** The second half of reconcilePipeline: verdict, then, unless it is final, the walk. */
  method JudgeAndStartPass(api: ApiServer, pl: Pipeline, now: int) returns (answer: Answer)
    requires pl.Ready()
    modifies api, pl
    ensures Outcome(api.store, answer) ==
            JudgeAndStart(pl.spec, Ctx(old(api.store), old(api.budget), old(pl.Status())), now)
  {
    var state := AnalyzePipelineState(pl);
    var judged := UpdatePipelinePhaseOf(api, pl, state, now);
    if !judged {
      return Error;
    }
    if pl.phase == PipelinePhase.Succeeded || pl.phase == PipelinePhase.Failed {
      return Stop;
    }
    var started := StartReadySteps(api, pl);
    if !started {
      return Error;
    }
    answer := RequeueLater;
  }

  method ReconcilePipelinePass(api: ApiServer, pl: Pipeline, now: int) returns (answer: Answer)
    requires UniqueNames(pl.spec) && (pl.steps == [] || Aligned(pl.spec, pl.steps))
    modifies api, pl
    ensures Outcome(api.store, answer) ==
            ReconcilePipeline(pl.spec, Ctx(old(api.store), old(api.budget), old(pl.Status())), now)
  {
    if |pl.steps| == 0 {
      var initialised := InitializeStepStatuses(api, pl);
      if !initialised {
        return Error;
      }
    }
    var observed := UpdateStepStatusesOf(api, pl);
    if !observed {
      return Error;
    }
    answer := JudgeAndStartPass(api, pl, now);
  }

  method ReconcilePass(api: ApiServer, p: Spec, listed: seq<string>, now: int) returns (answer: Answer)
    requires UniqueNames(p) && (api.store.status.steps == [] || Aligned(p, api.store.status.steps))
    requires Lists(p, api.store.jobs, listed)
    modifies api
    ensures Outcome(api.store, answer) == Reconcile(p, old(api.store), old(api.budget), listed, now)
  {
    if api.budget.Spent() {
      return Error;
    }
    api.budget := api.budget.Spend();
    if !api.store.present {
      return Stop;
    }
    var pl := new Pipeline(p, api.store.status);
    if api.store.deleting {
      answer := ReconcileDeletePass(api, p, listed);
      return;
    }
    if !api.store.finalizer {
      if api.budget.Spent() {
        return Error;
      }
      api.budget := api.budget.Spend();
      api.store := api.store.(finalizer := true);
    }
    if pl.phase == PipelinePhase.Unset {
      pl.phase := PipelinePhase.Pending;
      pl.startTime := Some(now);
      var written := api.UpdateStatus(pl);
      return if written then Requeue else Error;
    }
    if pl.phase == PipelinePhase.Succeeded || pl.phase == PipelinePhase.Failed {
      return Stop;
    }
    answer := ReconcilePipelinePass(api, pl, now);
  }
}
