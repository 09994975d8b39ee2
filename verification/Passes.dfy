/** What one reconcile pass computes: a function of the persisted state, the reachable Jobs, the clock and the
    number of API calls that succeed before the first failing one. */
module Passes {
  import opened PipelineTypes
  import opened Scheduling

  /** What the API server holds: the pipeline object (while `present`) and the Jobs of its namespace. */
  datatype Store = Store(present: bool, deleting: bool, finalizer: bool, status: Status, jobs: map<string, Job>)

  /** How many more API calls of this pass succeed. A call whose effect lands but whose reply is lost leaves the
      same store as a failure of the call after it. */
  datatype Budget = Unlimited | Limited(calls: nat) {
    predicate Spent() {
      this == Limited(0)
    }

    function Spend(): Budget
      requires !Spent()
    {
      if Unlimited? then Unlimited else Limited(calls - 1)
    }

    predicate Covers(n: nat) {
      Unlimited? || n <= calls
    }

    function SpendMany(n: nat): Budget
      requires Covers(n)
    {
      if Unlimited? then Unlimited else Limited(calls - n)
    }
  }

  /** A pass in progress: the store, the remaining budget, and the in-memory copy of the status. */
  datatype Ctx = Ctx(store: Store, budget: Budget, mem: Status)

  /** An error drops the in-memory copy. */
  datatype Result = Ok(c: Ctx) | Err(s: Store) {
    function Final(): Store {
      if Ok? then c.store else s
    }
  }

  function Write(c: Ctx): Result {
    if c.budget.Spent() then Err(c.store)
    else Ok(Ctx(c.store.(status := c.mem), c.budget.Spend(), c.mem))
  }

  /** Creating a Job is refused when the name is taken. */
  function CreateJob(c: Ctx, name: string, owner: string): Result {
    if c.budget.Spent() || name in c.store.jobs then Err(c.store)
    else Ok(c.(store := c.store.(jobs := c.store.jobs[name := Job(owner, NEW_JOB_STATUS)]), budget := c.budget.Spend()))
  }

  // ---- pipeline_status.go

  /** The first condition that is True and decides, in list order. */
  function FirstTrue(conditions: seq<JobCondition>): Option<StepPhase> {
    if conditions == [] then None
    else if conditions[0].status.True? && !conditions[0].kind.OtherType? then Some(PhaseOfCondition(conditions[0].kind))
    else FirstTrue(conditions[1..])
  }

  function PhaseOfCondition(kind: JobConditionType): StepPhase {
    match kind
    case Complete => StepPhase.Succeeded
    case JobFailed => StepPhase.Failed
    case _ => StepPhase.Suspended
  }

  function ObservedPhase(job: JobStatus, current: StepPhase): StepPhase {
    match FirstTrue(job.conditions)
    case Some(phase) => phase
    case None => if job.active > 0 then StepPhase.Running else current
  }

  function ObserveStep(st: StepStatus, jobs: map<string, Job>): StepStatus {
    if st.jobName == "" || st.jobName !in jobs then st
    else st.(jobStatus := Some(jobs[st.jobName].status), phase := ObservedPhase(jobs[st.jobName].status, st.phase))
  }

  function Observe(steps: seq<StepStatus>, jobs: map<string, Job>): (r: seq<StepStatus>)
    ensures |r| == |steps|
    ensures forall i :: 0 <= i < |r| ==> r[i] == ObserveStep(steps[i], jobs)
  {
    seq(|steps|, i requires 0 <= i < |steps| => ObserveStep(steps[i], jobs))
  }

  /** Number of Jobs that an observation fetches. */
  function Tracked(steps: seq<StepStatus>): nat {
    if steps == [] then 0
    else Tracked(steps[..|steps| - 1]) + if steps[|steps| - 1].jobName == "" then 0 else 1
  }

  predicate SamePhases(a: seq<StepStatus>, b: seq<StepStatus>)
    requires |a| == |b|
  {
    forall i :: 0 <= i < |a| ==> a[i].phase == b[i].phase
  }

  /** Fetch every tracked Job, then write once if some phase changed. */
  function UpdateStepStatuses(c: Ctx): Result {
    var n := Tracked(c.mem.steps);
    if !c.budget.Covers(n) then Err(c.store)
    else
      var mem := c.mem.(steps := Observe(c.mem.steps, c.store.jobs));
      var c' := Ctx(c.store, c.budget.SpendMany(n), mem);
      if SamePhases(c.mem.steps, mem.steps) then Ok(c') else Write(c')
  }

  // ---- pipeline_reconciler.go

  predicate Any(steps: seq<StepStatus>, phase: StepPhase) {
    exists i :: 0 <= i < |steps| && steps[i].phase == phase
  }

  predicate AllDone(steps: seq<StepStatus>) {
    forall i :: 0 <= i < |steps| ==> steps[i].phase.Succeeded? || steps[i].phase.Skipped?
  }

  /** A Pending step with a fail condition. */
  predicate PendingHandler(p: Spec, steps: seq<StepStatus>)
    requires Aligned(p, steps)
  {
    exists i :: 0 <= i < |steps| && steps[i].phase.Pending? && p.steps[i].HandlesFailure()
  }

  /** The verdict on the observed steps; an undecided pipeline keeps its phase. */
  function NextPhase(p: Spec, steps: seq<StepStatus>, before: PipelinePhase): PipelinePhase
    requires Aligned(p, steps)
  {
    var failed := Any(steps, StepPhase.Failed);
    var running := Any(steps, StepPhase.Running);
    var suspended := Any(steps, StepPhase.Suspended);
    var handlers := failed && PendingHandler(p, steps);
    if suspended && !running then PipelinePhase.Suspended
    else if failed && !running && !suspended && !handlers then PipelinePhase.Failed
    else if AllDone(steps) then PipelinePhase.Succeeded
    else if running || handlers then PipelinePhase.Running
    else before
  }

  /** The Ready condition that goes with a phase. */
  function ReadyFor(phase: PipelinePhase): Condition {
    Condition(if phase.Succeeded? then True else False, phase)
  }

  /** Before initialisation no case of the switch applies and an untyped, empty condition is stored. */
  function WithReady(conditions: map<string, Condition>, phase: PipelinePhase): map<string, Condition> {
    if phase.Unset? then conditions["" := Condition(Unknown, PipelinePhase.Unset)]
    else conditions["Ready" := ReadyFor(phase)]
  }

  function Judge(p: Spec, mem: Status, now: int): Status
    requires Aligned(p, mem.steps)
  {
    var phase := NextPhase(p, mem.steps, mem.phase);
    var decided := NextPhase(p, mem.steps, PipelinePhase.Unset).Terminal();
    mem.(phase := phase,
         completionTime := if decided && mem.completionTime.None? then Some(now) else mem.completionTime,
         conditions := WithReady(mem.conditions, phase))
  }

  function UpdatePipelinePhase(p: Spec, c: Ctx, now: int): Result
    requires Aligned(p, c.mem.steps)
  {
    var c' := c.(mem := Judge(p, c.mem, now));
    if c'.mem.phase == c.mem.phase then Ok(c') else Write(c')
  }

  function FreshSteps(p: Spec): (r: seq<StepStatus>)
    ensures |r| == |p.steps|
    ensures forall i :: 0 <= i < |r| ==> r[i] == StepStatus(p.steps[i].name, StepPhase.Pending, "", None)
  {
    seq(|p.steps|, i requires 0 <= i < |p.steps| => StepStatus(p.steps[i].name, StepPhase.Pending, "", None))
  }

  // ---- pipeline_jobs.go

  function SetPhase(mem: Status, i: nat, phase: StepPhase): Status
    requires i < |mem.steps|
  {
    mem.(steps := mem.steps[i := mem.steps[i].(phase := phase)])
  }

  function SetJobName(mem: Status, i: nat, name: string): Status
    requires i < |mem.steps|
  {
    mem.(steps := mem.steps[i := mem.steps[i].(jobName := name)])
  }

  /** What the walk does at step `i`. */
  function HandleStep(p: Spec, c: Ctx, i: nat): (r: Result)
    requires Aligned(p, c.mem.steps) && i < |p.steps|
    ensures r.Ok? ==> Aligned(p, r.c.mem.steps)
  {
    if !c.mem.steps[i].phase.Pending? then Ok(c)
    else
      match Decide(p, Phases(p, c.mem.steps), i)
      case Wait => Ok(c)
      case Skip => Write(c.(mem := SetPhase(c.mem, i, StepPhase.Skipped)))
      case Start =>
        var named := c.(mem := SetJobName(c.mem, i, JobName(p, i)));
        match CreateJob(named, JobName(p, i), p.name)
        case Err(s) => Err(s)
        case Ok(c') => Write(c'.(mem := SetPhase(c'.mem, i, StepPhase.Running)))
  }

  /** The walk over the steps from `i` on, in list order, on the current in-memory phases. */
  function StartFrom(p: Spec, c: Ctx, i: nat): (r: Result)
    requires Aligned(p, c.mem.steps) && i <= |p.steps|
    ensures r.Ok? ==> Aligned(p, r.c.mem.steps)
    decreases |p.steps| - i
  {
    if i == |p.steps| then Ok(c)
    else
      match HandleStep(p, c, i)
      case Err(s) => Err(s)
      case Ok(c') => StartFrom(p, c', i + 1)
  }

  /** What the controller tells the work queue. */
  datatype Answer = Error | Stop | Requeue | RequeueLater

  datatype Outcome = Outcome(store: Store, answer: Answer)

  function Initialise(p: Spec, c: Ctx): Result {
    if c.mem.steps == [] then Write(c.(mem := c.mem.(steps := FreshSteps(p)))) else Ok(c)
  }

  /** The second half of a pass: verdict, then, unless it is final, the walk. */
  function JudgeAndStart(p: Spec, c: Ctx, now: int): Outcome
    requires Aligned(p, c.mem.steps)
  {
    match UpdatePipelinePhase(p, c, now)
    case Err(s) => Outcome(s, Error)
    case Ok(c1) =>
      if c1.mem.phase.Terminal() then Outcome(c1.store, Stop)
      else
        match StartFrom(p, c1, 0)
        case Err(s) => Outcome(s, Error)
        case Ok(c2) => Outcome(c2.store, RequeueLater)
  }

  function ReconcilePipeline(p: Spec, c: Ctx, now: int): Outcome
    requires c.mem.steps == [] || Aligned(p, c.mem.steps)
  {
    match Initialise(p, c)
    case Err(s) => Outcome(s, Error)
    case Ok(c1) =>
      match UpdateStepStatuses(c1)
      case Err(s) => Outcome(s, Error)
      case Ok(c2) => JudgeAndStart(p, c2, now)
  }

  function Owned(p: Spec, jobs: map<string, Job>): set<string> {
    set name | name in jobs && jobs[name].owner == p.name
  }

  /** The Jobs still there after deleting a listed one after the other, as far as the budget goes. */
  function DeleteAll(jobs: map<string, Job>, names: seq<string>): map<string, Job> {
    if names == [] then jobs else DeleteAll(jobs - {names[0]}, names[1..])
  }

  /** `listed` is the server's answer to the label query. */
  function ReconcileDelete(p: Spec, s: Store, budget: Budget, listed: seq<string>): Outcome {
    if !s.finalizer then Outcome(s, Stop)
    else if budget.Spent() then Outcome(s, Error)
    else
      var b := budget.Spend();
      if !b.Covers(|listed|) then Outcome(s.(jobs := DeleteAll(s.jobs, listed[..b.calls])), Error)
      else
        var s' := s.(jobs := DeleteAll(s.jobs, listed));
        if b.SpendMany(|listed|).Spent() then Outcome(s', Error)
        else Outcome(s'.(finalizer := false, present := false), Stop)
  }

  function Reconcile(p: Spec, s: Store, budget: Budget, listed: seq<string>, now: int): Outcome
    requires s.status.steps == [] || Aligned(p, s.status.steps)
  {
    if budget.Spent() then Outcome(s, Error)
    else if !s.present then Outcome(s, Stop)
    else if s.deleting then ReconcileDelete(p, s, budget.Spend(), listed)
    else if !s.finalizer && budget.Spend().Spent() then Outcome(s, Error)
    else
      var b := if s.finalizer then budget.Spend() else budget.Spend().Spend();
      var s1 := s.(finalizer := true);
      if s.status.phase.Unset? then
        match Write(Ctx(s1, b, s.status.(phase := PipelinePhase.Pending, startTime := Some(now))))
        case Err(s2) => Outcome(s2, Error)
        case Ok(c) => Outcome(c.store, Requeue)
      else if s.status.phase.Terminal() then Outcome(s1, Stop)
      else ReconcilePipeline(p, Ctx(s1, b, s.status), now)
  }
}
