/** The custom resource of api/v1/pipeline_types.go and the part of a Job that the controller reads. */
module PipelineTypes {

  datatype Option<+T> = None | Some(value: T)

  datatype ConditionType = DefaultCondition | OnSuccess | OnFail
  datatype Operator = DefaultOperator | And | Or

  datatype RunIf = RunIf(condition: ConditionType, operator: Operator, steps: seq<string>) {
    function GetCondition(): ConditionType {
      if condition.DefaultCondition? then OnSuccess else condition
    }

    function GetOperator(): Operator {
      if operator.DefaultOperator? then And else operator
    }

    predicate IsCheckingFailure() {
      GetCondition() == OnFail
    }

    predicate RequiresAll() {
      GetOperator() == And
    }
  }

  datatype Step = Step(name: string, runIf: Option<RunIf>) {
    predicate HasConditionalExecution() {
      runIf.Some?
    }

    /** A step that exists to react to a failure. */
    predicate HandlesFailure() {
      runIf.Some? && runIf.value.IsCheckingFailure()
    }
  }

  /** A pipeline's name and its steps in list order; fixed while the pipeline runs. */
  datatype Spec = Spec(name: string, steps: seq<Step>)

  /** A step name identifies one step. */
  ghost predicate UniqueNames(p: Spec) {
    forall i, j :: 0 <= i < j < |p.steps| ==> p.steps[i].name != p.steps[j].name
  }

  datatype StepPhase = Pending | Running | Suspended | Succeeded | Failed | Skipped {
    predicate Terminal() {
      Succeeded? || Failed? || Skipped?
    }

    /** A Job was created for the step. */
    predicate Started() {
      Running? || Suspended? || Succeeded? || Failed?
    }

    /** The phases that both dependency switches treat as unfinished; Suspended is in neither switch. */
    predicate Waiting() {
      Pending? || Running?
    }
  }

  datatype PipelinePhase = Unset | Pending | Running | Suspended | Succeeded | Failed {
    predicate Terminal() {
      Succeeded? || Failed?
    }
  }

  datatype ConditionStatus = True | False | Unknown

  // ---- Jobs

  datatype JobConditionType = Complete | JobFailed | JobSuspended | OtherType
  datatype JobCondition = JobCondition(kind: JobConditionType, status: ConditionStatus)
  datatype JobStatus = JobStatus(conditions: seq<JobCondition>, active: int)

  /** `owner` is the pipeline label the controller puts on the Jobs it creates. */
  datatype Job = Job(owner: string, status: JobStatus)

  const NEW_JOB_STATUS := JobStatus([], 0)

  /** Every Job carries the pipeline's name and the step's name. */
  function JobName(p: Spec, i: nat): (name: string)
    requires i < |p.steps|
  {
    p.name + "-" + p.steps[i].name
  }

  /** Within one pipeline, different steps never share a Job name. */
  lemma JobNameInjective(p: Spec, i: nat, j: nat)
    requires UniqueNames(p) && i < |p.steps| && j < |p.steps|
    ensures JobName(p, i) == JobName(p, j) <==> i == j
  {
    var pre := |p.name| + 1;
    assert JobName(p, i)[pre..] == p.steps[i].name;
    assert JobName(p, j)[pre..] == p.steps[j].name;
  }

  /** Name `a` continued by the separator is the beginning of name `b`. */
  predicate Extends(a: string, b: string) {
    a + "-" <= b
  }

  /** When the Jobs of step `s` of pipeline `a` and step `t` of pipeline `b` want the same name: they are the same
      step, or the longer pipeline name extends the shorter one and the rest of it is the beginning of the other
      step's name. */
  lemma CollisionExact(a: string, s: string, b: string, t: string)
    requires |a| <= |b|
    ensures a + "-" + s == b + "-" + t <==>
            (a == b && s == t) || (Extends(a, b) && s == b[|a| + 1..] + "-" + t)
  {
    var left, right := a + "-" + s, b + "-" + t;
    var m, n := |a| + 1, |b| + 1;
    assert left[m..] == s && right[n..] == t && left[..m] == a + "-" && right[..n] == b + "-";
    if left == right {
      if |a| == |b| {
        assert a == left[..|a|] == right[..|b|] == b;
      } else {
        assert b == right[..|b|] == left[..|b|];
        assert b[..m] == left[..m] == a + "-";
        assert s == right[m..] == b[m..] + "-" + t;
      }
    }
    if Extends(a, b) && s == b[m..] + "-" + t {
      assert b == b[..m] + b[m..] && b[..m] == a + "-";
      assert left == b + "-" + t;
    }
  }

  /** Two pipelines can want the same Job name, for some choice of steps, exactly when they have the same name or one
      name extends the other. */
  lemma PipelinesCollideExact(a: string, b: string)
    ensures (exists s, t :: a + "-" + s == b + "-" + t) <==> a == b || Extends(a, b) || Extends(b, a)
  {
    if s, t :| a + "-" + s == b + "-" + t {
      if |a| <= |b| {
        CollisionExact(a, s, b, t);
      } else {
        CollisionExact(b, t, a, s);
      }
    }
    if a == b {
      assert a + "-" + "" == b + "-" + "";
    } else if Extends(a, b) {
      CollisionExact(a, b[|a| + 1..] + "-" + "", b, "");
    } else if Extends(b, a) {
      CollisionExact(b, a[|b| + 1..] + "-" + "", a, "");
    }
  }

  /** So the Jobs of two pipelines never meet, whatever their steps, unless one pipeline's name extends the other's. */
  lemma JobNamesDisjoint(p: Spec, q: Spec, i: nat, j: nat)
    requires p.name != q.name && !Extends(p.name, q.name) && !Extends(q.name, p.name)
    requires i < |p.steps| && j < |q.steps|
    ensures JobName(p, i) != JobName(q, j)
  {
    PipelinesCollideExact(p.name, q.name);
  }

  /** An instance of the collision: step b-c of pipeline a and step c of pipeline a-b. */
  lemma JobNamesCollideAcrossPipelines()
    ensures JobName(Spec("a", [Step("b-c", None)]), 0) == JobName(Spec("a-b", [Step("c", None)]), 0)
  {
    CollisionExact("a", "b-c", "a-b", "c");
  }

  // ---- Status

  datatype StepStatus = StepStatus(name: string, phase: StepPhase, jobName: string, jobStatus: Option<JobStatus>)

  datatype Condition = Condition(status: ConditionStatus, reason: PipelinePhase)

  datatype Status = Status(
    phase: PipelinePhase,
    startTime: Option<int>,
    completionTime: Option<int>,
    steps: seq<StepStatus>,
    conditions: map<string, Condition>)

  /** One status entry per step of the spec, in the same order. */
  ghost predicate Aligned(p: Spec, steps: seq<StepStatus>) {
    && |steps| == |p.steps|
    && forall i :: 0 <= i < |steps| ==> steps[i].name == p.steps[i].name
  }

  /** The phase of every step of the spec; a step without an entry yet is Pending. */
  function Phases(p: Spec, steps: seq<StepStatus>): (r: seq<StepPhase>)
    ensures |r| == |p.steps|
    ensures forall i :: 0 <= i < |r| ==> r[i] == if i < |steps| then steps[i].phase else StepPhase.Pending
  {
    seq(|p.steps|, i requires 0 <= i < |p.steps| => if i < |steps| then steps[i].phase else StepPhase.Pending)
  }
}
