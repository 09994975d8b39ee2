/** The waiting rules of internal/controller/pipeline_dependencies.go, as a decision on the phases of all steps. */
module Scheduling {
  import opened PipelineTypes

  /** Step `i` looks at the phase of step `j`: every earlier step without runIf, the listed ones with it. */
  predicate Dep(p: Spec, i: nat, j: nat)
    requires i < |p.steps| && j < |p.steps|
  {
    match p.steps[i].runIf
    case None => j < i
    case Some(r) => p.steps[j].name in r.steps
  }

  predicate Known(p: Spec, name: string) {
    exists j :: 0 <= j < |p.steps| && p.steps[j].name == name
  }

  /** Step `i` lists a step that the pipeline does not have. */
  predicate Missing(p: Spec, i: nat)
    requires i < |p.steps|
  {
    p.steps[i].runIf.Some? && exists name :: name in p.steps[i].runIf.value.steps && !Known(p, name)
  }

  predicate Matches(checkFailure: bool, phase: StepPhase) {
    if checkFailure then phase.Failed? else phase.Succeeded?
  }

  predicate Blocked(p: Spec, ph: seq<StepPhase>, i: nat)
    requires |ph| == |p.steps| && i < |ph|
  {
    Missing(p, i) || exists j :: 0 <= j < |ph| && Dep(p, i, j) && ph[j].Waiting()
  }

  predicate StartCondition(p: Spec, ph: seq<StepPhase>, i: nat)
    requires |ph| == |p.steps| && i < |ph|
  {
    match p.steps[i].runIf
    case None => forall j :: 0 <= j < i ==> !ph[j].Failed? && !ph[j].Skipped?
    case Some(r) =>
      if r.RequiresAll() then
        forall j :: 0 <= j < |ph| && Dep(p, i, j) ==> Matches(r.IsCheckingFailure(), ph[j])
      else
        exists j :: 0 <= j < |ph| && Dep(p, i, j) && Matches(r.IsCheckingFailure(), ph[j])
  }

  datatype Decision = Wait | Start | Skip

  function Decide(p: Spec, ph: seq<StepPhase>, i: nat): Decision
    requires |ph| == |p.steps| && i < |ph|
  {
    if Blocked(p, ph, i) then Wait
    else if StartCondition(p, ph, i) then Start
    else Skip
  }

  predicate SuspensionFree(ph: seq<StepPhase>) {
    forall i :: 0 <= i < |ph| ==> !ph[i].Suspended?
  }

  /** `b` keeps every final phase of `a`. */
  predicate KeepsFinal(a: seq<StepPhase>, b: seq<StepPhase>)
    requires |a| == |b|
  {
    forall j :: 0 <= j < |a| && a[j].Terminal() ==> b[j] == a[j]
  }

  /** The lifecycle of one step. */
  predicate Advances(a: StepPhase, b: StepPhase) {
    || a == b
    || (a.Pending? && (b.Running? || b.Skipped?))
    || (a.Running? && (b.Suspended? || b.Succeeded? || b.Failed?))
    || (a.Suspended? && (b.Running? || b.Succeeded? || b.Failed?))
  }

  /** Every step that step `i` looks at is final. */
  predicate Grounded(p: Spec, ph: seq<StepPhase>, i: nat)
    requires |ph| == |p.steps| && i < |ph|
  {
    forall j :: 0 <= j < |ph| && Dep(p, i, j) ==> ph[j].Terminal()
  }

  /** A decision on final phases is the same in every later state. */
  lemma DecisionStable(p: Spec, a: seq<StepPhase>, b: seq<StepPhase>, i: nat)
    requires |a| == |b| == |p.steps| && i < |a|
    requires KeepsFinal(a, b) && Grounded(p, a, i)
    ensures Grounded(p, b, i) && Decide(p, b, i) == Decide(p, a, i)
  {
    assert forall j :: 0 <= j < |a| && Dep(p, i, j) ==> b[j] == a[j];
  }

  /** Only a Suspended step separates a decision from final phases. */
  lemma DecidedIsGrounded(p: Spec, ph: seq<StepPhase>, i: nat)
    requires |ph| == |p.steps| && i < |ph| && Decide(p, ph, i) != Wait
    ensures Grounded(p, ph, i) <==> forall j :: 0 <= j < |ph| && Dep(p, i, j) ==> !ph[j].Suspended?
  {}

  /** A decision stands, whatever happens next, exactly when no step it looked at was Suspended. */
  lemma DecisionStandsExact(p: Spec, a: seq<StepPhase>, i: nat)
    requires |a| == |p.steps| && i < |a| && Decide(p, a, i) != Wait
    ensures (forall j :: 0 <= j < |a| && Dep(p, i, j) ==> !a[j].Suspended?)
            <==> forall b :: |b| == |a| && (forall j :: 0 <= j < |a| ==> Advances(a[j], b[j])) ==>
                   Decide(p, b, i) == Decide(p, a, i)
  {
    DecidedIsGrounded(p, a, i);
    if Grounded(p, a, i) {
      forall b | |b| == |a| && (forall j :: 0 <= j < |a| ==> Advances(a[j], b[j]))
        ensures Decide(p, b, i) == Decide(p, a, i)
      {
        forall j | 0 <= j < |a| && a[j].Terminal()
          ensures b[j] == a[j]
        {
          assert Advances(a[j], b[j]);
        }
        DecisionStable(p, a, b, i);
      }
    } else {
      var j: nat :| j < |a| && Dep(p, i, j) && a[j].Suspended?;
      var b := a[j := StepPhase.Running];
      assert |b| == |a| && forall k :: 0 <= k < |a| ==> Advances(a[k], b[k]);
      assert Dep(p, i, j) && b[j].Waiting();
      assert Decide(p, b, i) == Wait;
    }
  }

  // ---- What the two rules promise, and where the code departs from it

  /** Sequential rule, all inputs: the step starts exactly when every earlier step is Succeeded or Suspended. */
  lemma SequentialRule(p: Spec, ph: seq<StepPhase>, i: nat)
    requires |ph| == |p.steps| && i < |ph| && p.steps[i].runIf.None?
    ensures Decide(p, ph, i) == Start <==> forall j :: 0 <= j < i ==> ph[j].Succeeded? || ph[j].Suspended?
    ensures Decide(p, ph, i) == Wait <==> exists j :: 0 <= j < i && (ph[j].Pending? || ph[j].Running?)
    ensures Decide(p, ph, i) == Skip <==>
            && (forall j :: 0 <= j < i ==> !ph[j].Pending? && !ph[j].Running?)
            && exists j :: 0 <= j < i && (ph[j].Failed? || ph[j].Skipped?)
  {
    var waiting := exists j :: 0 <= j < i && (ph[j].Pending? || ph[j].Running?);
    if waiting {
      var j :| 0 <= j < i && (ph[j].Pending? || ph[j].Running?);
      assert Dep(p, i, j) && ph[j].Waiting();
    }
    if Blocked(p, ph, i) {
      var j :| 0 <= j < |ph| && Dep(p, i, j) && ph[j].Waiting();
      assert j < i && (ph[j].Pending? || ph[j].Running?);
    }
    assert Blocked(p, ph, i) <==> waiting;
    if j :| 0 <= j < i && (ph[j].Failed? || ph[j].Skipped?) {
      assert !StartCondition(p, ph, i);
    }
    if !StartCondition(p, ph, i) {
      var j :| 0 <= j < i && (ph[j].Failed? || ph[j].Skipped?);
    }
  }

  /** A step with runIf waits exactly while its list names a step that is Pending or Running, or that does not exist. */
  lemma WaitRule(p: Spec, ph: seq<StepPhase>, i: nat, r: RunIf)
    requires |ph| == |p.steps| && i < |ph| && p.steps[i].runIf == Some(r)
    ensures Decide(p, ph, i) == Wait <==>
            || (exists name :: name in r.steps && forall j :: 0 <= j < |p.steps| ==> p.steps[j].name != name)
            || exists j :: 0 <= j < |ph| && p.steps[j].name in r.steps && (ph[j].Pending? || ph[j].Running?)
  {
    if name :| name in r.steps && forall j :: 0 <= j < |p.steps| ==> p.steps[j].name != name {
      assert !Known(p, name);
    }
    if name :| name in r.steps && !Known(p, name) {
      assert forall j :: 0 <= j < |p.steps| ==> p.steps[j].name != name;
    }
    assert forall j :: 0 <= j < |ph| ==> (Dep(p, i, j) <==> p.steps[j].name in r.steps);
  }

  /** `operator: and`, also by default: once it waits for nothing it starts exactly when every listed step has failed,
      for `condition: fail`, or succeeded, for any other; else it is skipped. */
  lemma AndRule(p: Spec, ph: seq<StepPhase>, i: nat, r: RunIf)
    requires |ph| == |p.steps| && i < |ph| && p.steps[i].runIf == Some(r)
    requires r.operator.And? || r.operator.DefaultOperator?
    requires forall name :: name in r.steps ==> exists j :: 0 <= j < |p.steps| && p.steps[j].name == name
    requires forall j :: 0 <= j < |ph| && p.steps[j].name in r.steps ==> !ph[j].Pending? && !ph[j].Running?
    ensures Decide(p, ph, i) ==
            if forall j :: 0 <= j < |ph| && p.steps[j].name in r.steps ==>
                 if r.condition.OnFail? then ph[j].Failed? else ph[j].Succeeded?
            then Start
            else Skip
  {
    WaitRule(p, ph, i, r);
    assert forall j :: 0 <= j < |ph| ==> (Dep(p, i, j) <==> p.steps[j].name in r.steps);
  }

  /** `operator: or`: it starts exactly when some listed step has. */
  lemma OrRule(p: Spec, ph: seq<StepPhase>, i: nat, r: RunIf)
    requires |ph| == |p.steps| && i < |ph| && p.steps[i].runIf == Some(r) && r.operator.Or?
    requires forall name :: name in r.steps ==> exists j :: 0 <= j < |p.steps| && p.steps[j].name == name
    requires forall j :: 0 <= j < |ph| && p.steps[j].name in r.steps ==> !ph[j].Pending? && !ph[j].Running?
    ensures Decide(p, ph, i) ==
            if exists j :: 0 <= j < |ph| && p.steps[j].name in r.steps &&
                 if r.condition.OnFail? then ph[j].Failed? else ph[j].Succeeded?
            then Start
            else Skip
  {
    WaitRule(p, ph, i, r);
    assert forall j :: 0 <= j < |ph| ==> (Dep(p, i, j) <==> p.steps[j].name in r.steps);
  }

  /** The documented gate (start after all earlier steps succeeded) is met exactly outside one family of states. */
  lemma ManualGateExact(p: Spec, ph: seq<StepPhase>, i: nat)
    requires |ph| == |p.steps| && i < |ph| && p.steps[i].runIf.None?
    ensures (Decide(p, ph, i) == Start <==> forall j :: 0 <= j < i ==> ph[j].Succeeded?)
            <==> !((exists j :: 0 <= j < i && ph[j].Suspended?) &&
                   forall j :: 0 <= j < i ==> ph[j].Suspended? || ph[j].Succeeded?)
  {
    SequentialRule(p, ph, i);
  }

  /** A suspended first step does not hold back the second one. */
  lemma ManualGateLeaks()
    ensures var p := Spec("p", [Step("approve", None), Step("deploy", None)]);
            Decide(p, [StepPhase.Suspended, StepPhase.Pending], 1) == Start
  {
    var p := Spec("p", [Step("approve", None), Step("deploy", None)]);
    SequentialRule(p, [StepPhase.Suspended, StepPhase.Pending], 1);
  }

  /** The documented "or": start as soon as one listed step matches. */
  ghost predicate SomeListedMatches(p: Spec, ph: seq<StepPhase>, i: nat)
    requires |ph| == |p.steps| && i < |ph| && p.steps[i].runIf.Some?
  {
    exists j :: 0 <= j < |ph| && Dep(p, i, j) && Matches(p.steps[i].runIf.value.IsCheckingFailure(), ph[j])
  }

  /** The code waits for the whole list, so it agrees with the documentation exactly when no match is still held up. */
  lemma OrWaitsForAll(p: Spec, ph: seq<StepPhase>, i: nat)
    requires |ph| == |p.steps| && i < |ph| && p.steps[i].runIf.Some?
    requires !p.steps[i].runIf.value.RequiresAll()
    ensures (Decide(p, ph, i) == Start <==> SomeListedMatches(p, ph, i))
            <==> !(SomeListedMatches(p, ph, i) && Blocked(p, ph, i))
  {}

  /** The documentation's own example: one build done, the other still running, publish waits. */
  lemma OrExampleWaits()
    ensures var p := Spec("p", [Step("x86", None), Step("arm", None),
                                Step("publish", Some(RunIf(OnSuccess, Or, ["x86", "arm"])))]);
            var ph := [StepPhase.Succeeded, StepPhase.Running, StepPhase.Pending];
            Decide(p, ph, 2) == Wait && SomeListedMatches(p, ph, 2)
  {
    var p := Spec("p", [Step("x86", None), Step("arm", None),
                        Step("publish", Some(RunIf(OnSuccess, Or, ["x86", "arm"])))]);
    var ph := [StepPhase.Succeeded, StepPhase.Running, StepPhase.Pending];
    assert Dep(p, 2, 0) && Matches(false, ph[0]);
    assert Dep(p, 2, 1) && ph[1].Waiting();
  }
}
