/** How many API calls a pass needs, and what it leaves when one of them fails for want of more; and what it records. */
module Calls {
  import opened PipelineTypes
  import opened Scheduling
  import opened Passes
  import opened Transitions
  import opened Invariants
  import opened RunProperties
  import opened PassEffect
  import opened Answers

  // ---- The calls of the walk

  /** A start is a create and a write, a skip is a write. */
  function TurnCalls(before: StepPhase, after: StepPhase): nat {
    if before == StepPhase.Pending && after == StepPhase.Running then 2
    else if before == StepPhase.Pending && after == StepPhase.Skipped then 1
    else 0
  }

  /** The calls for the steps from `i` on. */
  function WalkCalls(ph: seq<StepPhase>, after: seq<StepPhase>, i: nat): nat
    requires |ph| == |after| && i <= |ph|
    decreases |ph| - i
  {
    if i == |ph| then 0 else TurnCalls(ph[i], after[i]) + WalkCalls(ph, after, i + 1)
  }

  lemma {:induction false} WalkCallsAgree(a: seq<StepPhase>, b: seq<StepPhase>, after: seq<StepPhase>, i: nat)
    requires |a| == |b| == |after| && i <= |a| && forall j :: i <= j < |a| ==> a[j] == b[j]
    ensures WalkCalls(a, after, i) == WalkCalls(b, after, i)
    decreases |a| - i
  {
    if i < |a| {
      WalkCallsAgree(a, b, after, i + 1);
    }
  }

  function Within(c: Ctx, n: nat): Ctx {
    c.(budget := Limited(n))
  }

  /** `k` calls are what lies between `r`, the result without a limit, and what `n` calls achieve. */
  ghost predicate Costs(r: Result, limited: Result, n: nat, k: nat) {
    r.Ok? && (if n < k then limited.Err? else limited == Ok(Within(r.c, n - k)))
  }

  lemma TurnCallsExact(p: Spec, c: Ctx, n: nat, i: nat)
    requires Synced(p, c) && c.budget.Unlimited? && i < |p.steps|
    requires NamesFree(p, Phases(p, c.mem.steps), c.store.jobs)
    ensures var ph := Phases(p, c.mem.steps);
            Costs(HandleStep(p, c, i), HandleStep(p, Within(c, n), i), n, TurnCalls(ph[i], Handled(p, ph, i)[i]))
  {
    var ph := Phases(p, c.mem.steps);
    assert ph[i] == c.mem.steps[i].phase;
    if ph[i] == StepPhase.Pending {
      match Decide(p, ph, i)
      case Wait =>
        TurnPasses(p, c, i);
        TurnPasses(p, Within(c, n), i);
      case Skip =>
        TurnSkips(p, c, i);
        TurnSkips(p, Within(c, n), i);
      case Start =>
        assert JobName(p, i) !in c.store.jobs;
        TurnStarts(p, c, i);
        TurnStarts(p, Within(c, n), i);
    }
  }

  lemma WalkCallsUnfold(p: Spec, ph: seq<StepPhase>, i: nat)
    requires |ph| == |p.steps| && i < |ph|
    ensures var ph' := Handled(p, ph, i);
            WalkCalls(ph, WalkPhases(p, ph, i), i) ==
            TurnCalls(ph[i], ph'[i]) + WalkCalls(ph', WalkPhases(p, ph', i + 1), i + 1)
  {
    var ph', after := Handled(p, ph, i), WalkPhases(p, ph, i);
    assert after == WalkPhases(p, ph', i + 1);
    WalkKeepsFront(p, ph', i + 1);
    assert after[..i + 1][i] == ph'[..i + 1][i];
    WalkCallsAgree(ph, ph', after, i + 1);
  }

  /** What is left of `n` after `k`. */
  function Less(n: nat, k: nat): nat {
    if n < k then 0 else n - k
  }

  lemma {:induction false} WalkCallsExact(p: Spec, c: Ctx, n: nat, i: nat)
    requires UniqueNames(p) && Synced(p, c) && c.budget.Unlimited? && i <= |p.steps|
    requires NamesFree(p, Phases(p, c.mem.steps), c.store.jobs)
    ensures var ph := Phases(p, c.mem.steps);
            Costs(StartFrom(p, c, i), StartFrom(p, Within(c, n), i), n, WalkCalls(ph, WalkPhases(p, ph, i), i))
    decreases |p.steps| - i
  {
    if i < |p.steps| {
      var ph := Phases(p, c.mem.steps);
      TurnCallsExact(p, c, n, i);
      HandleStepExact(p, c, i);
      HandledNamesFree(p, ph, c.store.jobs, i);
      WalkCallsUnfold(p, ph, i);
      WalkCallsExact(p, HandleStep(p, c, i).c, Less(n, TurnCalls(ph[i], Handled(p, ph, i)[i])), i + 1);
    }
  }

  // ---- The calls of the other stages

  /** An observation fetches one Job for every entry that names one. */
  ghost function TrackedPlaces(steps: seq<StepStatus>): set<int> {
    set i | 0 <= i < |steps| && steps[i].jobName != ""
  }

  lemma TrackedPlacesLast(steps: seq<StepStatus>)
    requires steps != []
    ensures var m := |steps| - 1;
            && m !in TrackedPlaces(steps[..m])
            && TrackedPlaces(steps) == TrackedPlaces(steps[..m]) + if steps[m].jobName == "" then {} else {m}
  {
    var m := |steps| - 1;
    var front := steps[..m];
    forall i | 0 <= i < m
      ensures i in TrackedPlaces(steps) <==> i in TrackedPlaces(front)
    {
      assert front[i] == steps[i];
    }
  }

  lemma {:induction false} TrackedCount(steps: seq<StepStatus>)
    ensures Tracked(steps) == |set i | 0 <= i < |steps| && steps[i].jobName != ""|
    ensures Tracked(steps) == |TrackedPlaces(steps)|
  {
    if steps != [] {
      TrackedCount(steps[..|steps| - 1]);
      TrackedPlacesLast(steps);
    }
    assert TrackedPlaces(steps) == set i | 0 <= i < |steps| && steps[i].jobName != "";
  }

  lemma ObservationMoves(c: Ctx)
    ensures !SamePhases(c.mem.steps, Observe(c.mem.steps, c.store.jobs)) <==>
            exists i :: 0 <= i < |c.mem.steps| &&
              ObserveStep(c.mem.steps[i], c.store.jobs).phase != c.mem.steps[i].phase
  {
    var before, after := c.mem.steps, Observe(c.mem.steps, c.store.jobs);
    if !SamePhases(before, after) {
      var i :| 0 <= i < |before| && before[i].phase != after[i].phase;
      assert ObserveStep(before[i], c.store.jobs).phase != before[i].phase;
    }
    if i :| 0 <= i < |before| && ObserveStep(before[i], c.store.jobs).phase != before[i].phase {
      assert before[i].phase != after[i].phase;
    }
  }

  lemma UnmovedCalls(c: Ctx, n: nat)
    requires c.budget.Unlimited? && SamePhases(c.mem.steps, Observe(c.mem.steps, c.store.jobs))
    ensures Costs(UpdateStepStatuses(c), UpdateStepStatuses(Within(c, n)), n, Tracked(c.mem.steps))
  {}

  lemma MovedCalls(c: Ctx, n: nat)
    requires c.budget.Unlimited? && !SamePhases(c.mem.steps, Observe(c.mem.steps, c.store.jobs))
    ensures Costs(UpdateStepStatuses(c), UpdateStepStatuses(Within(c, n)), n, Tracked(c.mem.steps) + 1)
  {}

  lemma ObservationCalls(c: Ctx, n: nat)
    requires c.budget.Unlimited?
    ensures var moved := exists i :: 0 <= i < |c.mem.steps| &&
                           ObserveStep(c.mem.steps[i], c.store.jobs).phase != c.mem.steps[i].phase;
            Costs(UpdateStepStatuses(c), UpdateStepStatuses(Within(c, n)), n,
                  Tracked(c.mem.steps) + if moved then 1 else 0)
  {
    ObservationMoves(c);
    if SamePhases(c.mem.steps, Observe(c.mem.steps, c.store.jobs)) {
      UnmovedCalls(c, n);
    } else {
      MovedCalls(c, n);
    }
  }

  lemma VerdictCalls(p: Spec, c: Ctx, n: nat, now: int)
    requires Aligned(p, c.mem.steps) && c.budget.Unlimited?
    ensures Costs(UpdatePipelinePhase(p, c, now), UpdatePipelinePhase(p, Within(c, n), now), n,
                  if NextPhase(p, c.mem.steps, c.mem.phase) == c.mem.phase then 0 else 1)
  {
    VerdictWritten(p, c, now);
    VerdictWritten(p, Within(c, n), now);
  }

  /** What `n` calls achieve of an outcome that takes `k`. */
  ghost predicate Takes(o: Outcome, limited: Outcome, n: nat, k: nat) {
    o.answer != Error && (if n < k then limited.answer == Error else limited == o)
  }

  /** The calls of the second half: the verdict if it moves the phase, and the walk if it is not final. */
  ghost function SecondHalfCalls(p: Spec, seen: seq<StepPhase>, before: PipelinePhase, after: PipelinePhase): nat
    requires |seen| == |p.steps|
  {
    (if after == before then 0 else 1) + if Over(p, seen) then 0 else WalkCalls(seen, WalkPhases(p, seen, 0), 0)
  }

  lemma SecondHalfCallsExact(p: Spec, c: Ctx, n: nat, now: int)
    requires UniqueNames(p) && Synced(p, c) && c.budget.Unlimited? && c.store.finalizer
    requires !c.mem.phase.Unset? && !c.mem.phase.Terminal()
    requires NamesFree(p, Phases(p, c.mem.steps), c.store.jobs)
    ensures var next := NextPhase(p, c.mem.steps, c.mem.phase);
            Takes(JudgeAndStart(p, c, now), JudgeAndStart(p, Within(c, n), now), n,
                  SecondHalfCalls(p, Phases(p, c.mem.steps), c.mem.phase, next))
  {
    var v := if NextPhase(p, c.mem.steps, c.mem.phase) == c.mem.phase then 0 else 1;
    VerdictKeepsSync(p, c, now);
    VerdictOnPhases(p, c.mem.steps, c.mem.phase);
    VerdictCalls(p, c, n, now);
    var c1 := UpdatePipelinePhase(p, c, now).c;
    if !c1.mem.phase.Terminal() {
      WalkCallsExact(p, c1, Less(n, v), 0);
    }
  }

  // ---- The calls of the pass

  ghost function StartedCount(ph: seq<StepPhase>): nat {
    |set i | 0 <= i < |ph| && (ph[i] == StepPhase.Running || ph[i] == StepPhase.Suspended ||
                               ph[i] == StepPhase.Succeeded || ph[i] == StepPhase.Failed)|
  }

  /** The calls of a pass over a pipeline in progress that ends in phase `after`: the object, the finalizer, the first
      entries, one for every started step, one write if some step moved, the verdict, and the walk. */
  ghost function PassCalls(p: Spec, s: Store, after: PipelinePhase): nat {
    1 + (if s.finalizer then 0 else 1) + (if s.status.steps == [] then 1 else 0)
    + StartedCount(PhasesAt(p, s)) + (if Seen(p, s) == PhasesAt(p, s) then 0 else 1)
    + SecondHalfCalls(p, Seen(p, s), s.status.phase, after)
  }

  lemma TrackedStarted(p: Spec, s: Store)
    requires StoreInv(p, s) && Aligned(p, s.status.steps)
    ensures Tracked(s.status.steps) == StartedCount(PhasesAt(p, s))
  {
    TrackedCount(s.status.steps);
    var ph := PhasesAt(p, s);
    forall i | 0 <= i < |ph|
      ensures s.status.steps[i].jobName != "" <==> ph[i].Started()
    {
      JobNameNotEmpty(p, i);
    }
    assert (set i | 0 <= i < |s.status.steps| && s.status.steps[i].jobName != "") ==
           set i | 0 <= i < |ph| && (ph[i] == StepPhase.Running || ph[i] == StepPhase.Suspended ||
                                     ph[i] == StepPhase.Succeeded || ph[i] == StepPhase.Failed);
  }

  lemma MovedExact(p: Spec, s: Store)
    requires StoreInv(p, s) && Aligned(p, s.status.steps)
    ensures (exists i :: 0 <= i < |s.status.steps| &&
               ObserveStep(s.status.steps[i], s.jobs).phase != s.status.steps[i].phase) <==>
            Seen(p, s) != PhasesAt(p, s)
  {
    ObserveSees(p, s);
    var after := Observe(s.status.steps, s.jobs);
    assert forall i :: 0 <= i < |p.steps| ==> Phases(p, after)[i] == ObserveStep(s.status.steps[i], s.jobs).phase;
    assert forall i :: 0 <= i < |p.steps| ==> PhasesAt(p, s)[i] == s.status.steps[i].phase;
  }

  ghost function ObservationCost(ph: seq<StepPhase>, seen: seq<StepPhase>): nat {
    StartedCount(ph) + if seen == ph then 0 else 1
  }

  lemma ObservationCosts(p: Spec, c: Ctx, n: nat)
    requires StoreInv(p, c.store) && Aligned(p, c.store.status.steps)
    requires c.mem == c.store.status && c.budget.Unlimited?
    ensures Costs(UpdateStepStatuses(c), UpdateStepStatuses(Within(c, n)), n,
                  ObservationCost(PhasesAt(p, c.store), Seen(p, c.store)))
  {
    ObservationCalls(c, n);
    TrackedStarted(p, c.store);
    MovedExact(p, c.store);
  }

  /** What is done with the observed copy. */
  lemma LaterCallsExact(p: Spec, c: Ctx, n: nat, now: int)
    requires UniqueNames(p) && Working(c.store) && StoreInv(p, c.store) && Aligned(p, c.store.status.steps)
    requires c.mem == c.store.status && c.budget.Unlimited? && NamesFree(p, Seen(p, c.store), c.store.jobs)
    ensures var s, c2 := c.store, UpdateStepStatuses(c).c;
            var o := JudgeAndStart(p, c2, now);
            && UpdateStepStatuses(c).Ok?
            && Takes(o, JudgeAndStart(p, Within(c2, n), now), n,
                     SecondHalfCalls(p, Seen(p, s), s.status.phase, o.store.status.phase))
  {
    ObservationExact(p, c);
    var c2 := UpdateStepStatuses(c).c;
    SecondHalfCallsExact(p, c2, n, now);
    SecondHalfPhase(p, c2, now);
  }

  lemma SecondHalfPhase(p: Spec, c: Ctx, now: int)
    requires UniqueNames(p) && Synced(p, c) && c.budget.Unlimited?
    requires NamesFree(p, Phases(p, c.mem.steps), c.store.jobs)
    ensures JudgeAndStart(p, c, now).store.status.phase == NextPhase(p, c.mem.steps, c.mem.phase)
  {
    VerdictKeepsSync(p, c, now);
    var c1 := UpdatePipelinePhase(p, c, now).c;
    if !c1.mem.phase.Terminal() {
      WalkExact(p, c1, 0);
    }
  }

  /** The pass from the observation on. */
  ghost function FromObservation(p: Spec, c: Ctx, now: int): Outcome
    requires Aligned(p, c.mem.steps)
  {
    match UpdateStepStatuses(c)
    case Err(s) => Outcome(s, Error)
    case Ok(c2) =>
      assert forall i :: 0 <= i < |c2.mem.steps| ==> c2.mem.steps[i].name == c.mem.steps[i].name;
      JudgeAndStart(p, c2, now)
  }

  lemma FromObservationCalls(p: Spec, c: Ctx, n: nat, now: int)
    requires UniqueNames(p) && Working(c.store) && StoreInv(p, c.store) && Aligned(p, c.store.status.steps)
    requires c.mem == c.store.status && c.budget.Unlimited? && NamesFree(p, Seen(p, c.store), c.store.jobs)
    ensures var s, o := c.store, FromObservation(p, c, now);
            Takes(o, FromObservation(p, Within(c, n), now), n,
                  ObservationCost(PhasesAt(p, s), Seen(p, s)) +
                  SecondHalfCalls(p, Seen(p, s), s.status.phase, o.store.status.phase))
  {
    var k := ObservationCost(PhasesAt(p, c.store), Seen(p, c.store));
    ObservationCosts(p, c, n);
    LaterCallsExact(p, c, Less(n, k), now);
  }

  lemma InitialiseCalls(p: Spec, s: Store, n: nat)
    ensures var first := if s.status.steps == [] then 1 else 0;
            Costs(Initialise(p, Ctx(s, Unlimited, s.status)), Initialise(p, Ctx(s, Limited(n), s.status)), n, first)
  {}

  lemma AfterInitialise(p: Spec, c: Ctx, now: int)
    requires c.mem.steps == [] || Aligned(p, c.mem.steps)
    ensures match Initialise(p, c)
            case Err(_) => ReconcilePipeline(p, c, now).answer == Error
            case Ok(c1) => Aligned(p, c1.mem.steps) && ReconcilePipeline(p, c, now) == FromObservation(p, c1, now)
  {}

  lemma InitialCalls(p: Spec, s: Store, n: nat, now: int)
    requires Working(s) && StoreInv(p, s)
    ensures var c1 := Initialise(p, Ctx(s, Unlimited, s.status)).c;
            var first := if s.status.steps == [] then 1 else 0;
            && Aligned(p, c1.mem.steps)
            && ReconcilePipeline(p, Ctx(s, Unlimited, s.status), now) == FromObservation(p, c1, now)
            && (if n < first then ReconcilePipeline(p, Ctx(s, Limited(n), s.status), now).answer == Error
                else ReconcilePipeline(p, Ctx(s, Limited(n), s.status), now) ==
                     FromObservation(p, Within(c1, n - first), now))
  {
    InitialiseCalls(p, s, n);
    AfterInitialise(p, Ctx(s, Unlimited, s.status), now);
    AfterInitialise(p, Ctx(s, Limited(n), s.status), now);
  }

  lemma PipelineCallsExact(p: Spec, s: Store, n: nat, now: int)
    requires UniqueNames(p) && Working(s) && StoreInv(p, s) && NamesFree(p, Seen(p, s), s.jobs)
    ensures var o := ReconcilePipeline(p, Ctx(s, Unlimited, s.status), now);
            Takes(o, ReconcilePipeline(p, Ctx(s, Limited(n), s.status), now), n,
                  PassCalls(p, s, o.store.status.phase) - 1)
  {
    InitialiseExact(p, s);
    InitialCalls(p, s, n, now);
    var c1 := Initialise(p, Ctx(s, Unlimited, s.status)).c;
    FromObservationCalls(p, c1, Less(n, if s.status.steps == [] then 1 else 0), now);
  }

  lemma AttachCalls(p: Spec, s: Store, after: PipelinePhase)
    ensures PassCalls(p, s, after) == PassCalls(p, s.(finalizer := true), after) + if s.finalizer then 0 else 1
  {
    assert Seen(p, s.(finalizer := true)) == Seen(p, s);
  }

  lemma SeenNamesFree(p: Spec, s: Store)
    requires NamesFree(p, PhasesAt(p, s), s.jobs)
    ensures NamesFree(p, Seen(p, s), s.jobs)
  {
    forall i: nat | i < |p.steps|
      ensures Seen(p, s)[i].Pending? <==> PhasesAt(p, s)[i].Pending?
    {
      SeenKeepsPending(p, PhasesAt(p, s), s.jobs, i);
    }
  }

  /** The object is fetched and the finalizer attached before anything else. */
  lemma BeforeTheSteps(p: Spec, s: Store, n: nat, listed: seq<string>, now: int)
    requires StoreInv(p, s) && Live(s)
    ensures var s1, before := s.(finalizer := true), if s.finalizer then 1 else 2;
            && Reconcile(p, s, Unlimited, listed, now) == ReconcilePipeline(p, Ctx(s1, Unlimited, s1.status), now)
            && (if n < before then Reconcile(p, s, Limited(n), listed, now).answer == Error
                else Reconcile(p, s, Limited(n), listed, now) ==
                     ReconcilePipeline(p, Ctx(s1, Limited(Less(n, before)), s1.status), now))
  {
    if n == 0 || (n == 1 && !s.finalizer) {
      Dispatch(p, s, Limited(n), listed, now);
    }
  }

  lemma BehindOthers(o: Outcome, limited: Outcome, inner: Outcome, n: nat, before: nat, k: nat)
    requires k >= before && Takes(o, inner, Less(n, before), k - before)
    requires if n < before then limited.answer == Error else limited == inner
    ensures Takes(o, limited, n, k)
  {}

  lemma LiveCalls(p: Spec, s: Store, n: nat, listed: seq<string>, now: int)
    requires UniqueNames(p) && StoreInv(p, s) && Live(s) && NamesFree(p, PhasesAt(p, s), s.jobs)
    ensures var o := Reconcile(p, s, Unlimited, listed, now);
            Takes(o, Reconcile(p, s, Limited(n), listed, now), n, PassCalls(p, s, o.store.status.phase))
  {
    var s1, before := s.(finalizer := true), if s.finalizer then 1 else 2;
    var o := Reconcile(p, s, Unlimited, listed, now);
    SeenNamesFree(p, s);
    assert Seen(p, s1) == Seen(p, s);
    BeforeTheSteps(p, s, n, listed, now);
    PipelineCallsExact(p, s1, Less(n, before), now);
    AttachCalls(p, s, o.store.status.phase);
    BehindOthers(o, Reconcile(p, s, Limited(n), listed, now),
           ReconcilePipeline(p, Ctx(s1, Limited(Less(n, before)), s1.status), now),
           n, before, PassCalls(p, s, o.store.status.phase));
  }

  /** Exactly how many calls a pass over a pipeline in progress makes: with at least so many that succeed it does what
      it does without a failure, and with fewer it answers with an error. */
  lemma CallsExact(p: Spec, s: Store, n: nat, listed: seq<string>, now: int)
    requires UniqueNames(p) && StoreInv(p, s) && Live(s) && NamesFree(p, PhasesAt(p, s), s.jobs)
    ensures var o, limited := Reconcile(p, s, Unlimited, listed, now), Reconcile(p, s, Limited(n), listed, now);
            var k := PassCalls(p, s, o.store.status.phase);
            && (limited.answer == Error <==> n < k)
            && (n >= k ==> limited == o)
  {
    LiveCalls(p, s, n, listed, now);
  }

  // ---- What a pass records

  /** Every entry has the Job status that the observation found, and the store has memory or is as it was. */
  ghost predicate Recorded(a: Ctx, b: Ctx) {
    && |b.mem.steps| == |a.mem.steps|
    && (forall i :: 0 <= i < |a.mem.steps| ==> b.mem.steps[i].jobStatus == a.mem.steps[i].jobStatus)
    && (b.store.status == b.mem || b.store.status == a.store.status)
  }

  lemma TurnRecords(p: Spec, c: Ctx, i: nat)
    requires Aligned(p, c.mem.steps) && i < |p.steps| && HandleStep(p, c, i).Ok?
    ensures Recorded(c, HandleStep(p, c, i).c)
    ensures HandleStep(p, c, i).c.store.status == HandleStep(p, c, i).c.mem || HandleStep(p, c, i) == Ok(c)
  {
    if c.mem.steps[i].phase == StepPhase.Pending {
      match Decide(p, Phases(p, c.mem.steps), i)
      case Wait => TurnPasses(p, c, i);
      case Skip => TurnSkips(p, c, i);
      case Start => TurnStarts(p, c, i);
    }
  }

  lemma {:induction false} WalkRecords(p: Spec, c: Ctx, i: nat)
    requires Aligned(p, c.mem.steps) && i <= |p.steps| && StartFrom(p, c, i).Ok?
    ensures Recorded(c, StartFrom(p, c, i).c)
    ensures StartFrom(p, c, i).c.store.status == StartFrom(p, c, i).c.mem || StartFrom(p, c, i) == Ok(c)
    decreases |p.steps| - i
  {
    if i < |p.steps| {
      TurnRecords(p, c, i);
      WalkRecords(p, HandleStep(p, c, i).c, i + 1);
    }
  }

  lemma VerdictRecords(p: Spec, c: Ctx, now: int)
    requires Aligned(p, c.mem.steps) && c.budget.Unlimited?
    ensures var r := UpdatePipelinePhase(p, c, now);
            && r.Ok? && r.c.mem.steps == c.mem.steps && r.c.budget.Unlimited?
            && (if r.c.mem.phase == c.mem.phase then r.c.store == c.store else r.c.store.status == r.c.mem)
  {
    VerdictWritten(p, c, now);
  }

  lemma SecondHalfRecords(p: Spec, c: Ctx, now: int)
    requires Aligned(p, c.mem.steps) && c.budget.Unlimited? && JudgeAndStart(p, c, now).answer != Error
    ensures var t := JudgeAndStart(p, c, now).store;
            || t.status == c.store.status
            || (|t.status.steps| == |c.mem.steps| &&
                forall i :: 0 <= i < |c.mem.steps| ==> t.status.steps[i].jobStatus == c.mem.steps[i].jobStatus)
  {
    VerdictRecords(p, c, now);
    var c1 := UpdatePipelinePhase(p, c, now).c;
    if !c1.mem.phase.Terminal() {
      WalkRecords(p, c1, 0);
    }
  }

  lemma ObservationRecords(p: Spec, c: Ctx)
    requires c.mem == c.store.status && c.budget.Unlimited?
    ensures var r := UpdateStepStatuses(c);
            && r.Ok? && r.c.mem == c.mem.(steps := Observe(c.mem.steps, c.store.jobs)) && r.c.budget.Unlimited?
            && (r.c.store.status == r.c.mem || r.c.store == c.store)
  {}

  lemma StepsRecord(p: Spec, c: Ctx, now: int, i: nat)
    requires UniqueNames(p) && Working(c.store) && StoreInv(p, c.store) && Aligned(p, c.store.status.steps)
    requires c.mem == c.store.status && c.budget.Unlimited? && NamesFree(p, Seen(p, c.store), c.store.jobs)
    requires i < |p.steps| && PhasesAt(p, c.store)[i].Started() && JobName(p, i) in c.store.jobs
    ensures var t := JudgeAndStart(p, UpdateStepStatuses(c).c, now).store;
            PhasesAt(p, t) != PhasesAt(p, c.store) || t.status.phase != c.store.status.phase ==>
              i < |t.status.steps| && t.status.steps[i].jobStatus == Some(c.store.jobs[JobName(p, i)].status)
  {
    ObservationRecords(p, c);
    ObservationExact(p, c);
    var c2 := UpdateStepStatuses(c).c;
    SecondHalfExact(p, c2, now);
    SecondHalfRecords(p, c2, now);
    JobNameNotEmpty(p, i);
    ObservedEntry(c.mem.steps[i], c.store.jobs);
  }

  /** A pass on which no call fails leaves in the entry of every started step whose Job is there that Job's status,
      whenever it moved a phase, of a step or of the pipeline. */
  lemma PassRecords(p: Spec, s: Store, listed: seq<string>, now: int, i: nat)
    requires UniqueNames(p) && StoreInv(p, s) && Live(s) && NamesFree(p, PhasesAt(p, s), s.jobs)
    requires i < |p.steps| && PhasesAt(p, s)[i].Started() && JobName(p, i) in s.jobs
    ensures var t := Reconcile(p, s, Unlimited, listed, now).store;
            PhasesAt(p, t) != PhasesAt(p, s) || t.status.phase != s.status.phase ==>
              i < |t.status.steps| && t.status.steps[i].jobStatus == Some(s.jobs[JobName(p, i)].status)
  {
    SeenNamesFree(p, s);
    var s1 := s.(finalizer := true);
    assert Seen(p, s1) == Seen(p, s);
    assert s.status.steps != [];
    StepsRecord(p, Ctx(s1, Unlimited, s1.status), now, i);
  }
}
