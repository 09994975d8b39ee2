/** Progress: what a pass achieves, which passes achieve nothing, and how many a pipeline needs. */
module Liveness {
  import opened PipelineTypes
  import opened Scheduling
  import opened Passes
  import opened Controller
  import opened Transitions
  import opened Invariants
  import opened RunProperties
  import opened Fate
  import opened Deadlock
  import opened PassEffect

  // ---- Reachable states

  /** Persisted at the end of some run in which no Job is replaced. */
  ghost predicate Reachable(p: Spec, s: Store) {
    exists tr :: LastingRun(p, tr) && Last(tr) == s
  }

  lemma ReachableInv(p: Spec, s: Store)
    requires Reachable(p, s)
    ensures Inv(p, s)
  {
    var tr :| LastingRun(p, tr) && Last(tr) == s;
    RunKeepsInv(p, tr, |tr| - 1);
  }

  lemma ReachableContinues(p: Spec, s: Store, t: Store)
    requires Reachable(p, s) && Continues(p, s, t)
    ensures Reachable(p, t)
  {
    var a :| LastingRun(p, a) && Last(a) == s;
    var b :| LastingChain(p, b) && b[0] == s && Last(b) == t;
    ChainJoin(p, a, b);
    assert LastingRun(p, a + b[1..]);
  }

  /** Every pass, whatever call fails, is a stretch of a run in which no Job is replaced. */
  lemma PassContinues(p: Spec, s: Store, budget: Budget, listed: seq<string>, now: int)
    requires CoreInv(p, s) && Lists(p, s.jobs, listed)
    ensures Continues(p, s, Reconcile(p, s, budget, listed, now).store)
  {
    ReconcileReaches(p, s, budget, listed, now);
    ReachesContinues(p, s, Reconcile(p, s, budget, listed, now).store);
  }

  /** Whatever mixture of passes, with failures anywhere, and cluster events has happened, the store is reachable. */
  lemma PassStaysReachable(p: Spec, s: Store, budget: Budget, listed: seq<string>, now: int)
    requires Reachable(p, s) && Lists(p, s.jobs, listed)
    ensures Inv(p, s) && Reachable(p, Reconcile(p, s, budget, listed, now).store)
  {
    ReachableInv(p, s);
    PassContinues(p, s, budget, listed, now);
    ReachableContinues(p, s, Reconcile(p, s, budget, listed, now).store);
  }

  // ---- The weight along a stretch

  lemma {:induction false} ChainLowersWeight(p: Spec, tr: seq<Store>, k: nat)
    requires LastingChain(p, tr) && Inv(p, tr[0]) && k < |tr|
    ensures Inv(p, tr[k]) && Weight(PhasesAt(p, tr[k])) <= Weight(PhasesAt(p, tr[0]))
  {
    if k > 0 {
      ChainLowersWeight(p, tr, k - 1);
      assert StepAt(p, tr, k - 1) && UnreplacedAt(tr, k - 1);
      NextKeepsInv(p, tr[k - 1], tr[k]);
      PhaseStepAdvances(p, PhasesAt(p, tr[k - 1]), PhasesAt(p, tr[k]));
      WeightFalls(PhasesAt(p, tr[k - 1]), PhasesAt(p, tr[k]));
    }
  }

  /** Nothing that happens raises the weight: no pass, no failing call and no step of the cluster. */
  lemma ContinuesLowersWeight(p: Spec, s: Store, t: Store)
    requires Inv(p, s) && Continues(p, s, t)
    ensures Inv(p, t) && Weight(PhasesAt(p, t)) <= Weight(PhasesAt(p, s))
  {
    var tr :| LastingChain(p, tr) && tr[0] == s && Last(tr) == t;
    ChainLowersWeight(p, tr, |tr| - 1);
  }

  lemma {:induction false} ChainKeepsVerdict(p: Spec, tr: seq<Store>, k: nat)
    requires LastingChain(p, tr) && tr[0].status.phase.Terminal() && k < |tr|
    ensures tr[k].status == tr[0].status
  {
    if k > 0 {
      ChainKeepsVerdict(p, tr, k - 1);
      assert StepAt(p, tr, k - 1);
      VerdictStep(p, tr[k - 1], tr[k]);
    }
  }

  lemma ContinuesKeepsVerdict(p: Spec, s: Store, t: Store)
    requires Continues(p, s, t) && s.status.phase.Terminal()
    ensures t.status == s.status
  {
    var tr :| LastingChain(p, tr) && tr[0] == s && Last(tr) == t;
    ChainKeepsVerdict(p, tr, |tr| - 1);
  }

  /** From a reachable state in which a Job has been lost, nothing that can follow ends the pipeline. */
  lemma LostForever(p: Spec, s: Store, t: Store, i: nat)
    requires Reachable(p, s) && Continues(p, s, t) && i < |p.steps| && Lost(p, s, i)
    ensures Lost(p, t, i) && PhasesAt(p, t)[i] == PhasesAt(p, s)[i] && !t.status.phase.Terminal()
  {
    var a :| LastingRun(p, a) && Last(a) == s;
    var b :| LastingChain(p, b) && b[0] == s && Last(b) == t;
    ChainJoin(p, a, b);
    var tr := a + b[1..];
    assert LastingRun(p, tr) && tr[|a| - 1] == s;
    LostJobHangs(p, tr, |a| - 1, |tr| - 1, i);
  }

  // ---- What one pass achieves

  predicate Active(phase: StepPhase) {
    phase.Running? || phase.Suspended?
  }

  /** An observation moves phases along the lifecycle, and active ones only. */
  lemma SeenAdvances(p: Spec, s: Store)
    requires Inv(p, s)
    ensures forall i :: 0 <= i < |p.steps| ==>
              var before, seen := PhasesAt(p, s)[i], Seen(p, s)[i];
              Advances(before, seen) && (seen != before ==> Active(before) && seen.Started())
  {
    forall i | 0 <= i < |p.steps|
      ensures PhasesAt(p, s)[i].Started() && JobName(p, i) in s.jobs ==>
                Settled(s.jobs[JobName(p, i)].status, PhasesAt(p, s)[i])
      ensures Seen(p, s)[i].Started() <==> PhasesAt(p, s)[i].Started()
    {
      SeenKeepsPending(p, PhasesAt(p, s), s.jobs, i);
    }
  }

  /** A walk changes nothing exactly when every Pending step waits. */
  lemma {:induction false} WalkRestsExact(p: Spec, ph: seq<StepPhase>, i: nat)
    requires |ph| == |p.steps| && i <= |ph|
    ensures WalkPhases(p, ph, i) == ph <==> forall j :: i <= j < |ph| && ph[j].Pending? ==> Decide(p, ph, j) == Wait
    decreases |ph| - i
  {
    if i < |ph| {
      var ph' := Handled(p, ph, i);
      if ph' == ph {
        WalkRestsExact(p, ph, i + 1);
      } else {
        WalkOnlyDecides(p, ph', i + 1);
        assert WalkPhases(p, ph, i)[i] != ph[i];
      }
    }
  }

  lemma WalkProgressesExact(p: Spec, ph: seq<StepPhase>)
    requires |ph| == |p.steps|
    ensures forall i :: 0 <= i < |ph| ==> Advances(ph[i], WalkPhases(p, ph, 0)[i])
    ensures Progresses(ph, WalkPhases(p, ph, 0)) <==>
            exists i :: 0 <= i < |ph| && ph[i].Pending? && Decide(p, ph, i) != Wait
  {
    var after := WalkPhases(p, ph, 0);
    WalkRestsExact(p, ph, 0);
    WalkOnlyDecides(p, ph, 0);
    if after != ph {
      var i :| 0 <= i < |ph| && after[i] != ph[i];
      assert ph[i].Pending?;
    }
  }

  /** Progress made in one of two stages that both follow the lifecycle is progress. */
  lemma ProgressAdds(a: seq<StepPhase>, b: seq<StepPhase>, c: seq<StepPhase>)
    requires |a| == |b| == |c|
    requires forall i :: 0 <= i < |a| ==> Advances(a[i], b[i])
    requires forall i :: 0 <= i < |a| ==> Advances(b[i], c[i])
    requires forall i :: 0 <= i < |a| && a[i].Pending? ==> b[i].Pending?
    requires forall i :: 0 <= i < |a| && b[i] != c[i] ==> b[i].Pending?
    ensures Progresses(a, c) <==> Progresses(a, b) || Progresses(b, c)
  {
    if Progresses(a, b) {
      var i :| 0 <= i < |a| && a[i] != b[i] && (a[i].Pending? || b[i].Terminal());
      assert c[i] == b[i];
    }
    if Progresses(b, c) {
      var i :| 0 <= i < |a| && b[i] != c[i] && (b[i].Pending? || c[i].Terminal());
      assert a[i] == b[i];
    }
    if Progresses(a, c) {
      var i :| 0 <= i < |a| && a[i] != c[i] && (a[i].Pending? || c[i].Terminal());
      assert b[i] == c[i] || b[i].Pending?;
    }
  }

  /** No active step is seen to have finished. */
  ghost predicate NoneFinishes(p: Spec, s: Store) {
    forall i :: 0 <= i < |p.steps| && Active(PhasesAt(p, s)[i]) ==> !Seen(p, s)[i].Terminal()
  }

  lemma SeenProgressesExact(p: Spec, s: Store)
    requires Inv(p, s)
    ensures Progresses(PhasesAt(p, s), Seen(p, s)) <==> !NoneFinishes(p, s)
  {
    SeenAdvances(p, s);
    var ph, seen := PhasesAt(p, s), Seen(p, s);
    if i :| 0 <= i < |ph| && Active(ph[i]) && seen[i].Terminal() {
      assert ph[i] != seen[i];
    }
  }

  /** A pass on which no call fails achieves nothing exactly when work is left, nothing active is seen to have finished
      and every Pending step waits. */
  lemma PassIdlesExact(p: Spec, s: Store, listed: seq<string>, now: int)
    requires Inv(p, s) && Live(s) && NamesFree(p, PhasesAt(p, s), s.jobs)
    ensures var t := Reconcile(p, s, Unlimited, listed, now).store;
            !t.status.phase.Terminal() && !Progresses(PhasesAt(p, s), PhasesAt(p, t)) <==>
              && !Over(p, Seen(p, s)) && NoneFinishes(p, s)
              && (forall i :: 0 <= i < |p.steps| && Seen(p, s)[i].Pending? ==> Decide(p, Seen(p, s), i) == Wait)
  {
    PassExact(p, s, listed, now);
    SeenAdvances(p, s);
    SeenProgressesExact(p, s);
    var seen := Seen(p, s);
    if !Over(p, seen) {
      WalkProgressesExact(p, seen);
      WalkOnlyDecides(p, seen, 0);
      ProgressAdds(PhasesAt(p, s), seen, WalkPhases(p, seen, 0));
    }
  }

  // ---- Ripe passes

  /** Nothing is active, or some active step is seen to have finished. */
  ghost predicate Ripe(p: Spec, s: Store) {
    (forall i :: 0 <= i < |p.steps| ==> !Active(PhasesAt(p, s)[i])) || !NoneFinishes(p, s)
  }

  /** Once nothing is active and every Pending step waits, there is a final verdict. */
  ghost predicate RestIsTheEnd(p: Spec, s: Store) {
    && (forall i :: 0 <= i < |p.steps| ==> !Active(Seen(p, s)[i]))
    && (forall i :: 0 <= i < |p.steps| && Seen(p, s)[i].Pending? ==> Decide(p, Seen(p, s), i) == Wait)
    ==> Over(p, Seen(p, s))
  }

  /** In a sound pipeline that is so in every state: at rest nothing is Pending. */
  lemma SoundRests(p: Spec, s: Store)
    requires Sound(p)
    ensures RestIsTheEnd(p, s)
  {
    var ph := Seen(p, s);
    if (forall i :: 0 <= i < |ph| ==> !Active(ph[i])) &&
       (forall i :: 0 <= i < |ph| && ph[i].Pending? ==> Decide(p, ph, i) == Wait) {
      WaitingIsStuck(p, ph);
      StuckExact(p);
      assert Undecided(ph) == {};
      forall i: nat | i < |ph|
        ensures !ph[i].Pending?
      {
        assert i !in Undecided(ph);
      }
    }
  }

  lemma RestIsSeen(p: Spec, s: Store)
    requires Inv(p, s) && Ripe(p, s) && NoneFinishes(p, s)
    ensures forall i :: 0 <= i < |p.steps| ==> !Active(Seen(p, s)[i])
  {
    SeenAdvances(p, s);
  }

  lemma RipePassProgresses(p: Spec, s: Store, listed: seq<string>, now: int)
    requires RestIsTheEnd(p, s) && Inv(p, s) && Live(s) && NamesFree(p, PhasesAt(p, s), s.jobs) && Ripe(p, s)
    ensures var t := Reconcile(p, s, Unlimited, listed, now).store;
            t.status.phase.Terminal() || Progresses(PhasesAt(p, s), PhasesAt(p, t))
  {
    PassIdlesExact(p, s, listed, now);
    if NoneFinishes(p, s) {
      RestIsSeen(p, s);
    }
  }

  ghost predicate AllAdvance(a: seq<StepPhase>, b: seq<StepPhase>) {
    |a| == |b| && forall i :: 0 <= i < |a| ==> Advances(a[i], b[i])
  }

  ghost predicate Walked(a: seq<StepPhase>, b: seq<StepPhase>) {
    |a| == |b| && forall i :: 0 <= i < |a| ==> b[i] == a[i] || (a[i].Pending? && (b[i].Running? || b[i].Skipped?))
  }

  lemma AdvancesThenWalks(a: seq<StepPhase>, b: seq<StepPhase>, c: seq<StepPhase>)
    requires AllAdvance(a, b) && Walked(b, c)
    ensures AllAdvance(a, c)
  {}

  lemma SeenAllAdvance(p: Spec, s: Store)
    requires Inv(p, s)
    ensures AllAdvance(PhasesAt(p, s), Seen(p, s))
  {
    SeenAdvances(p, s);
  }

  lemma WalkIsWalked(p: Spec, ph: seq<StepPhase>)
    requires |ph| == |p.steps|
    ensures Walked(ph, WalkPhases(p, ph, 0))
  {
    WalkOnlyDecides(p, ph, 0);
  }

  lemma PassAdvances(p: Spec, s: Store, listed: seq<string>, now: int)
    requires Inv(p, s) && Live(s) && NamesFree(p, PhasesAt(p, s), s.jobs)
    ensures AllAdvance(PhasesAt(p, s), PhasesAt(p, Reconcile(p, s, Unlimited, listed, now).store))
  {
    PassExact(p, s, listed, now);
    SeenAllAdvance(p, s);
    WalkIsWalked(p, Seen(p, s));
    AdvancesThenWalks(PhasesAt(p, s), Seen(p, s), WalkPhases(p, Seen(p, s), 0));
  }

  /** Where rest is the end, a ripe pass ends the pipeline or lowers its weight. Steps may be suspended before and
      after it. */
  lemma PassLowersWeight(p: Spec, s: Store, listed: seq<string>, now: int)
    requires RestIsTheEnd(p, s) && Inv(p, s) && Live(s) && NamesFree(p, PhasesAt(p, s), s.jobs) && Ripe(p, s)
    ensures var t := Reconcile(p, s, Unlimited, listed, now).store;
            t.status.phase.Terminal() || Weight(PhasesAt(p, t)) < Weight(PhasesAt(p, s))
  {
    RipePassProgresses(p, s, listed, now);
    PassAdvances(p, s, listed, now);
    WeightFalls(PhasesAt(p, s), PhasesAt(p, Reconcile(p, s, Unlimited, listed, now).store));
  }

  // ---- How many ripe passes are still to come

  function NonFinal(ph: seq<StepPhase>): nat {
    if ph == [] then 0 else NonFinal(ph[..|ph| - 1]) + if ph[|ph| - 1].Terminal() then 0 else 1
  }

  predicate SomeActive(ph: seq<StepPhase>) {
    exists i :: 0 <= i < |ph| && Active(ph[i])
  }

  /** One for every step that is not final, and one for the pass that is next while nothing is active. */
  function Remaining(ph: seq<StepPhase>): nat {
    NonFinal(ph) + if SomeActive(ph) then 0 else 1
  }

  lemma {:induction false} NonFinalFalls(a: seq<StepPhase>, b: seq<StepPhase>)
    requires AllAdvance(a, b)
    ensures NonFinal(b) <= NonFinal(a)
    ensures (exists i :: 0 <= i < |a| && !a[i].Terminal() && b[i].Terminal()) ==> NonFinal(b) < NonFinal(a)
  {
    if a != [] {
      var m := |a| - 1;
      var x, y := a[..m], b[..m];
      NonFinalFalls(x, y);
      if i :| 0 <= i < m && !a[i].Terminal() && b[i].Terminal() {
        assert !x[i].Terminal() && y[i].Terminal();
      }
    }
  }

  lemma {:induction false} ActiveIsNonFinal(ph: seq<StepPhase>)
    requires SomeActive(ph)
    ensures NonFinal(ph) > 0
  {
    var i :| 0 <= i < |ph| && Active(ph[i]);
    var m := |ph| - 1;
    if i < m {
      assert Active(ph[..m][i]);
      ActiveIsNonFinal(ph[..m]);
    }
  }

  /** The lifecycle never raises the number: the last active step to stop being active becomes final. */
  lemma RemainingNeverRises(a: seq<StepPhase>, b: seq<StepPhase>)
    requires AllAdvance(a, b)
    ensures Remaining(b) <= Remaining(a)
  {
    NonFinalFalls(a, b);
    if SomeActive(a) && !SomeActive(b) {
      var i :| 0 <= i < |a| && Active(a[i]);
      assert Advances(a[i], b[i]) && !Active(b[i]) && b[i].Terminal();
    }
  }

  lemma {:induction false} NonFinalBounded(ph: seq<StepPhase>)
    ensures NonFinal(ph) <= |ph|
  {
    if ph != [] {
      NonFinalBounded(ph[..|ph| - 1]);
    }
  }

  /** There are at most n + 1 to come, and at least one. */
  lemma RemainingBounds(ph: seq<StepPhase>)
    ensures 1 <= Remaining(ph) <= |ph| + 1
  {
    NonFinalBounded(ph);
    if SomeActive(ph) {
      ActiveIsNonFinal(ph);
    }
  }

  /** With nothing active a walk that finds a step due lowers it. */
  lemma WalkLowersRemaining(p: Spec, ph: seq<StepPhase>, i: nat)
    requires |ph| == |p.steps| && !SomeActive(ph) && i < |ph| && ph[i].Pending? && Decide(p, ph, i) != Wait
    ensures Remaining(WalkPhases(p, ph, 0)) < Remaining(ph)
  {
    var after := WalkPhases(p, ph, 0);
    WalkDecides(p, ph, 0, i);
    WalkIsWalked(p, ph);
    assert AllAdvance(ph, after);
    NonFinalFalls(ph, after);
    if Decide(p, ph, i) == Start {
      assert Active(after[i]);
    } else {
      assert !ph[i].Terminal() && after[i].Terminal();
    }
  }

  /** A step that becomes final lowers it while another is active before and after. */
  lemma FinishLowersRemaining(a: seq<StepPhase>, b: seq<StepPhase>, i: nat)
    requires AllAdvance(a, b) && SomeActive(a) && i < |a| && !a[i].Terminal() && b[i].Terminal() && SomeActive(b)
    ensures Remaining(b) < Remaining(a)
  {
    NonFinalFalls(a, b);
  }

  lemma SeenActiveWasActive(p: Spec, s: Store)
    requires Inv(p, s) && SomeActive(Seen(p, s))
    ensures SomeActive(PhasesAt(p, s))
  {
    var i :| 0 <= i < |p.steps| && Active(Seen(p, s)[i]);
    SeenAdvances(p, s);
    assert Active(PhasesAt(p, s)[i]);
  }

  lemma SeenLowersRemaining(p: Spec, s: Store)
    requires Inv(p, s) && Ripe(p, s) && SomeActive(Seen(p, s))
    ensures Remaining(Seen(p, s)) < Remaining(PhasesAt(p, s))
  {
    SeenActiveWasActive(p, s);
    SeenAllAdvance(p, s);
    var i: nat :| i < |p.steps| && Active(PhasesAt(p, s)[i]) && Seen(p, s)[i].Terminal();
    FinishLowersRemaining(PhasesAt(p, s), Seen(p, s), i);
  }

  /** What a ripe pass that goes on leaves. */
  lemma RipeWalkLowersRemaining(p: Spec, s: Store)
    requires RestIsTheEnd(p, s) && Inv(p, s) && Ripe(p, s) && !Over(p, Seen(p, s))
    ensures Remaining(WalkPhases(p, Seen(p, s), 0)) < Remaining(PhasesAt(p, s))
  {
    var seen := Seen(p, s);
    if SomeActive(seen) {
      SeenLowersRemaining(p, s);
      WalkIsWalked(p, seen);
      RemainingNeverRises(seen, WalkPhases(p, seen, 0));
    } else {
      SeenAllAdvance(p, s);
      RemainingNeverRises(PhasesAt(p, s), seen);
      var i: nat :| i < |p.steps| && seen[i].Pending? && Decide(p, seen, i) != Wait;
      WalkLowersRemaining(p, seen, i);
    }
  }

  /** Where rest is the end, a ripe pass ends the pipeline or leaves fewer to come. */
  lemma PassLowersRemaining(p: Spec, s: Store, listed: seq<string>, now: int)
    requires RestIsTheEnd(p, s) && Inv(p, s) && Live(s) && NamesFree(p, PhasesAt(p, s), s.jobs) && Ripe(p, s)
    ensures var t := Reconcile(p, s, Unlimited, listed, now).store;
            t.status.phase.Terminal() || Remaining(PhasesAt(p, t)) < Remaining(PhasesAt(p, s))
  {
    PassExact(p, s, listed, now);
    if !Over(p, Seen(p, s)) {
      RipeWalkLowersRemaining(p, s);
    }
  }

  lemma {:induction false} ChainLowersRemaining(p: Spec, tr: seq<Store>, k: nat)
    requires LastingChain(p, tr) && Inv(p, tr[0]) && k < |tr|
    ensures Inv(p, tr[k]) && Remaining(PhasesAt(p, tr[k])) <= Remaining(PhasesAt(p, tr[0]))
  {
    if k > 0 {
      ChainLowersRemaining(p, tr, k - 1);
      assert StepAt(p, tr, k - 1) && UnreplacedAt(tr, k - 1);
      NextKeepsInv(p, tr[k - 1], tr[k]);
      PhaseStepAdvances(p, PhasesAt(p, tr[k - 1]), PhasesAt(p, tr[k]));
      RemainingNeverRises(PhasesAt(p, tr[k - 1]), PhasesAt(p, tr[k]));
    }
  }

  /** Nothing that happens brings further ones. */
  lemma ContinuesLowersRemaining(p: Spec, s: Store, t: Store)
    requires Inv(p, s) && Continues(p, s, t)
    ensures Inv(p, t) && Remaining(PhasesAt(p, t)) <= Remaining(PhasesAt(p, s))
  {
    var tr :| LastingChain(p, tr) && tr[0] == s && Last(tr) == t;
    ChainLowersRemaining(p, tr, |tr| - 1);
  }

  // ---- How many ripe passes a pipeline needs

  /** A ripe pass on which no call fails and no name is taken, and then anything. */
  ghost predicate Productive(p: Spec, s: Store, s': Store) {
    && Live(s) && (s.status.steps == [] || Aligned(p, s.status.steps))
    && NamesFree(p, PhasesAt(p, s), s.jobs) && Ripe(p, s)
    && exists listed, now :: Continues(p, Reconcile(p, s, Unlimited, listed, now).store, s') && Lists(p, s.jobs, listed)
  }

  ghost predicate ContinuesAt(p: Spec, ss: seq<Store>, k: int) {
    0 <= k < |ss| - 1 ==> Continues(p, ss[k], ss[k + 1])
  }

  /** States in the life of a pipeline, with anything in between. */
  ghost predicate History(p: Spec, ss: seq<Store>) {
    |ss| > 0 && Reachable(p, ss[0]) && forall k :: ContinuesAt(p, ss, k)
  }

  ghost function ProductivePasses(p: Spec, ss: seq<Store>): nat {
    if |ss| <= 1 then 0
    else ProductivePasses(p, ss[..|ss| - 1]) + if Productive(p, ss[|ss| - 2], Last(ss)) then 1 else 0
  }

  lemma ProductiveLowersRemaining(p: Spec, s: Store, s': Store)
    requires RestIsTheEnd(p, s) && Inv(p, s) && Productive(p, s, s')
    ensures s'.status.phase.Terminal() || Remaining(PhasesAt(p, s')) < Remaining(PhasesAt(p, s))
  {
    var listed, now :| Continues(p, Reconcile(p, s, Unlimited, listed, now).store, s') && Lists(p, s.jobs, listed);
    var t := Reconcile(p, s, Unlimited, listed, now).store;
    PassLowersRemaining(p, s, listed, now);
    PassContinues(p, s, Unlimited, listed, now);
    ContinuesKeepsInv(p, s, t);
    ContinuesLowersRemaining(p, t, s');
    if t.status.phase.Terminal() {
      ContinuesKeepsVerdict(p, t, s');
    }
  }

  lemma HistoryPrefix(p: Spec, ss: seq<Store>)
    requires History(p, ss) && |ss| > 1
    ensures History(p, ss[..|ss| - 1]) && Last(ss[..|ss| - 1]) == ss[|ss| - 2]
    ensures Continues(p, ss[|ss| - 2], Last(ss))
  {
    var front := ss[..|ss| - 1];
    forall k
      ensures ContinuesAt(p, front, k)
    {
      assert ContinuesAt(p, ss, k);
    }
    assert ContinuesAt(p, ss, |ss| - 2);
  }

  lemma {:induction false} HistoryReachable(p: Spec, ss: seq<Store>)
    requires History(p, ss)
    ensures Reachable(p, Last(ss)) && Inv(p, Last(ss))
    decreases |ss|
  {
    if |ss| > 1 {
      HistoryPrefix(p, ss);
      HistoryReachable(p, ss[..|ss| - 1]);
      ReachableContinues(p, ss[|ss| - 2], Last(ss));
    }
    ReachableInv(p, Last(ss));
  }

  lemma HistoryStep(p: Spec, ss: seq<Store>)
    requires History(p, ss) && |ss| > 1 && RestIsTheEnd(p, ss[|ss| - 2])
    ensures var s, s' := ss[|ss| - 2], Last(ss);
            && (s.status.phase.Terminal() ==> s'.status.phase.Terminal() && !Productive(p, s, s'))
            && Remaining(PhasesAt(p, s')) <= Remaining(PhasesAt(p, s))
            && (Productive(p, s, s') ==>
                  s'.status.phase.Terminal() || Remaining(PhasesAt(p, s')) < Remaining(PhasesAt(p, s)))
  {
    var s, s' := ss[|ss| - 2], Last(ss);
    HistoryPrefix(p, ss);
    HistoryReachable(p, ss[..|ss| - 1]);
    ContinuesLowersRemaining(p, s, s');
    if s.status.phase.Terminal() {
      ContinuesKeepsVerdict(p, s, s');
    } else if Productive(p, s, s') {
      ProductiveLowersRemaining(p, s, s');
    }
  }

  ghost predicate RestsAt(p: Spec, ss: seq<Store>, k: int) {
    0 <= k < |ss| ==> RestIsTheEnd(p, ss[k])
  }

  lemma RestsPrefix(p: Spec, ss: seq<Store>, front: seq<Store>)
    requires |ss| > 1 && front == ss[..|ss| - 1] && forall k :: RestsAt(p, ss, k)
    ensures forall k :: RestsAt(p, front, k)
  {
    forall k
      ensures RestsAt(p, front, k)
    {
      assert RestsAt(p, ss, k);
    }
  }

  lemma {:induction false} ProductivePassesCount(p: Spec, ss: seq<Store>)
    requires History(p, ss) && forall k :: RestsAt(p, ss, k)
    ensures Last(ss).status.phase.Terminal() ||
            ProductivePasses(p, ss) + Remaining(PhasesAt(p, Last(ss))) <= |p.steps| + 1
    ensures ProductivePasses(p, ss) <= |p.steps| + 1
    ensures ProductivePasses(p, ss) > |p.steps| ==> Last(ss).status.phase.Terminal()
    decreases |ss|
  {
    RemainingBounds(PhasesAt(p, Last(ss)));
    if |ss| > 1 {
      HistoryPrefix(p, ss);
      RestsPrefix(p, ss, ss[..|ss| - 1]);
      ProductivePassesCount(p, ss[..|ss| - 1]);
      assert RestsAt(p, ss, |ss| - 2);
      HistoryStep(p, ss);
    }
  }

  /** Termination for every schedule: whatever happens before, between and after them, there are at most n + 1
      productive passes in the life of a sound n-step pipeline, the last of them ends it, and until then the number of
      those still to come is bounded by the phases. */
  lemma ProductivePassesEnd(p: Spec, ss: seq<Store>)
    requires Sound(p) && History(p, ss)
    ensures Last(ss).status.phase.Terminal() ||
            ProductivePasses(p, ss) + Remaining(PhasesAt(p, Last(ss))) <= |p.steps| + 1
    ensures ProductivePasses(p, ss) <= |p.steps| + 1
    ensures ProductivePasses(p, ss) == |p.steps| + 1 ==> Last(ss).status.phase.Terminal()
  {
    forall k
      ensures RestsAt(p, ss, k)
    {
      if 0 <= k < |ss| {
        SoundRests(p, ss[k]);
      }
    }
    ProductivePassesCount(p, ss);
  }

  // ---- Which pipelines end

  /** The state follows the fate and its Jobs deliver the outcomes, as in every state of a delivering run. */
  ghost predicate Follows(p: Spec, s: Store, out: seq<StepPhase>)
    requires Outcomes(p, out)
  {
    FollowsFate(p, out, PhasesAt(p, s)) && Delivers(p, s, out)
  }

  lemma DeliveringRunFollows(p: Spec, tr: seq<Store>, out: seq<StepPhase>, k: nat)
    requires DeliveringRun(p, tr, out) && k < |tr|
    ensures Follows(p, tr[k], out)
  {
    RunFollowsFate(p, tr, out, k);
    assert DeliversAt(p, tr, out, k);
  }

  lemma StartedFate(p: Spec, out: seq<StepPhase>, i: nat)
    requires Outcomes(p, out) && i < |p.steps| && Decide(p, FateOf(p, out), i) == Start
    ensures FateOf(p, out)[i] == out[i]
  {
    FateIsFixed(p, out);
    assert Round(p, out, FateOf(p, out))[i] == out[i];
  }

  /** An active step is seen to finish as delivered. */
  lemma SeenAsDelivered(p: Spec, s: Store, out: seq<StepPhase>, i: nat)
    requires Inv(p, s) && Outcomes(p, out) && Delivers(p, s, out) && i < |p.steps|
    requires Active(PhasesAt(p, s)[i]) && Seen(p, s)[i].Terminal()
    ensures Seen(p, s)[i] == out[i]
  {
    var name := JobName(p, i);
    assert name in s.jobs;
    FirstTrueHolds(s.jobs[name].status.conditions);
    assert s.status.steps[i].jobName == name && name in Owned(p, s.jobs);
  }

  /** What a pass sees follows the fate. */
  lemma SeenFollows(p: Spec, s: Store, out: seq<StepPhase>)
    requires Inv(p, s) && Outcomes(p, out) && Follows(p, s, out)
    ensures FollowsFate(p, out, Seen(p, s))
  {
    SeenAdvances(p, s);
    forall i: nat | i < |p.steps| && Seen(p, s)[i] != PhasesAt(p, s)[i]
      ensures Decide(p, FateOf(p, out), i) == Start
      ensures Seen(p, s)[i].Terminal() ==> FateOf(p, out)[i] == Seen(p, s)[i]
    {
      StartedFate(p, out, i);
      if Seen(p, s)[i].Terminal() {
        SeenAsDelivered(p, s, out, i);
      }
    }
  }

  /** A pipeline whose verdict is final is one whose fate is over. */
  lemma OverByFate(p: Spec, out: seq<StepPhase>, ph: seq<StepPhase>)
    requires Outcomes(p, out) && |ph| == |p.steps| && FollowsFate(p, out, ph) && Over(p, ph)
    ensures Over(p, FateOf(p, out))
  {
    var fate := FateOf(p, out);
    if j :| 0 <= j < |ph| && ph[j].Failed? {
      assert fate[j].Failed?;
    }
    FateIsFixed(p, out);
    assert forall i :: 0 <= i < |fate| ==> fate[i] == Round(p, out, fate)[i];
    forall i | 0 <= i < |fate| && fate[i].Pending?
      ensures ph[i].Pending?
    {}
  }

  lemma FinalIsOver(p: Spec, s: Store)
    requires CoreInv(p, s) && s.status.phase.Terminal()
    ensures Over(p, PhasesAt(p, s))
  {
    assert VerdictInv(p, s) && PhasesAt(p, s) == Phases(p, s.status.steps);
  }

  /** A finished state follows a fate that is over. */
  lemma FinalFateIsOver(p: Spec, s: Store, out: seq<StepPhase>)
    requires Inv(p, s) && Outcomes(p, out) && Follows(p, s, out) && s.status.phase.Terminal()
    ensures Over(p, FateOf(p, out))
  {
    FinalIsOver(p, s);
    OverByFate(p, out, PhasesAt(p, s));
  }

  /** Where the fate is over, rest is the end. */
  lemma FateRests(p: Spec, s: Store, out: seq<StepPhase>)
    requires Inv(p, s) && Outcomes(p, out) && Follows(p, s, out) && Over(p, FateOf(p, out))
    ensures RestIsTheEnd(p, s)
  {
    SeenFollows(p, s, out);
    if forall i :: 0 <= i < |p.steps| ==> !Active(Seen(p, s)[i]) {
      RestIsFateExact(p, out, Seen(p, s));
    }
  }

  ghost predicate FollowsAt(p: Spec, ss: seq<Store>, out: seq<StepPhase>, k: int)
    requires Outcomes(p, out)
  {
    0 <= k < |ss| ==> Follows(p, ss[k], out)
  }

  lemma {:induction false} HistoryInv(p: Spec, ss: seq<Store>, k: nat)
    requires History(p, ss) && k < |ss|
    ensures Inv(p, ss[k])
  {
    if k == 0 {
      ReachableInv(p, ss[0]);
    } else {
      HistoryInv(p, ss, k - 1);
      assert ContinuesAt(p, ss, k - 1);
      ContinuesKeepsInv(p, ss[k - 1], ss[k]);
    }
  }

  /** Termination, exactly, for every pipeline and every schedule: once there have been n + 1 productive passes, the
      pipeline has ended if and only if its fate is over, that is, no step is without a fate, or some fate is to fail
      and no step with a fail condition is without one. */
  lemma ProductivePassesEndExact(p: Spec, ss: seq<Store>, out: seq<StepPhase>)
    requires Outcomes(p, out) && History(p, ss) && forall k :: FollowsAt(p, ss, out, k)
    requires ProductivePasses(p, ss) > |p.steps|
    ensures Last(ss).status.phase.Terminal() <==> Over(p, FateOf(p, out))
  {
    assert FollowsAt(p, ss, out, |ss| - 1);
    HistoryInv(p, ss, |ss| - 1);
    if Last(ss).status.phase.Terminal() {
      FinalFateIsOver(p, Last(ss), out);
    }
    if Over(p, FateOf(p, out)) {
      AllRest(p, ss, out);
      ProductivePassesCount(p, ss);
    }
  }

  lemma AllRest(p: Spec, ss: seq<Store>, out: seq<StepPhase>)
    requires Outcomes(p, out) && History(p, ss) && Over(p, FateOf(p, out))
    requires forall k :: FollowsAt(p, ss, out, k)
    ensures forall k :: RestsAt(p, ss, k)
  {
    forall k
      ensures RestsAt(p, ss, k)
    {
      if 0 <= k < |ss| {
        assert FollowsAt(p, ss, out, k);
        HistoryInv(p, ss, k);
        FateRests(p, ss[k], out);
      }
    }
  }

  // ---- Passes in a row

  /** One pass on which no call fails, after which the Jobs run on. */
  ghost predicate PassThenJobs(p: Spec, s: Store, s': Store) {
    && (s.status.steps == [] || Aligned(p, s.status.steps))
    && exists listed, now ::
         Lists(p, s.jobs, listed) && JobsChange(Reconcile(p, s, Unlimited, listed, now).store, s')
  }

  ghost predicate PassAt(p: Spec, ss: seq<Store>, k: int) {
    0 < k < |ss| ==> PassThenJobs(p, ss[k - 1], ss[k])
  }

  /** Such passes in a row, from a reachable, initialised state in which no name is taken. */
  ghost predicate PassRun(p: Spec, ss: seq<Store>) {
    && |ss| > 0 && Reachable(p, ss[0])
    && ss[0].present && !ss[0].deleting && !ss[0].status.phase.Unset?
    && NamesFree(p, PhasesAt(p, ss[0]), ss[0].jobs)
    && forall k :: PassAt(p, ss, k)
  }

  /** What holds between such passes. */
  ghost predicate Ready(p: Spec, s: Store) {
    && Inv(p, s) && s.present && !s.deleting && !s.status.phase.Unset?
    && (!s.status.phase.Terminal() ==> NamesFree(p, PhasesAt(p, s), s.jobs))
  }

  lemma JobsChangeContinues(p: Spec, s: Store, s': Store)
    requires JobsChange(s, s')
    ensures Continues(p, s, s')
  {
    ContinuesAtMostOnce(p, s, s');
  }

  lemma PassThenJobsContinues(p: Spec, s: Store, s': Store)
    requires CoreInv(p, s) && PassThenJobs(p, s, s')
    ensures Continues(p, s, s')
  {
    var listed, now :| Lists(p, s.jobs, listed) && JobsChange(Reconcile(p, s, Unlimited, listed, now).store, s');
    var t := Reconcile(p, s, Unlimited, listed, now).store;
    PassContinues(p, s, Unlimited, listed, now);
    JobsChangeContinues(p, t, s');
    ContinuesTransitive(p, s, t, s');
  }

  lemma PassStaysReady(p: Spec, s: Store, s': Store)
    requires Ready(p, s) && PassThenJobs(p, s, s')
    ensures Ready(p, s')
  {
    var listed, now :| Lists(p, s.jobs, listed) && JobsChange(Reconcile(p, s, Unlimited, listed, now).store, s');
    PassThenJobsContinues(p, s, s');
    ContinuesKeepsInv(p, s, s');
    if !s.status.phase.Terminal() {
      PassExact(p, s, listed, now);
      PassKeepsNamesFree(p, s, listed, now);
    }
  }

  lemma {:induction false} PassRunStaysReady(p: Spec, ss: seq<Store>, k: nat)
    requires PassRun(p, ss) && k < |ss|
    ensures Ready(p, ss[k])
  {
    if k == 0 {
      ReachableInv(p, ss[0]);
    } else {
      PassRunStaysReady(p, ss, k - 1);
      assert PassAt(p, ss, k);
      PassStaysReady(p, ss[k - 1], ss[k]);
    }
  }

  ghost function RipePasses(p: Spec, ss: seq<Store>): nat {
    if |ss| <= 1 then 0
    else RipePasses(p, ss[..|ss| - 1]) + if Live(ss[|ss| - 2]) && Ripe(p, ss[|ss| - 2]) then 1 else 0
  }

  lemma RipeIsProductive(p: Spec, s: Store, s': Store)
    requires Ready(p, s) && PassThenJobs(p, s, s')
    ensures Live(s) && Ripe(p, s) ==> Productive(p, s, s')
  {
    var listed, now :| Lists(p, s.jobs, listed) && JobsChange(Reconcile(p, s, Unlimited, listed, now).store, s');
    JobsChangeContinues(p, Reconcile(p, s, Unlimited, listed, now).store, s');
  }

  lemma PassRunPrefix(p: Spec, ss: seq<Store>)
    requires PassRun(p, ss) && |ss| > 1
    ensures PassRun(p, ss[..|ss| - 1])
  {
    var front := ss[..|ss| - 1];
    forall k
      ensures PassAt(p, front, k)
    {
      assert PassAt(p, ss, k);
    }
  }

  lemma LastRipeProduces(p: Spec, ss: seq<Store>)
    requires PassRun(p, ss) && |ss| > 1
    ensures Live(ss[|ss| - 2]) && Ripe(p, ss[|ss| - 2]) ==> Productive(p, ss[|ss| - 2], Last(ss))
  {
    PassRunStaysReady(p, ss, |ss| - 2);
    assert PassAt(p, ss, |ss| - 1);
    RipeIsProductive(p, ss[|ss| - 2], Last(ss));
  }

  lemma {:induction false} RipePassesProduce(p: Spec, ss: seq<Store>)
    requires PassRun(p, ss)
    ensures RipePasses(p, ss) <= ProductivePasses(p, ss)
    decreases |ss|
  {
    if |ss| > 1 {
      PassRunPrefix(p, ss);
      RipePassesProduce(p, ss[..|ss| - 1]);
      LastRipeProduces(p, ss);
    }
  }

  lemma PassRunIsHistory(p: Spec, ss: seq<Store>)
    requires PassRun(p, ss)
    ensures History(p, ss)
  {
    forall k
      ensures ContinuesAt(p, ss, k)
    {
      if 0 <= k < |ss| - 1 {
        PassRunStaysReady(p, ss, k);
        assert PassAt(p, ss, k + 1);
        PassThenJobsContinues(p, ss[k], ss[k + 1]);
      }
    }
  }

  /** Passes in a row while the Jobs run at their own pace: at most n + 1 of them find nothing active, or something
      finished, and the last of those ends the pipeline, however many others there are. */
  lemma RipePassesEnd(p: Spec, ss: seq<Store>)
    requires Sound(p) && PassRun(p, ss)
    ensures RipePasses(p, ss) <= |p.steps| + 1
    ensures RipePasses(p, ss) == |p.steps| + 1 ==> Last(ss).status.phase.Terminal()
  {
    PassRunIsHistory(p, ss);
    RipePassesProduce(p, ss);
    ProductivePassesEnd(p, ss);
  }

  // ---- When all Jobs finish between two passes

  /** Nothing is suspended, and the Job of every Running step is there and finished. */
  ghost predicate AllFinished(p: Spec, s: Store) {
    forall i :: 0 <= i < |p.steps| ==>
      && !PhasesAt(p, s)[i].Suspended?
      && (PhasesAt(p, s)[i].Running? ==>
            && JobName(p, i) in s.jobs
            && (FirstTrue(s.jobs[JobName(p, i)].status.conditions) == Some(StepPhase.Succeeded) ||
                FirstTrue(s.jobs[JobName(p, i)].status.conditions) == Some(StepPhase.Failed)))
  }

  ghost predicate FinishedAt(p: Spec, ss: seq<Store>, k: int) {
    0 <= k < |ss| - 1 ==> AllFinished(p, ss[k])
  }

  /** Passes in a row, before each of which all Jobs that were running have finished. */
  ghost predicate EagerRun(p: Spec, ss: seq<Store>) {
    PassRun(p, ss) && forall k :: FinishedAt(p, ss, k)
  }

  /** Then an observation finalises every Running step and touches no other. */
  lemma ObservationSees(p: Spec, s: Store)
    requires Inv(p, s) && AllFinished(p, s)
    ensures forall i :: 0 <= i < |p.steps| ==>
              if PhasesAt(p, s)[i].Running? then Seen(p, s)[i].Succeeded? || Seen(p, s)[i].Failed?
              else Seen(p, s)[i] == PhasesAt(p, s)[i]
    ensures forall i :: 0 <= i < |p.steps| ==> Seen(p, s)[i].Pending? || Seen(p, s)[i].Terminal()
  {
    SeenAdvances(p, s);
  }

  /** What has been seen stays, and everything ready on it is decided. */
  ghost predicate DecidesReady(p: Spec, seen: seq<StepPhase>, ph: seq<StepPhase>)
    requires |seen| == |ph| == |p.steps|
  {
    && (forall i :: 0 <= i < |seen| && !seen[i].Pending? ==> ph[i] == seen[i])
    && (forall i :: 0 <= i < |seen| && seen[i].Pending? && Decide(p, seen, i) != Wait ==> !ph[i].Pending?)
  }

  lemma WalkDecidesReady(p: Spec, seen: seq<StepPhase>)
    requires |seen| == |p.steps| && forall i :: 0 <= i < |seen| ==> seen[i].Pending? || seen[i].Terminal()
    ensures DecidesReady(p, seen, WalkPhases(p, seen, 0))
    ensures (forall i :: 0 <= i < |seen| ==> !seen[i].Pending?) ==> Over(p, seen)
  {
    forall i: nat | i < |seen| && seen[i].Pending? && Decide(p, seen, i) != Wait
      ensures !WalkPhases(p, seen, 0)[i].Pending?
    {
      WalkDecides(p, seen, 0, i);
    }
    WalkOnlyDecides(p, seen, 0);
  }

  /** So the pass ends the pipeline, or decides every step whose dependencies it has seen final. */
  lemma PassDecides(p: Spec, s: Store, listed: seq<string>, now: int)
    requires Inv(p, s) && Live(s) && NamesFree(p, PhasesAt(p, s), s.jobs) && AllFinished(p, s)
    ensures var o, seen := Reconcile(p, s, Unlimited, listed, now), Seen(p, s);
            if o.store.status.phase.Terminal() then o.answer == Stop
            else
              && o.answer == RequeueLater
              && (exists i :: 0 <= i < |seen| && seen[i].Pending?)
              && DecidesReady(p, seen, PhasesAt(p, o.store))
  {
    ObservationSees(p, s);
    PassExact(p, s, listed, now);
    WalkDecidesReady(p, Seen(p, s));
  }

  /** Such passes are ripe. */
  lemma EagerIsRipe(p: Spec, s: Store)
    requires Inv(p, s) && AllFinished(p, s)
    ensures Ripe(p, s)
  {
    ObservationSees(p, s);
    if i :| 0 <= i < |p.steps| && Active(PhasesAt(p, s)[i]) {
      assert PhasesAt(p, s)[i].Running? && Seen(p, s)[i].Terminal();
    }
  }

  lemma EagerRunPrefix(p: Spec, ss: seq<Store>)
    requires EagerRun(p, ss) && |ss| > 1
    ensures EagerRun(p, ss[..|ss| - 1]) && Last(ss[..|ss| - 1]) == ss[|ss| - 2]
  {
    PassRunPrefix(p, ss);
    var front := ss[..|ss| - 1];
    forall k
      ensures FinishedAt(p, front, k)
    {
      assert FinishedAt(p, ss, k);
    }
  }

  lemma UndecidedStaysLive(p: Spec, s: Store, s': Store)
    requires Ready(p, s) && PassThenJobs(p, s, s') && !s'.status.phase.Terminal()
    ensures Live(s)
  {
    PassThenJobsContinues(p, s, s');
    if s.status.phase.Terminal() {
      ContinuesKeepsVerdict(p, s, s');
    }
  }

  lemma LastEagerIsRipe(p: Spec, ss: seq<Store>)
    requires EagerRun(p, ss) && |ss| > 1 && !Last(ss).status.phase.Terminal()
    ensures Live(ss[|ss| - 2]) && Ripe(p, ss[|ss| - 2])
  {
    var k := |ss| - 2;
    PassRunStaysReady(p, ss, k);
    assert PassAt(p, ss, k + 1) && FinishedAt(p, ss, k);
    EagerIsRipe(p, ss[k]);
    UndecidedStaysLive(p, ss[k], ss[k + 1]);
  }

  /** All of them, while the pipeline has not ended. */
  lemma {:induction false} EagerRunIsRipe(p: Spec, ss: seq<Store>)
    requires EagerRun(p, ss) && !Last(ss).status.phase.Terminal()
    ensures RipePasses(p, ss) == |ss| - 1
    decreases |ss|
  {
    if |ss| > 1 {
      LastEagerIsRipe(p, ss);
      EagerRunPrefix(p, ss);
      EagerRunIsRipe(p, ss[..|ss| - 1]);
    }
  }

  /** So from any reachable state n + 1 such passes end a sound n-step pipeline. */
  lemma TerminatesWithinBound(p: Spec, ss: seq<Store>)
    requires Sound(p) && EagerRun(p, ss) && |ss| >= |p.steps| + 2
    ensures Last(ss).status.phase.Terminal()
  {
    if !Last(ss).status.phase.Terminal() {
      EagerRunIsRipe(p, ss);
      RipePassesEnd(p, ss);
    }
  }

  ghost predicate SkipsAsDecided(p: Spec, fate: seq<StepPhase>)
    requires |fate| == |p.steps|
  {
    forall i :: 0 <= i < |fate| && Decide(p, fate, i) == Skip ==> fate[i].Skipped?
  }

  lemma HandledTracks(p: Spec, fate: seq<StepPhase>, ph: seq<StepPhase>, i: nat)
    requires |fate| == |ph| == |p.steps| && SkipsAsDecided(p, fate)
    requires i < |ph| && SuspensionFree(ph) && Tracks(p, fate, ph)
    ensures SuspensionFree(Handled(p, ph, i)) && Tracks(p, fate, Handled(p, ph, i))
  {
    if ph[i].Pending? && Decide(p, ph, i) != Wait {
      DecidedIsGrounded(p, ph, i);
      DecisionStable(p, ph, fate, i);
    }
  }

  lemma {:induction false} WalkTracks(p: Spec, fate: seq<StepPhase>, ph: seq<StepPhase>, i: nat)
    requires |fate| == |ph| == |p.steps| && SkipsAsDecided(p, fate)
    requires i <= |ph| && SuspensionFree(ph) && Tracks(p, fate, ph)
    ensures Tracks(p, fate, WalkPhases(p, ph, i))
    decreases |ph| - i
  {
    if i < |ph| {
      HandledTracks(p, fate, ph, i);
      WalkTracks(p, fate, Handled(p, ph, i), i + 1);
    }
  }

  /** What a walk makes of phases that follow the fate follows it. */
  lemma WalkFollows(p: Spec, out: seq<StepPhase>, ph: seq<StepPhase>)
    requires Outcomes(p, out) && |ph| == |p.steps| && SuspensionFree(ph) && FollowsFate(p, out, ph)
    ensures FollowsFate(p, out, WalkPhases(p, ph, 0))
  {
    var fate := FateOf(p, out);
    FateIsFixed(p, out);
    forall i | 0 <= i < |fate| && Decide(p, fate, i) == Skip
      ensures fate[i].Skipped?
    {
      assert fate[i] == Round(p, out, fate)[i];
    }
    WalkTracks(p, fate, ph, 0);
  }

  lemma EagerPassFollows(p: Spec, s: Store, s': Store, out: seq<StepPhase>)
    requires Ready(p, s) && PassThenJobs(p, s, s') && AllFinished(p, s) && Outcomes(p, out) && Follows(p, s, out)
    ensures FollowsFate(p, out, PhasesAt(p, s'))
  {
    if s.status.phase.Terminal() {
      PassThenJobsContinues(p, s, s');
      ContinuesKeepsVerdict(p, s, s');
    } else {
      var listed, now :| Lists(p, s.jobs, listed) && JobsChange(Reconcile(p, s, Unlimited, listed, now).store, s');
      ReconcileFollows(p, s, listed, now, out);
    }
  }

  lemma ReconcileFollows(p: Spec, s: Store, listed: seq<string>, now: int, out: seq<StepPhase>)
    requires Ready(p, s) && Live(s) && AllFinished(p, s) && Outcomes(p, out) && Follows(p, s, out)
    ensures FollowsFate(p, out, PhasesAt(p, Reconcile(p, s, Unlimited, listed, now).store))
  {
    ObservationSees(p, s);
    SeenFollows(p, s, out);
    PassExact(p, s, listed, now);
    WalkFollows(p, out, Seen(p, s));
  }

  /** Eager passes follow the fate, if the run before them did and the Jobs deliver. */
  lemma {:induction false} EagerRunFollows(p: Spec, ss: seq<Store>, out: seq<StepPhase>, k: nat)
    requires EagerRun(p, ss) && Outcomes(p, out) && FollowsFate(p, out, PhasesAt(p, ss[0])) && k < |ss|
    requires forall j :: DeliversAt(p, ss, out, j)
    ensures Follows(p, ss[k], out)
  {
    assert DeliversAt(p, ss, out, k);
    if k > 0 {
      EagerRunFollows(p, ss, out, k - 1);
      PassRunStaysReady(p, ss, k - 1);
      assert PassAt(p, ss, k) && FinishedAt(p, ss, k - 1);
      EagerPassFollows(p, ss[k - 1], ss[k], out);
    }
  }

  /** Of every pipeline, sound or not, n + 1 such passes show whether it ends: they have ended it exactly when its
      fate is over. */
  lemma EagerRunEndsExact(p: Spec, ss: seq<Store>, out: seq<StepPhase>)
    requires EagerRun(p, ss) && |ss| >= |p.steps| + 2 && Outcomes(p, out) && forall k :: DeliversAt(p, ss, out, k)
    requires FollowsFate(p, out, PhasesAt(p, ss[0]))
    ensures Last(ss).status.phase.Terminal() <==> Over(p, FateOf(p, out))
  {
    forall k
      ensures FollowsAt(p, ss, out, k)
    {
      if 0 <= k < |ss| {
        EagerRunFollows(p, ss, out, k);
      }
    }
    PassRunIsHistory(p, ss);
    if Last(ss).status.phase.Terminal() {
      assert FollowsAt(p, ss, out, |ss| - 1);
      HistoryInv(p, ss, |ss| - 1);
      FinalFateIsOver(p, Last(ss), out);
    } else {
      EagerRunIsRipe(p, ss);
      RipePassesProduce(p, ss);
      ProductivePassesEndExact(p, ss, out);
    }
  }

  // ---- One pass at rest

  /** With nothing running or suspended and no name taken, a walk on which no call fails decides something exactly
      when the Pending steps are not a stuck set. */
  lemma RestingWalkExact(p: Spec, c: Ctx)
    requires UniqueNames(p) && Synced(p, c) && c.budget.Unlimited?
    requires forall i :: 0 <= i < |p.steps| ==> !Active(c.mem.steps[i].phase)
    requires NamesFree(p, Phases(p, c.mem.steps), c.store.jobs)
    ensures StartFrom(p, c, 0).Ok?
    ensures Phases(p, StartFrom(p, c, 0).c.mem.steps) == Phases(p, c.mem.steps)
            <==> Stuck(p, Undecided(Phases(p, c.mem.steps)))
  {
    var ph := Phases(p, c.mem.steps);
    WalkExact(p, c, 0);
    WalkRestsExact(p, ph, 0);
    WaitingIsStuck(p, ph);
  }

  // ---- The work queue

  lemma {:induction false} WalkKeepsPhase(p: Spec, c: Ctx, i: nat)
    requires Aligned(p, c.mem.steps) && i <= |p.steps| && c.store.status.phase == c.mem.phase
    ensures var r := StartFrom(p, c, i);
            r.Ok? ==> r.c.store.status.phase == c.mem.phase
    decreases |p.steps| - i
  {
    if i < |p.steps| {
      var r := HandleStep(p, c, i);
      if r.Ok? {
        WalkKeepsPhase(p, r.c, i + 1);
      }
    }
  }

  lemma SecondHalfAnswers(p: Spec, c: Ctx, now: int)
    requires Aligned(p, c.mem.steps) && c.store.status.phase == c.mem.phase
    ensures var o := JudgeAndStart(p, c, now);
            o.answer == Error || (o.answer == if o.store.status.phase.Terminal() then Stop else RequeueLater)
  {
    var r := UpdatePipelinePhase(p, c, now);
    if r.Ok? && !r.c.mem.phase.Terminal() {
      WalkKeepsPhase(p, r.c, 0);
    }
  }

  lemma ObservationKeepsPhase(p: Spec, c: Ctx)
    requires Aligned(p, c.mem.steps) && c.store.status.phase == c.mem.phase && UpdateStepStatuses(c).Ok?
    ensures var c' := UpdateStepStatuses(c).c;
            Aligned(p, c'.mem.steps) && c'.store.status.phase == c'.mem.phase
  {}

  lemma PipelinePassAnswers(p: Spec, s: Store, budget: Budget, now: int)
    requires s.status.steps == [] || Aligned(p, s.status.steps)
    ensures var o := ReconcilePipeline(p, Ctx(s, budget, s.status), now);
            o.answer == Error || (o.answer == if o.store.status.phase.Terminal() then Stop else RequeueLater)
  {
    var r1 := Initialise(p, Ctx(s, budget, s.status));
    if r1.Ok? {
      var r2 := UpdateStepStatuses(r1.c);
      if r2.Ok? {
        ObservationKeepsPhase(p, r1.c);
        SecondHalfAnswers(p, r2.c, now);
      }
    }
  }

  /** A pass without an error over a live pipeline stops asking for further passes exactly when the verdict is in. */
  lemma NeverForgotten(p: Spec, s: Store, budget: Budget, listed: seq<string>, now: int)
    requires s.status.steps == [] || Aligned(p, s.status.steps)
    requires s.present && !s.deleting
    ensures var o := Reconcile(p, s, budget, listed, now);
            o.answer != Error ==> (o.answer == Stop <==> o.store.status.phase.Terminal())
  {
    if !budget.Spent() && (s.finalizer || !budget.Spend().Spent()) {
      var rest := if s.finalizer then budget.Spend() else budget.Spend().Spend();
      PipelinePassAnswers(p, s.(finalizer := true), rest, now);
    }
  }
}
