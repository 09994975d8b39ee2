/** How the dependency graph that the pipeline monitor draws relates to the order the controller enforces. */
module GraphAgreement {
  import opened Counting
  import opened Walks
  import opened PipelineTypes
  import opened Scheduling
  import opened Deadlock
  import opened GraphLayout

  /** What the drawing says: an edge leads from a step to one that is drawn below it. */
  ghost function Drawn(p: Spec): set<(string, string)> {
    Pairs(EdgesUpTo(p, |p.steps|))
  }

  /** What the controller enforces: the second step waits for the first. */
  ghost function Enforced(p: Spec): set<(string, string)> {
    set i, j | i in UpTo(|p.steps|) && j in UpTo(|p.steps|) && Dep(p, i, j) :: (p.steps[j].name, p.steps[i].name)
  }

  /** Step `i` is drawn below step `j`. */
  ghost predicate DrawnBelow(p: Spec, i: nat, j: nat)
    requires i < |p.steps| && j < |p.steps|
  {
    if p.steps[i].runIf.Some? then Dep(p, i, j) else i > 0 && j == i - 1
  }

  lemma {:induction false} ListedPairs(p: Spec, i: nat, k: nat)
    requires i < |p.steps| && p.steps[i].runIf.Some? && k <= |p.steps[i].runIf.value.steps|
    ensures forall a, b :: (a, b) in Pairs(ListedEdges(p, i, k)) <==>
              b == p.steps[i].name && Known(p, a) && a in p.steps[i].runIf.value.steps[..k]
  {
    if k > 0 {
      var source := p.steps[i].runIf.value.steps[k - 1];
      var names := p.steps[i].runIf.value.steps;
      ListedPairs(p, i, k - 1);
      PairsGrow(ListedEdges(p, i, k - 1), ListedEdge(p, i, source));
      assert ListedEdges(p, i, k - 1) + [] == ListedEdges(p, i, k - 1);
      assert names[..k] == names[..k - 1] + [source];
    }
  }

  lemma {:induction false} PairsOfSum(a: seq<Edge>, b: seq<Edge>)
    ensures Pairs(a + b) == Pairs(a) + Pairs(b)
  {
    if b == [] {
      assert a + b == a;
    } else {
      var m := |b| - 1;
      PairsOfSum(a, b[..m]);
      PairsGrow(a + b[..m], b[m]);
      PairsGrow(b[..m], b[m]);
      assert b == b[..m] + [b[m]];
      assert a + b == a + b[..m] + [b[m]];
    }
  }

  /** Step `i` is `b`, and it is drawn below `a`. */
  ghost predicate DrawnInto(p: Spec, i: nat, a: string, b: string)
    requires i < |p.steps|
  {
    b == p.steps[i].name && exists j: nat :: j < |p.steps| && DrawnBelow(p, i, j) && a == p.steps[j].name
  }

  lemma PairsInto(p: Spec, i: nat, a: string, b: string)
    requires i < |p.steps|
    ensures (a, b) in Pairs(EdgesInto(p, i)) <==> DrawnInto(p, i, a, b)
  {
    match p.steps[i].runIf
    case Some(r) =>
      ListedPairs(p, i, |r.steps|);
      assert r.steps[..|r.steps|] == r.steps;
      if (a, b) in Pairs(EdgesInto(p, i)) {
        var j: nat :| j < |p.steps| && p.steps[j].name == a;
        assert DrawnBelow(p, i, j);
      }
    case None =>
      if i > 0 {
        var e := EdgesInto(p, i)[0];
        PairsGrow([], e);
        assert [] + [e] == EdgesInto(p, i);
        assert DrawnBelow(p, i, i - 1);
      }
  }

  lemma {:induction false} DrawnPairs(p: Spec, n: nat, a: string, b: string)
    requires n <= |p.steps|
    ensures (a, b) in Pairs(EdgesUpTo(p, n)) <==> exists i: nat :: i < n && DrawnInto(p, i, a, b)
  {
    if n > 0 {
      var m := n - 1;
      DrawnPairs(p, m, a, b);
      PairsOfSum(EdgesUpTo(p, m), EdgesInto(p, m));
      PairsInto(p, m, a, b);
    }
  }

  ghost predicate KindFits(p: Spec, e: Edge, i: nat)
    requires i < |p.steps|
  {
    && e.target == p.steps[i].name
    && (e.kind.FailureEdge? <==> p.steps[i].HandlesFailure())
    && (e.kind.SequentialEdge? <==> p.steps[i].runIf.None?)
  }

  lemma {:induction false} ListedKinds(p: Spec, i: nat, k: nat)
    requires i < |p.steps| && p.steps[i].runIf.Some? && k <= |p.steps[i].runIf.value.steps|
    ensures forall e :: e in ListedEdges(p, i, k) ==> KindFits(p, e, i)
  {
    if k > 0 {
      ListedKinds(p, i, k - 1);
    }
  }

  /** The style of an edge tells how the step it leads to is conditioned. */
  lemma {:induction false} DrawnKinds(p: Spec, n: nat, e: Edge)
    requires n <= |p.steps| && e in EdgesUpTo(p, n)
    ensures exists i: nat :: i < n && KindFits(p, e, i)
  {
    var m := n - 1;
    if e in EdgesUpTo(p, m) {
      DrawnKinds(p, m, e);
    } else {
      assert e in EdgesInto(p, m);
      if p.steps[m].runIf.Some? {
        ListedKinds(p, m, |p.steps[m].runIf.value.steps|);
      }
      assert KindFits(p, e, m);
    }
  }

  lemma EnforcedPair(p: Spec, i: nat, j: nat)
    requires i < |p.steps| && j < |p.steps| && Dep(p, i, j)
    ensures (p.steps[j].name, p.steps[i].name) in Enforced(p)
  {
    assert i in UpTo(|p.steps|) && j in UpTo(|p.steps|);
  }

  /** Every edge drawn is a dependency the controller enforces. */
  lemma DrawnIsEnforced(p: Spec)
    ensures Drawn(p) <= Enforced(p)
  {
    forall pair | pair in Drawn(p)
      ensures pair in Enforced(p)
    {
      DrawnPairs(p, |p.steps|, pair.0, pair.1);
      var i: nat :| i < |p.steps| && DrawnInto(p, i, pair.0, pair.1);
      var j: nat :| j < |p.steps| && DrawnBelow(p, i, j) && pair.0 == p.steps[j].name;
      EnforcedPair(p, i, j);
    }
  }

  lemma BelowIsDrawn(p: Spec, i: nat, j: nat)
    requires i < |p.steps| && j < |p.steps| && DrawnBelow(p, i, j)
    ensures (p.steps[j].name, p.steps[i].name) in Drawn(p)
  {
    assert DrawnInto(p, i, p.steps[j].name, p.steps[i].name);
    DrawnPairs(p, |p.steps|, p.steps[j].name, p.steps[i].name);
  }

  lemma DrawnLeadsIsEnforced(p: Spec, a: string, b: string)
    requires Leads(Drawn(p), a, b)
    ensures Leads(Enforced(p), a, b)
  {
    DrawnIsEnforced(p);
    var c :| (a, c) in Drawn(p) && Reach(Drawn(p), c, b);
    MoreEdges(Drawn(p), Enforced(p), c, b);
  }

  /** The drawing shows the list order: every earlier step leads to every unconditional one. */
  ghost predicate ShowsSequence(p: Spec) {
    forall i: nat, j: nat :: j < i < |p.steps| && p.steps[i].runIf.None? ==>
      Leads(Drawn(p), p.steps[j].name, p.steps[i].name)
  }

  lemma SequenceGivesDetours(p: Spec)
    requires ShowsSequence(p)
    ensures Detours(Drawn(p), Enforced(p))
  {
    forall a, b | (a, b) in Enforced(p)
      ensures Leads(Drawn(p), a, b)
    {
      var i: nat, j: nat :| i in UpTo(|p.steps|) && j in UpTo(|p.steps|) && Dep(p, i, j) &&
                            a == p.steps[j].name && b == p.steps[i].name;
      if p.steps[i].runIf.Some? {
        BelowIsDrawn(p, i, j);
        EdgeLeads(Drawn(p), a, b);
      }
    }
  }

  /** The drawing and the controller agree on what leads to what exactly when the drawing shows the list order. */
  lemma AgreementExact(p: Spec)
    ensures ShowsSequence(p) <==> forall a, b :: Leads(Enforced(p), a, b) <==> Leads(Drawn(p), a, b)
  {
    if ShowsSequence(p) {
      SequenceGivesDetours(p);
      forall a, b
        ensures Leads(Enforced(p), a, b) <==> Leads(Drawn(p), a, b)
      {
        if Leads(Drawn(p), a, b) {
          DrawnLeadsIsEnforced(p, a, b);
        }
        if Leads(Enforced(p), a, b) {
          LeadsByDetours(Drawn(p), Enforced(p), a, b);
        }
      }
    }
    if forall a, b :: Leads(Enforced(p), a, b) <==> Leads(Drawn(p), a, b) {
      forall i: nat, j: nat | j < i < |p.steps| && p.steps[i].runIf.None?
        ensures Leads(Drawn(p), p.steps[j].name, p.steps[i].name)
      {
        EnforcedPair(p, i, j);
        EdgeLeads(Enforced(p), p.steps[j].name, p.steps[i].name);
      }
    }
  }

  /** A cycle the drawing shows is always a real one; where the drawing shows the list order, it shows every cycle. */
  lemma CyclesAgree(p: Spec)
    ensures HasCycle(Drawn(p)) ==> HasCycle(Enforced(p))
    ensures ShowsSequence(p) ==> (HasCycle(Drawn(p)) <==> HasCycle(Enforced(p)))
  {
    CycleLeadsBack(Drawn(p));
    CycleLeadsBack(Enforced(p));
    if a :| Leads(Drawn(p), a, a) {
      DrawnLeadsIsEnforced(p, a, a);
    }
    if ShowsSequence(p) {
      AgreementExact(p);
    }
  }

  /** Unconditional steps come first. */
  ghost predicate PlainFirst(p: Spec) {
    forall i, j :: 0 <= i < j < |p.steps| && p.steps[j].runIf.None? ==> p.steps[i].runIf.None?
  }

  lemma {:induction false} PlainChain(p: Spec, j: nat, i: nat)
    requires PlainFirst(p) && j < i < |p.steps| && p.steps[i].runIf.None?
    ensures Leads(Drawn(p), p.steps[j].name, p.steps[i].name)
    decreases i - j
  {
    var a, b, c := p.steps[j].name, p.steps[i].name, p.steps[i - 1].name;
    BelowIsDrawn(p, i, i - 1);
    if j == i - 1 {
      EdgeLeads(Drawn(p), a, b);
    } else {
      PlainChain(p, j, i - 1);
      EdgeReaches(Drawn(p), c, b);
      LeadsReaches(Drawn(p), a, c, b);
    }
  }

  /** With the unconditional steps first, the drawing shows the list order. */
  lemma PlainFirstShowsSequence(p: Spec)
    requires PlainFirst(p)
    ensures ShowsSequence(p)
  {
    forall i: nat, j: nat | j < i < |p.steps| && p.steps[i].runIf.None?
      ensures Leads(Drawn(p), p.steps[j].name, p.steps[i].name)
    {
      PlainChain(p, j, i);
    }
  }

  /** An unconditional step behind conditional ones: d waits for all others, among them b, which waits for d. */
  const HIDDEN := Spec("p", [Step("a", None), Step("b", Some(RunIf(OnSuccess, And, ["d"]))),
                             Step("c", Some(RunIf(OnSuccess, And, ["a"]))), Step("d", None)])

  lemma HiddenRanks(i: nat, j: nat)
    requires i < 4 && j < 4 && DrawnBelow(HIDDEN, i, j)
    ensures Rank(HIDDEN.steps[j].name) < Rank(HIDDEN.steps[i].name)
  {}

  /** Its drawing is acyclic although the pipeline can never decide b and d ... */
  lemma DrawingHidesDeadlock()
    ensures UniqueNames(HIDDEN) && !HasCycle(Drawn(HIDDEN)) && HasCycle(Enforced(HIDDEN))
  {
    var p := HIDDEN;
    forall a, b | (a, b) in Drawn(p)
      ensures Rank(a) < Rank(b)
    {
      DrawnPairs(p, 4, a, b);
      var i: nat :| i < 4 && DrawnInto(p, i, a, b);
      var j: nat :| j < 4 && DrawnBelow(p, i, j) && a == p.steps[j].name;
      HiddenRanks(i, j);
    }
    RankedIsAcyclic(Drawn(p));
    assert Dep(p, 1, 3) && Dep(p, 3, 1);
    EnforcedPair(p, 1, 3);
    EnforcedPair(p, 3, 1);
    EdgeReaches(Enforced(p), "b", "d");
    CycleIsBackEdge(Enforced(p));
  }

  /** ... and nothing it lists is missing. */
  lemma HiddenListsExist()
    ensures (forall i :: 0 <= i < |HIDDEN.steps| ==> !Missing(HIDDEN, i)) && !Sound(HIDDEN)
  {
    assert HIDDEN.steps[0].name == "a" && HIDDEN.steps[3].name == "d";
    assert Known(HIDDEN, "a") && Known(HIDDEN, "d");
    DrawingHidesDeadlock();
    EnforcedCycles(HIDDEN);
  }

  function Rank(name: string): nat {
    if name == "a" then 0 else if name == "c" then 1 else if name == "d" then 2 else 3
  }

  lemma RankedIsAcyclic(edges: set<(string, string)>)
    requires forall a, b :: (a, b) in edges ==> Rank(a) < Rank(b)
    ensures !HasCycle(edges)
  {
    if w :| Cycle(edges, w) {
      RankRises(edges, w);
    }
  }

  lemma {:induction false} RankRises(edges: set<(string, string)>, w: seq<string>)
    requires forall a, b :: (a, b) in edges ==> Rank(a) < Rank(b)
    requires Walk(edges, w)
    ensures Rank(w[0]) + |w| - 1 <= Rank(w[|w| - 1])
  {
    var m := |w| - 1;
    if m > 0 {
      Slice(edges, w, 0, m);
      RankRises(edges, w[..m]);
      assert Hop(edges, w, m - 1);
    }
  }

  // ---- From the cycle check to the controller

  /** Relabelling the nodes and turning all edges round keeps cycles. */
  lemma TurnedCycle<A(!new), B(!new)>(edges: set<(A, A)>, turned: set<(B, B)>, f: A -> B)
    requires HasCycle(edges) && forall a, b :: (a, b) in edges ==> (f(b), f(a)) in turned
    ensures HasCycle(turned)
  {
    var w :| Cycle(edges, w);
    var m := |w| - 1;
    var v := seq(|w|, k requires 0 <= k < |w| => f(w[m - k]));
    forall k
      ensures Hop(turned, v, k)
    {
      assert Hop(edges, w, m - k - 1);
    }
    assert Cycle(turned, v);
  }

  ghost function Position(p: Spec, name: string): (i: nat)
    ensures Known(p, name) ==> i < |p.steps| && p.steps[i].name == name
  {
    if Known(p, name) then var i :| 0 <= i < |p.steps| && p.steps[i].name == name; i else 0
  }

  ghost function NameAt(p: Spec, i: nat): string {
    if i < |p.steps| then p.steps[i].name else ""
  }

  lemma PositionsTurn(p: Spec, a: string, b: string)
    requires UniqueNames(p) && (a, b) in Enforced(p)
    ensures (Position(p, b), Position(p, a)) in WaitsFor(p)
  {
    var i: nat, j: nat :| i in UpTo(|p.steps|) && j in UpTo(|p.steps|) && Dep(p, i, j) &&
                          a == p.steps[j].name && b == p.steps[i].name;
    assert Known(p, a) && Known(p, b);
    assert Position(p, a) == j && Position(p, b) == i;
    WaitsForEdge(p, i, j);
  }

  lemma NamesTurn(p: Spec, i: nat, j: nat)
    requires (i, j) in WaitsFor(p)
    ensures (NameAt(p, j), NameAt(p, i)) in Enforced(p)
  {
    WaitsForEdge(p, i, j);
    EnforcedPair(p, i, j);
  }

  /** The dependency graph on names and the one on positions have cycles together. */
  lemma EnforcedCycles(p: Spec)
    requires UniqueNames(p)
    ensures HasCycle(Enforced(p)) <==> HasCycle(WaitsFor(p))
  {
    var position, name := (a: string) => Position(p, a), (i: nat) => NameAt(p, i);
    if HasCycle(Enforced(p)) {
      forall a, b | (a, b) in Enforced(p)
        ensures (position(b), position(a)) in WaitsFor(p)
      {
        PositionsTurn(p, a, b);
      }
      TurnedCycle(Enforced(p), WaitsFor(p), position);
    }
    if HasCycle(WaitsFor(p)) {
      forall i, j | (i, j) in WaitsFor(p)
        ensures (name(j), name(i)) in Enforced(p)
      {
        NamesTurn(p, i, j);
      }
      TurnedCycle(WaitsFor(p), Enforced(p), name);
    }
  }

  /** When the drawing shows the list order and all listed steps exist, an acyclic drawing is exactly what the
      controller needs to decide every step. */
  lemma AcyclicDrawingIsSound(p: Spec)
    requires UniqueNames(p) && ShowsSequence(p)
    ensures Sound(p) <==> (forall i :: 0 <= i < |p.steps| ==> !Missing(p, i)) && !HasCycle(Drawn(p))
  {
    CyclesAgree(p);
    EnforcedCycles(p);
  }
}
