/** Walks and cycles of a finite directed graph. */
module Walks {
  import opened Counting

  ghost predicate Hop<T>(edges: set<(T, T)>, w: seq<T>, k: int) {
    0 <= k < |w| - 1 ==> (w[k], w[k + 1]) in edges
  }

  ghost predicate Walk<T>(edges: set<(T, T)>, w: seq<T>) {
    |w| > 0 && forall k :: Hop(edges, w, k)
  }

  ghost predicate WalkFromTo<T>(edges: set<(T, T)>, w: seq<T>, a: T, b: T) {
    Walk(edges, w) && w[0] == a && w[|w| - 1] == b
  }

  /** `b` can be reached from `a`, in zero or more edges. */
  ghost predicate Reach<T(!new)>(edges: set<(T, T)>, a: T, b: T) {
    exists w :: WalkFromTo(edges, w, a, b)
  }

  /** `b` can be reached from `a` in one or more edges. */
  ghost predicate Leads<T(!new)>(edges: set<(T, T)>, a: T, b: T) {
    exists c :: (a, c) in edges && Reach(edges, c, b)
  }

  ghost predicate Cycle<T>(edges: set<(T, T)>, w: seq<T>) {
    Walk(edges, w) && |w| > 1 && w[0] == w[|w| - 1]
  }

  ghost predicate HasCycle<T(!new)>(edges: set<(T, T)>) {
    exists w :: Cycle(edges, w)
  }

  /** A cycle is a walk along edges that comes back to its first node. */
  lemma CycleExact<T(!new)>(edges: set<(T, T)>)
    ensures HasCycle(edges) <==>
            exists w: seq<T> :: |w| > 1 && w[0] == w[|w| - 1] &&
                                forall k :: 0 <= k < |w| - 1 ==> (w[k], w[k + 1]) in edges
  {
    if w :| Cycle(edges, w) {
      forall k | 0 <= k < |w| - 1
        ensures (w[k], w[k + 1]) in edges
      {
        assert Hop(edges, w, k);
      }
    }
    if w: seq<T> :| |w| > 1 && w[0] == w[|w| - 1] && forall k :: 0 <= k < |w| - 1 ==> (w[k], w[k + 1]) in edges {
      forall k
        ensures Hop(edges, w, k)
      {}
      assert Cycle(edges, w);
    }
  }

  lemma Slice<T>(edges: set<(T, T)>, w: seq<T>, lo: nat, hi: nat)
    requires Walk(edges, w) && lo < hi <= |w|
    ensures Walk(edges, w[lo..hi])
  {
    var v := w[lo..hi];
    forall k
      ensures Hop(edges, v, k)
    {
      assert Hop(edges, w, lo + k);
    }
  }

  lemma Join<T>(edges: set<(T, T)>, a: seq<T>, b: seq<T>)
    requires Walk(edges, a) && Walk(edges, b) && (a[|a| - 1], b[0]) in edges
    ensures Walk(edges, a + b)
  {
    var w := a + b;
    forall k
      ensures Hop(edges, w, k)
    {
      assert Hop(edges, a, k) && Hop(edges, b, k - |a|);
    }
  }

  lemma ReachTransitive<T(!new)>(edges: set<(T, T)>, a: T, b: T, c: T)
    requires Reach(edges, a, b) && Reach(edges, b, c)
    ensures Reach(edges, a, c)
  {
    var u :| WalkFromTo(edges, u, a, b);
    var v :| WalkFromTo(edges, v, b, c);
    if |v| == 1 {
      assert WalkFromTo(edges, u, a, c);
    } else {
      var rest := v[1..|v|];
      Slice(edges, v, 1, |v|);
      assert Hop(edges, v, 0);
      Join(edges, u, rest);
      assert WalkFromTo(edges, u + rest, a, c);
    }
  }

  lemma EdgeReaches<T(!new)>(edges: set<(T, T)>, a: T, b: T)
    requires a == b || (a, b) in edges
    ensures Reach(edges, a, b)
  {
    assert WalkFromTo(edges, if a == b then [a] else [a, b], a, b);
  }

  /** An edge back to where it can be reached from closes a cycle, and every cycle is such an edge. */
  lemma CycleIsBackEdge<T(!new)>(edges: set<(T, T)>)
    ensures HasCycle(edges) <==> exists a, b :: (a, b) in edges && Reach(edges, b, a)
  {
    if HasCycle(edges) {
      var w :| Cycle(edges, w);
      assert Hop(edges, w, 0);
      Slice(edges, w, 1, |w|);
      assert WalkFromTo(edges, w[1..|w|], w[1], w[0]);
    }
    if a, b :| (a, b) in edges && Reach(edges, b, a) {
      var w :| WalkFromTo(edges, w, b, a);
      assert Walk(edges, [a]);
      Join(edges, [a], w);
      assert Cycle(edges, [a] + w);
    }
  }

  lemma LeadsReaches<T(!new)>(edges: set<(T, T)>, a: T, b: T, c: T)
    requires Leads(edges, a, b) && Reach(edges, b, c)
    ensures Reach(edges, a, b) && Leads(edges, a, c)
  {
    var x :| (a, x) in edges && Reach(edges, x, b);
    EdgeReaches(edges, a, x);
    ReachTransitive(edges, a, x, b);
    ReachTransitive(edges, x, b, c);
  }

  lemma EdgeLeads<T(!new)>(edges: set<(T, T)>, a: T, b: T)
    requires (a, b) in edges
    ensures Leads(edges, a, b)
  {
    EdgeReaches(edges, b, b);
  }

  lemma CycleLeadsBack<T(!new)>(edges: set<(T, T)>)
    ensures HasCycle(edges) <==> exists a :: Leads(edges, a, a)
  {
    CycleIsBackEdge(edges);
    if a, b :| (a, b) in edges && Reach(edges, b, a) {
      assert Leads(edges, a, a);
    }
  }

  /** A walk longer than the number of nodes runs into a cycle. */
  lemma LongWalkHasCycle<T(!new)>(edges: set<(T, T)>, w: seq<T>, nodes: set<T>)
    requires Walk(edges, w) && |w| > |nodes|
    requires forall k :: 0 <= k < |w| ==> w[k] in nodes
    ensures HasCycle(edges)
  {
    if Distinct(w) {
      DistinctFits(w, nodes);
    } else {
      var i, j :| 0 <= i < j < |w| && w[i] == w[j];
      Slice(edges, w, i, j + 1);
      assert Cycle(edges, w[i..j + 1]);
    }
  }

  lemma MoreEdges<T(!new)>(few: set<(T, T)>, many: set<(T, T)>, a: T, b: T)
    requires few <= many && Reach(few, a, b)
    ensures Reach(many, a, b)
  {
    var w :| WalkFromTo(few, w, a, b);
    assert forall k :: Hop(few, w, k) ==> Hop(many, w, k);
    assert WalkFromTo(many, w, a, b);
  }

  /** Every edge of `many` can be replaced by a walk in `few`. */
  ghost predicate Detours<T(!new)>(few: set<(T, T)>, many: set<(T, T)>) {
    forall a, b :: (a, b) in many ==> Leads(few, a, b)
  }

  lemma {:induction false} WalkByDetours<T(!new)>(few: set<(T, T)>, many: set<(T, T)>, w: seq<T>)
    requires Walk(many, w) && Detours(few, many)
    ensures Reach(few, w[0], w[|w| - 1])
  {
    var m := |w| - 1;
    if m == 0 {
      EdgeReaches(few, w[0], w[0]);
    } else {
      Slice(many, w, 0, m);
      WalkByDetours(few, many, w[..m]);
      assert Hop(many, w, m - 1);
      EdgeReaches(few, w[m], w[m]);
      LeadsReaches(few, w[m - 1], w[m], w[m]);
      ReachTransitive(few, w[0], w[m - 1], w[m]);
    }
  }

  /** Replacing edges by walks preserves what leads to what, and therefore cycles. */
  lemma LeadsByDetours<T(!new)>(few: set<(T, T)>, many: set<(T, T)>, a: T, b: T)
    requires Detours(few, many) && Leads(many, a, b)
    ensures Leads(few, a, b)
  {
    var c :| (a, c) in many && Reach(many, c, b);
    var w :| WalkFromTo(many, w, c, b);
    WalkByDetours(few, many, w);
    LeadsReaches(few, a, c, b);
  }

  /** Adding one edge to an acyclic graph closes a cycle exactly when its target already reaches its source. */
  lemma NewEdgeClosesCycle<T(!new)>(edges: set<(T, T)>, source: T, target: T)
    requires !HasCycle(edges)
    ensures HasCycle(edges + {(source, target)}) <==> Reach(edges, target, source)
  {
    var all := edges + {(source, target)};
    CycleIsBackEdge(all);
    CycleIsBackEdge(edges);
    if Reach(edges, target, source) {
      MoreEdges(edges, all, target, source);
      assert (source, target) in all;
    }
    if HasCycle(all) {
      var a, b :| (a, b) in all && Reach(all, b, a);
      var w :| WalkFromTo(all, w, b, a);
      var first := FirstUse(edges, source, target, w);
      var last := LastUse(edges, source, target, w);
      if (a, b) in edges && !first && !last {
        EdgeReaches(edges, a, b);
        ReachTransitive(edges, target, a, b);
        ReachTransitive(edges, target, b, source);
      }
    }
  }

  /** A walk in the larger graph reaches its end, or else the source of the new edge, without the new edge. */
  lemma {:induction false} FirstUse<T(!new)>(edges: set<(T, T)>, source: T, target: T, w: seq<T>) returns (direct: bool)
    requires Walk(edges + {(source, target)}, w)
    ensures if direct then Reach(edges, w[0], w[|w| - 1]) else Reach(edges, w[0], source)
  {
    var all, m := edges + {(source, target)}, |w| - 1;
    if m == 0 {
      EdgeReaches(edges, w[0], w[0]);
      direct := true;
    } else {
      Slice(all, w, 0, m);
      direct := FirstUse(edges, source, target, w[..m]);
      assert Hop(all, w, m - 1);
      if direct && (w[m - 1], w[m]) in edges {
        EdgeReaches(edges, w[m - 1], w[m]);
        ReachTransitive(edges, w[0], w[m - 1], w[m]);
      } else {
        direct := false;
      }
    }
  }

  /** A walk in the larger graph reaches its end, directly or from the target of the new edge, without the new edge. */
  lemma {:induction false} LastUse<T(!new)>(edges: set<(T, T)>, source: T, target: T, w: seq<T>) returns (direct: bool)
    requires Walk(edges + {(source, target)}, w)
    ensures if direct then Reach(edges, w[0], w[|w| - 1]) else Reach(edges, target, w[|w| - 1])
  {
    var all, m := edges + {(source, target)}, |w| - 1;
    if m == 0 {
      EdgeReaches(edges, w[0], w[0]);
      direct := true;
    } else {
      Slice(all, w, 0, m);
      direct := LastUse(edges, source, target, w[..m]);
      assert Hop(all, w, m - 1);
      if (w[m - 1], w[m]) in edges {
        EdgeReaches(edges, w[m - 1], w[m]);
        ReachTransitive(edges, if direct then w[0] else target, w[m - 1], w[m]);
      } else {
        EdgeReaches(edges, target, target);
        direct := false;
      }
    }
  }
}
