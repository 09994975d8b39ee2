/** The web interface's dependency graph, ui/src/lib/graph-layout.ts: the edges, which the pipeline monitor draws, and
    a check for cycles, which the module exports and nothing calls. */
module GraphLayout {
  import opened PipelineTypes
  import opened Scheduling
  import opened Walks

  datatype EdgeKind = SequentialEdge | SuccessEdge | FailureEdge

  datatype EdgeData = EdgeData(condition: ConditionType, operator: Operator)

  datatype Edge = Edge(id: string, source: string, target: string, kind: EdgeKind, data: Option<EdgeData>)

  datatype Node = Node(id: string, status: Option<StepStatus>, y: nat)

  ghost function Pairs(edges: seq<Edge>): set<(string, string)> {
    set k | 0 <= k < |edges| :: (edges[k].source, edges[k].target)
  }

  lemma PairsGrow(edges: seq<Edge>, e: Edge)
    ensures Pairs(edges + [e]) == Pairs(edges) + {(e.source, e.target)}
  {
    var all := edges + [e];
    assert all[|edges|] == e && forall k :: 0 <= k < |edges| ==> all[k] == edges[k];
    forall pair | pair in Pairs(edges)
      ensures pair in Pairs(all)
    {
      var k :| 0 <= k < |edges| && pair == (edges[k].source, edges[k].target);
      assert pair == (all[k].source, all[k].target);
    }
    assert (all[|edges|].source, all[|edges|].target) in Pairs(all);
  }

  // ---- wouldCreateCycle

  /** `a` lies on a cycle. */
  ghost predicate OnCycle(edges: set<(string, string)>, a: string) {
    exists b :: (a, b) in edges && Reach(edges, b, a)
  }

  /** A set that no edge leaves and no cycle meets. */
  ghost predicate Clean(edges: set<(string, string)>, done: set<string>) {
    && (forall a, b :: a in done && (a, b) in edges ==> b in done)
    && forall a :: a in done ==> !OnCycle(edges, a)
  }

  lemma {:induction false} StaysInside(edges: set<(string, string)>, done: set<string>, w: seq<string>)
    requires forall a, b :: a in done && (a, b) in edges ==> b in done
    requires Walk(edges, w) && w[0] in done
    ensures w[|w| - 1] in done
  {
    var m := |w| - 1;
    if m > 0 {
      Slice(edges, w, 0, m);
      StaysInside(edges, done, w[..m]);
      assert Hop(edges, w, m - 1);
    }
  }

  /** A node outside a clean set whose edges all lead into it can join it. */
  lemma CleanGrows(edges: set<(string, string)>, done: set<string>, node: string)
    requires Clean(edges, done) && node !in done
    requires forall b :: (node, b) in edges ==> b in done
    ensures Clean(edges, done + {node})
  {
    if b :| (node, b) in edges && Reach(edges, b, node) {
      var w :| WalkFromTo(edges, w, b, node);
      StaysInside(edges, done, w);
    }
  }

  /** A node reached from below itself on the stack closes a cycle. */
  lemma BackEdgeIsCycle(edges: set<(string, string)>, path: seq<string>, node: string)
    requires Walk(edges, path) && node in path && (path[|path| - 1], node) in edges
    ensures HasCycle(edges)
  {
    var i :| 0 <= i < |path| && path[i] == node;
    var v := path[i..|path|];
    Slice(edges, path, i, |path|);
    assert WalkFromTo(edges, v, node, path[|path| - 1]);
    CycleIsBackEdge(edges);
  }

  /** The adjacency map and the two mutable sets of the search. */
  class CycleFinder {
    var keys: seq<string>  // the map's keys in insertion order
    var adjacency: map<string, seq<string>>
    var visited: set<string>
    var recursionStack: set<string>

    constructor ()
      ensures Valid() && Edges() == {} && visited == recursionStack == {}
    {
      keys, adjacency, visited, recursionStack := [], map[], {}, {};
    }

    ghost predicate Valid()
      reads this`keys, this`adjacency
    {
      forall k :: k in keys <==> k in adjacency
    }

    ghost function Edges(): set<(string, string)>
      reads this`adjacency
    {
      set a, b | a in adjacency && b in adjacency[a] :: (a, b)
    }

    ghost function Nodes(): set<string>
      reads this`adjacency
    {
      adjacency.Keys + set a, b | a in adjacency && b in adjacency[a] :: b
    }

    ghost function Done(): set<string>
      reads this`visited, this`recursionStack
    {
      visited - recursionStack
    }

    method AddEdge(source: string, target: string)
      requires Valid()
      modifies this`keys, this`adjacency
      ensures Valid() && Edges() == old(Edges()) + {(source, target)}
    {
      if source !in adjacency {
        keys := keys + [source];
        adjacency := adjacency[source := []];
      }
      if target !in adjacency[source] {
        adjacency := adjacency[source := adjacency[source] + [target]];
      }
    }

    /** Between two calls of the search: no cycle meets the finished nodes and no edge leaves them. */
    ghost predicate Searching()
      reads this`adjacency, this`visited, this`recursionStack
    {
      Clean(Edges(), Done()) && recursionStack <= visited <= Nodes()
    }

    /** The nodes being visited form the walk `here`. */
    ghost predicate Stacked(here: seq<string>)
      reads this`adjacency, this`recursionStack
    {
      Walk(Edges(), here) && forall x :: x in recursionStack <==> x in here
    }

    function Neighbors(node: string): seq<string>
      reads this`adjacency
    {
      if node in adjacency then adjacency[node] else []
    }

    lemma EdgesOf(node: string)
      ensures forall b :: (node, b) in Edges() <==> b in Neighbors(node)
    {}

    /** The nodes being visited form the walk `path`, which ends in a node that leads to `node`. */
    method HasCycle(node: string, ghost path: seq<string>) returns (found: bool)
      requires Valid() && Searching() && node in Nodes() && node !in visited
      requires Walk(Edges(), path + [node])
      requires forall x :: x in recursionStack <==> x in path
      modifies this`visited, this`recursionStack
      ensures old(visited) + {node} <= visited
      ensures found ==> Walks.HasCycle(Edges())
      ensures !found ==> recursionStack == old(recursionStack) && Searching() && node in Done()
      decreases Nodes() - visited, 0
    {
      visited := visited + {node};
      recursionStack := recursionStack + {node};
      assert Done() == old(Done());
      found := ExploreAll(node, path + [node]);
      if !found {
        ghost var done := Done();
        recursionStack := recursionStack - {node};
        CleanGrows(Edges(), done, node);
        assert Done() == done + {node};
      }
    }

    /** The loop over the neighbours of `node`, in which the walk `here` ends. */
    method ExploreAll(node: string, ghost here: seq<string>) returns (found: bool)
      requires Valid() && Searching() && Stacked(here) && here[|here| - 1] == node
      modifies this`visited, this`recursionStack
      ensures old(visited) <= visited
      ensures found ==> Walks.HasCycle(Edges())
      ensures !found ==> recursionStack == old(recursionStack) && Searching()
      ensures !found ==> forall b :: (node, b) in Edges() ==> b in Done()
      decreases Nodes() - visited, 2
    {
      EdgesOf(node);
      var neighbors := Neighbors(node);
      var i := 0;
      while i < |neighbors|
        invariant 0 <= i <= |neighbors|
        invariant recursionStack == old(recursionStack) && old(visited) <= visited && Searching()
        invariant forall k :: 0 <= k < i ==> neighbors[k] in Done()
      {
        found := Explore(neighbors[i], here);
        if found {
          return true;
        }
        i := i + 1;
      }
      found := false;
    }

    /** One turn of that loop. */
    method Explore(neighbor: string, ghost here: seq<string>) returns (found: bool)
      requires Valid() && Searching() && Stacked(here) && (here[|here| - 1], neighbor) in Edges()
      modifies this`visited, this`recursionStack
      ensures old(visited) <= visited
      ensures found ==> Walks.HasCycle(Edges())
      ensures !found ==> recursionStack == old(recursionStack) && Searching() && old(Done()) + {neighbor} <= Done()
      decreases Nodes() - visited, 1
    {
      found := false;
      if neighbor !in visited {
        Join(Edges(), here, [neighbor]);
        found := HasCycle(neighbor, here);
      } else if neighbor in recursionStack {
        BackEdgeIsCycle(Edges(), here, neighbor);
        found := true;
      }
    }

    /** One turn of the loop over the keys: search from `node` unless an earlier search has been there. */
    method SearchFrom(node: string) returns (found: bool)
      requires Valid() && Clean(Edges(), visited) && recursionStack == {} && visited <= Nodes() && node in adjacency
      modifies this`visited, this`recursionStack
      ensures found ==> Walks.HasCycle(Edges())
      ensures !found ==> recursionStack == {} && Clean(Edges(), visited) && old(visited) + {node} <= visited <= Nodes()
    {
      found := false;
      if node !in visited {
        assert Done() == visited;
        assert Walk(Edges(), [node]) && [] + [node] == [node];
        found := HasCycle(node, []);
        assert !found ==> Done() == visited;
      }
    }
  }

  /** The adjacency list of the edges and the new one. */
  method BuildAdjacency(edges: seq<Edge>, newSource: string, newTarget: string) returns (finder: CycleFinder)
    ensures fresh(finder) && finder.Valid() && finder.visited == finder.recursionStack == {}
    ensures finder.Edges() == Pairs(edges) + {(newSource, newTarget)}
  {
    finder := new CycleFinder();
    var i := 0;
    while i < |edges|
      invariant 0 <= i <= |edges|
      invariant fresh(finder) && finder.Valid() && finder.visited == finder.recursionStack == {}
      invariant finder.Edges() == Pairs(edges[..i])
    {
      finder.AddEdge(edges[i].source, edges[i].target);
      PairsGrow(edges[..i], edges[i]);
      assert edges[..i + 1] == edges[..i] + [edges[i]];
      i := i + 1;
    }
    assert edges[..i] == edges;
    finder.AddEdge(newSource, newTarget);
  }

  /** Would the edges together with the new one contain a directed cycle, a self-loop included? */
  method WouldCreateCycle(edges: seq<Edge>, newSource: string, newTarget: string) returns (found: bool)
    ensures found <==> HasCycle(Pairs(edges) + {(newSource, newTarget)})
  {
    var finder := BuildAdjacency(edges, newSource, newTarget);
    ghost var all := finder.Edges();
    var i := 0;
    while i < |finder.keys|
      invariant 0 <= i <= |finder.keys|
      invariant fresh(finder) && finder.Valid() && finder.Edges() == all
      invariant finder.recursionStack == {} && finder.visited <= finder.Nodes()
      invariant Clean(all, finder.visited)
      invariant forall k :: 0 <= k < i ==> finder.keys[k] in finder.visited
    {
      found := finder.SearchFrom(finder.keys[i]);
      if found {
        return true;
      }
      i := i + 1;
    }
    SourcesCleanIsAcyclic(all, finder.visited);
    found := false;
  }

  /** When every node with an outgoing edge is in a clean set there is no cycle. */
  lemma SourcesCleanIsAcyclic(edges: set<(string, string)>, done: set<string>)
    requires Clean(edges, done) && forall a, b :: (a, b) in edges ==> a in done
    ensures !HasCycle(edges)
  {
    CycleIsBackEdge(edges);
    if a, b :| (a, b) in edges && Reach(edges, b, a) {
      assert OnCycle(edges, a);
    }
  }

  // ---- pipelineToGraph

  function ListedEdge(p: Spec, i: nat, source: string): Edge
    requires i < |p.steps| && p.steps[i].runIf.Some?
  {
    var r := p.steps[i].runIf.value;
    Edge(source + "->" + p.steps[i].name, source, p.steps[i].name,
         if r.IsCheckingFailure() then FailureEdge else SuccessEdge,
         Some(EdgeData(r.GetCondition(), r.GetOperator())))
  }

  /** The edges drawn into step `i` for the first `k` entries of its list. */
  function ListedEdges(p: Spec, i: nat, k: nat): seq<Edge>
    requires i < |p.steps| && p.steps[i].runIf.Some? && k <= |p.steps[i].runIf.value.steps|
  {
    if k == 0 then []
    else
      var source := p.steps[i].runIf.value.steps[k - 1];
      ListedEdges(p, i, k - 1) + if Known(p, source) then [ListedEdge(p, i, source)] else []
  }

  function EdgesInto(p: Spec, i: nat): seq<Edge>
    requires i < |p.steps|
  {
    match p.steps[i].runIf
    case Some(r) => ListedEdges(p, i, |r.steps|)
    case None =>
      if i == 0 then []
      else
        [Edge(p.steps[i - 1].name + "->" + p.steps[i].name, p.steps[i - 1].name, p.steps[i].name, SequentialEdge, None)]
  }

  function EdgesUpTo(p: Spec, n: nat): seq<Edge>
    requires n <= |p.steps|
  {
    if n == 0 then [] else EdgesUpTo(p, n - 1) + EdgesInto(p, n - 1)
  }

  /** The first status entry with this name. */
  function FindStatus(statuses: seq<StepStatus>, name: string): Option<StepStatus> {
    if statuses == [] then None
    else if statuses[0].name == name then Some(statuses[0])
    else FindStatus(statuses[1..], name)
  }

  /** A name finds the first entry that has it, and nothing when none has. */
  lemma {:induction false} StatusFound(statuses: seq<StepStatus>, name: string, k: nat)
    requires k <= |statuses| && forall j :: 0 <= j < k ==> statuses[j].name != name
    requires k < |statuses| ==> statuses[k].name == name
    ensures FindStatus(statuses, name) == if k < |statuses| then Some(statuses[k]) else None
    decreases |statuses|
  {
    if statuses != [] && k > 0 {
      StatusFound(statuses[1..], name, k - 1);
    }
  }

  /** When the entries match the spec in order, every node carries the entry at its own position. */
  lemma AlignedStatusFound(p: Spec, statuses: seq<StepStatus>, i: nat)
    requires UniqueNames(p) && Aligned(p, statuses) && i < |p.steps|
    ensures FindStatus(statuses, p.steps[i].name) == Some(statuses[i])
  {
    StatusFound(statuses, p.steps[i].name, i);
  }

  /** The edges a list asks for, entry by entry: an entry that names no step is left out, any other gives one edge,
      with the defaults filled in. */
  function EdgesFor(p: Spec, target: string, r: RunIf, names: seq<string>): seq<Edge> {
    if names == [] then []
    else
      (if exists j :: 0 <= j < |p.steps| && p.steps[j].name == names[0] then
         [Edge(names[0] + "->" + target, names[0], target,
               if r.condition == OnFail then FailureEdge else SuccessEdge,
               Some(EdgeData(if r.condition == OnFail then OnFail else OnSuccess,
                             if r.operator == Or then Or else And)))]
       else []) + EdgesFor(p, target, r, names[1..])
  }

  lemma {:induction false} EdgesForLast(p: Spec, target: string, r: RunIf, names: seq<string>, last: string)
    ensures EdgesFor(p, target, r, names + [last]) == EdgesFor(p, target, r, names) + EdgesFor(p, target, r, [last])
  {
    if names == [] {
      assert names + [last] == [last];
    } else {
      assert (names + [last])[1..] == names[1..] + [last];
      EdgesForLast(p, target, r, names[1..], last);
    }
  }

  lemma {:induction false} ListedEdgesExact(p: Spec, i: nat, r: RunIf, k: nat)
    requires i < |p.steps| && p.steps[i].runIf == Some(r) && k <= |r.steps|
    ensures ListedEdges(p, i, k) == EdgesFor(p, p.steps[i].name, r, r.steps[..k])
  {
    if k > 0 {
      ListedEdgesExact(p, i, r, k - 1);
      assert r.steps[..k] == r.steps[..k - 1] + [r.steps[k - 1]];
      EdgesForLast(p, p.steps[i].name, r, r.steps[..k - 1], r.steps[k - 1]);
      assert Known(p, r.steps[k - 1]) <==> exists j :: 0 <= j < |p.steps| && p.steps[j].name == r.steps[k - 1];
    }
  }

  /** What is drawn into a step: for its list, or from the step before it when it has no runIf. */
  lemma EdgesIntoExact(p: Spec, i: nat)
    requires i < |p.steps|
    ensures EdgesInto(p, i) ==
            match p.steps[i].runIf
            case Some(r) => EdgesFor(p, p.steps[i].name, r, r.steps)
            case None =>
              if i == 0 then []
              else
                var source, target := p.steps[i - 1].name, p.steps[i].name;
                [Edge(source + "->" + target, source, target, SequentialEdge, None)]
  {
    if p.steps[i].runIf.Some? {
      var r := p.steps[i].runIf.value;
      ListedEdgesExact(p, i, r, |r.steps|);
      assert r.steps[..|r.steps|] == r.steps;
    }
  }

  /** The edges into step `i`, then those into the next one, and so on. */
  function EdgesFrom(p: Spec, i: nat, n: nat): seq<Edge>
    requires i <= n <= |p.steps|
    decreases n - i
  {
    if i == n then [] else EdgesInto(p, i) + EdgesFrom(p, i + 1, n)
  }

  lemma {:induction false} EdgesFromLast(p: Spec, i: nat, n: nat)
    requires i <= n < |p.steps|
    ensures EdgesFrom(p, i, n + 1) == EdgesFrom(p, i, n) + EdgesInto(p, n)
    decreases n - i
  {
    if i < n {
      EdgesFromLast(p, i + 1, n);
      SumOfEdges(EdgesInto(p, i), EdgesFrom(p, i + 1, n), EdgesInto(p, n));
    } else {
      assert EdgesFrom(p, n + 1, n + 1) == [];
    }
  }

  lemma SumOfEdges(a: seq<Edge>, b: seq<Edge>, c: seq<Edge>)
    ensures a + (b + c) == a + b + c
  {}

  /** The drawing is the edges into the first step, then those into the second, and so on. */
  lemma {:induction false} EdgesInStepOrder(p: Spec, n: nat)
    requires n <= |p.steps|
    ensures EdgesUpTo(p, n) == EdgesFrom(p, 0, n)
  {
    if n > 0 {
      EdgesInStepOrder(p, n - 1);
      EdgesFromLast(p, 0, n - 1);
    }
  }

  /** The edges for the list of step `i`, appended to those drawn so far. */
  method ConnectListed(p: Spec, i: nat, stepNames: set<string>, before: seq<Edge>) returns (edges: seq<Edge>)
    requires i < |p.steps| && p.steps[i].runIf.Some?
    requires forall name :: name in stepNames <==> Known(p, name)
    ensures edges == before + EdgesInto(p, i)
  {
    var step, r := p.steps[i], p.steps[i].runIf.value;
    edges := before;
    var k := 0;
    while k < |r.steps|
      invariant 0 <= k <= |r.steps|
      invariant edges == before + ListedEdges(p, i, k)
    {
      if r.steps[k] in stepNames {
        var kind := if r.condition == OnFail then FailureEdge else SuccessEdge;
        var data := EdgeData(if r.condition == DefaultCondition then OnSuccess else r.condition,
                             if r.operator == DefaultOperator then And else r.operator);
        edges := edges + [Edge(r.steps[k] + "->" + step.name, r.steps[k], step.name, kind, Some(data))];
      }
      k := k + 1;
    }
  }

  method BuildNodes(p: Spec, statuses: seq<StepStatus>) returns (nodes: seq<Node>)
    ensures |nodes| == |p.steps|
    ensures forall i :: 0 <= i < |nodes| ==>
              nodes[i] == Node(p.steps[i].name, FindStatus(statuses, p.steps[i].name), i * 120)
  {
    nodes := [];
    var i := 0;
    while i < |p.steps|
      invariant 0 <= i <= |p.steps| && |nodes| == i
      invariant forall k :: 0 <= k < i ==>
                  nodes[k] == Node(p.steps[k].name, FindStatus(statuses, p.steps[k].name), k * 120)
    {
      nodes := nodes + [Node(p.steps[i].name, FindStatus(statuses, p.steps[i].name), i * 120)];
      i := i + 1;
    }
  }

  method BuildEdges(p: Spec, stepNames: set<string>) returns (edges: seq<Edge>)
    requires forall name :: name in stepNames <==> Known(p, name)
    ensures edges == EdgesUpTo(p, |p.steps|)
  {
    edges := [];
    var i := 0;
    while i < |p.steps|
      invariant 0 <= i <= |p.steps|
      invariant edges == EdgesUpTo(p, i)
    {
      if p.steps[i].runIf.Some? {
        edges := ConnectListed(p, i, stepNames, edges);
      } else if i > 0 {
        var prev, name := p.steps[i - 1].name, p.steps[i].name;
        edges := edges + [Edge(prev + "->" + name, prev, name, SequentialEdge, None)];
      }
      i := i + 1;
    }
  }

  method PipelineToGraph(p: Spec, statuses: seq<StepStatus>) returns (nodes: seq<Node>, edges: seq<Edge>)
    ensures |nodes| == |p.steps|
    ensures forall i :: 0 <= i < |nodes| ==>
              nodes[i] == Node(p.steps[i].name, FindStatus(statuses, p.steps[i].name), i * 120)
    ensures UniqueNames(p) && Aligned(p, statuses) ==>
              forall i :: 0 <= i < |nodes| ==> nodes[i] == Node(p.steps[i].name, Some(statuses[i]), i * 120)
    ensures edges == EdgesUpTo(p, |p.steps|)
  {
    var stepNames := set i | 0 <= i < |p.steps| :: p.steps[i].name;
    nodes := BuildNodes(p, statuses);
    if UniqueNames(p) && Aligned(p, statuses) {
      forall i | 0 <= i < |nodes|
        ensures nodes[i].status == Some(statuses[i])
      {
        AlignedStatusFound(p, statuses, i);
      }
    }
    edges := BuildEdges(p, stepNames);
  }
}
