/**
 The validated step graph of a workflow (src/data/workflow_dag.rs).

 `edges` is a last-wins map: a later step of the same name replaces the
 dependencies of an earlier one, while `order` keeps every repeat.
 */
module WorkflowDag {
  import opened Wrappers

  type Name = string

  datatype Step = Step(name: Name, dependsOn: seq<Name>)

  type Edges = map<Name, seq<Name>>

  datatype DataError =
    | MissingDependency(step: Name, missing: Name)
    | CyclicDependency(step: Name)

  // ----- The graph a step list denotes -----

  function StepNames(steps: seq<Step>): (names: seq<Name>)
    ensures |names| == |steps|
    ensures forall i :: 0 <= i < |steps| ==> names[i] == steps[i].name
  {
    seq(|steps|, i requires 0 <= i < |steps| => steps[i].name)
  }

  /** The dependency map collected from the steps in order, so the last step of a name wins. */
  function EdgesOf(steps: seq<Step>): Edges {
    if steps == [] then map[]
    else
      var last := |steps| - 1;
      EdgesOf(steps[..last])[steps[last].name := steps[last].dependsOn]
  }

  lemma {:induction false} EdgesAreSteps(steps: seq<Step>)
    ensures forall n :: n in EdgesOf(steps) <==> n in StepNames(steps)
  {
    if steps != [] {
      var last := |steps| - 1;
      EdgesAreSteps(steps[..last]);
      assert StepNames(steps) == StepNames(steps[..last]) + [steps[last].name];
    }
  }

  predicate IsLastOfName(steps: seq<Step>, i: nat)
    requires i < |steps|
  {
    forall j :: i < j < |steps| ==> steps[j].name != steps[i].name
  }

  lemma {:induction false} LastStepWins(steps: seq<Step>, i: nat)
    requires i < |steps| && IsLastOfName(steps, i)
    ensures steps[i].name in EdgesOf(steps) && EdgesOf(steps)[steps[i].name] == steps[i].dependsOn
  {
    if i < |steps| - 1 {
      LastStepWins(steps[..|steps| - 1], i);
    }
  }

  predicate Distinct(names: seq<Name>) {
    forall i, j :: 0 <= i < j < |names| ==> names[i] != names[j]
  }

  ghost function Names(s: seq<Name>): set<Name> {
    set n | n in s
  }

  ghost predicate Edge(e: Edges, u: Name, v: Name) {
    u in e && v in e[u]
  }

  /** A walk along dependencies: each name depends directly on the next. */
  ghost predicate IsPath(e: Edges, p: seq<Name>) {
    && |p| > 0
    && forall i :: 0 <= i < |p| - 1 ==> Edge(e, p[i], p[i + 1])
  }

  ghost predicate Reaches(e: Edges, u: Name, v: Name) {
    exists p :: IsPath(e, p) && p[0] == u && p[|p| - 1] == v
  }

  /** `n` lies on a cycle: a walk of at least one dependency leads from `n` back to `n`. */
  ghost predicate OnCycle(e: Edges, n: Name) {
    exists p :: IsPath(e, p) && |p| > 1 && p[0] == n && p[|p| - 1] == n
  }

  ghost predicate Acyclic(e: Edges) {
    forall n :: !OnCycle(e, n)
  }

  /** Every dependency names a step. */
  ghost predicate Closed(e: Edges) {
    forall u, v :: Edge(e, u, v) ==> v in e
  }

  lemma ReachesSelf(e: Edges, u: Name)
    ensures Reaches(e, u, u)
  {
    assert IsPath(e, [u]);
  }

  lemma ReachesStep(e: Edges, u: Name, v: Name, w: Name)
    requires Reaches(e, u, v) && Edge(e, v, w)
    ensures Reaches(e, u, w)
  {
    var p :| IsPath(e, p) && p[0] == u && p[|p| - 1] == v;
    assert IsPath(e, p + [w]);
  }

  lemma ReachesThrough(e: Edges, u: Name, v: Name, w: Name)
    requires Edge(e, u, v) && Reaches(e, v, w)
    ensures Reaches(e, u, w)
  {
    var p :| IsPath(e, p) && p[0] == v && p[|p| - 1] == w;
    var q := [u] + p;
    assert forall i :: 0 < i < |q| - 1 ==> q[i] == p[i - 1] && q[i + 1] == p[i];
    assert IsPath(e, q);
  }

  lemma ReachBackIsCycle(e: Edges, u: Name, v: Name)
    requires Reaches(e, u, v) && Edge(e, v, u)
    ensures OnCycle(e, u)
  {
    var p :| IsPath(e, p) && p[0] == u && p[|p| - 1] == v;
    assert IsPath(e, p + [u]);
  }

  ghost predicate ClosedUnderEdges(e: Edges, s: set<Name>) {
    forall u, v :: u in s && Edge(e, u, v) ==> v in s
  }

  lemma {:induction false} PathStaysInside(e: Edges, s: set<Name>, p: seq<Name>, i: nat)
    requires ClosedUnderEdges(e, s) && IsPath(e, p) && p[0] in s && i < |p|
    ensures p[i] in s
  {
    if i > 0 {
      PathStaysInside(e, s, p, i - 1);
      assert Edge(e, p[i - 1], p[i]);
    }
  }

  /** A node outside a closed set whose dependencies are all inside it lies on no cycle. */
  lemma NoCycleAbove(e: Edges, s: set<Name>, n: Name)
    requires ClosedUnderEdges(e, s) && n !in s
    requires forall d :: Edge(e, n, d) ==> d in s
    ensures !OnCycle(e, n)
  {
    if OnCycle(e, n) {
      var p :| IsPath(e, p) && |p| > 1 && p[0] == n && p[|p| - 1] == n;
      assert Edge(e, p[0], p[1]);
      assert IsPath(e, p[1..]) by {
        forall i | 0 <= i < |p[1..]| - 1 ensures Edge(e, p[1..][i], p[1..][i + 1]) {
          assert Edge(e, p[i + 1], p[i + 2]);
        }
      }
      PathStaysInside(e, s, p[1..], |p| - 2);
      assert false;
    }
  }

  // ----- validate_references -----

  /** The first dependency, in definition order, that names no step. */
  ghost predicate FirstMissing(steps: seq<Step>, i: nat, j: nat) {
    && i < |steps| && j < |steps[i].dependsOn|
    && steps[i].dependsOn[j] !in StepNames(steps)
    && (forall k :: 0 <= k < j ==> steps[i].dependsOn[k] in StepNames(steps))
    && (forall h :: 0 <= h < i ==> ReferencesResolve(steps, h))
  }

  ghost predicate ReferencesResolve(steps: seq<Step>, i: nat)
    requires i < |steps|
  {
    forall d :: d in steps[i].dependsOn ==> d in StepNames(steps)
  }

  ghost predicate AllReferencesResolve(steps: seq<Step>) {
    forall i :: 0 <= i < |steps| ==> ReferencesResolve(steps, i)
  }

  method ValidateReferences(steps: seq<Step>) returns (r: Result<(), DataError>)
    ensures r.Ok? <==> AllReferencesResolve(steps)
    ensures r.Err? ==> exists i: nat, j: nat :: FirstMissing(steps, i, j)
                                      && r.error == MissingDependency(steps[i].name, steps[i].dependsOn[j])
  {
    var names := StepNames(steps);
    for i := 0 to |steps|
      invariant forall h :: 0 <= h < i ==> ReferencesResolve(steps, h)
    {
      for j := 0 to |steps[i].dependsOn|
        invariant forall k :: 0 <= k < j ==> steps[i].dependsOn[k] in names
      {
        if steps[i].dependsOn[j] !in names {
          assert !ReferencesResolve(steps, i);
          assert FirstMissing(steps, i, j);
          return Err(MissingDependency(steps[i].name, steps[i].dependsOn[j]));
        }
      }
    }
    return Ok(());
  }

  // ----- detect_cycle -----

  /** Every name the search can meet: step names and the names they depend on. */
  ghost function Universe(e: Edges): (u: set<Name>)
    ensures forall n :: n in e ==> n in u
    ensures forall m, n :: Edge(e, m, n) ==> n in u
  {
    e.Keys + set m, i | m in e && 0 <= i < |e[m]| :: e[m][i]
  }

  /** What holds of the finished nodes: their dependencies are finished and no cycle passes through them. */
  ghost predicate Finished(e: Edges, done: set<Name>) {
    && ClosedUnderEdges(e, done)
    && forall n :: n in done ==> !OnCycle(e, n)
  }

  /**
   The depth-first search. `inStack` is the chain of nodes still being visited,
   each of which reaches `node`; `visited - inStack` is finished.
   */
  method CycleDfs(node: Name, adj: Edges, visited0: set<Name>, inStack0: set<Name>)
    returns (visited: set<Name>, inStack: set<Name>, r: Result<(), DataError>)
    requires node in Universe(adj) && node !in visited0
    requires inStack0 <= visited0 <= Universe(adj)
    requires Finished(adj, visited0 - inStack0)
    requires forall s :: s in inStack0 ==> Reaches(adj, s, node)
    ensures r.Ok? ==> visited0 + {node} <= visited <= Universe(adj)
                      && inStack == inStack0 && Finished(adj, visited - inStack)
    ensures r.Err? ==> r.error.CyclicDependency? && OnCycle(adj, r.error.step)
    decreases Universe(adj) - visited0
  {
    visited, inStack := visited0 + {node}, inStack0 + {node};
    if node in adj {
      var deps := adj[node];
      for i := 0 to |deps|
        invariant visited0 + {node} <= visited <= Universe(adj)
        invariant inStack == inStack0 + {node}
        invariant Finished(adj, visited - inStack)
        invariant forall k :: 0 <= k < i ==> deps[k] in visited - inStack
      {
        var dep := deps[i];
        assert Edge(adj, node, dep);
        if dep in inStack {
          if dep == node { ReachesSelf(adj, node); }
          ReachBackIsCycle(adj, dep, node);
          return visited, inStack, Err(CyclicDependency(dep));
        }
        if dep !in visited {
          ReachesSelf(adj, node);
          forall s | s in inStack ensures Reaches(adj, s, dep) {
            ReachesStep(adj, s, node, dep);
          }
          visited, inStack, r := CycleDfs(dep, adj, visited, inStack);
          if r.Err? {
            return;
          }
        }
      }
    }
    NoCycleAbove(adj, visited - inStack, node);
    inStack := inStack - {node};
    assert inStack == inStack0;
    assert visited - inStack == (visited - (inStack + {node})) + {node};
    r := Ok(());
  }

  lemma CycleNodesAreSteps(e: Edges)
    ensures forall n :: OnCycle(e, n) ==> n in e
  {
    forall n | OnCycle(e, n) ensures n in e {
      var p :| IsPath(e, p) && |p| > 1 && p[0] == n && p[|p| - 1] == n;
      assert Edge(e, p[0], p[1]);
    }
  }

  lemma FinishedIsAcyclic(e: Edges, done: set<Name>)
    requires Finished(e, done) && e.Keys <= done
    ensures Acyclic(e)
  {
    CycleNodesAreSteps(e);
  }

  /** Searches from every name not met before. */
  method SearchAll(names: seq<Name>, adj: Edges) returns (r: Result<(), DataError>)
    requires forall n :: n in adj <==> n in names
    ensures r.Ok? <==> Acyclic(adj)
    ensures r.Err? ==> r.error.CyclicDependency? && OnCycle(adj, r.error.step)
  {
    var visited: set<Name>, inStack: set<Name> := {}, {};
    for i := 0 to |names|
      invariant inStack == {} && visited <= Universe(adj)
      invariant Finished(adj, visited - inStack)
      invariant forall k :: 0 <= k < i ==> names[k] in visited
    {
      if names[i] !in visited {
        visited, inStack, r := CycleDfs(names[i], adj, visited, inStack);
        if r.Err? {
          return;
        }
      }
    }
    FinishedIsAcyclic(adj, visited - inStack);
    r := Ok(());
  }

  method DetectCycle(steps: seq<Step>) returns (r: Result<(), DataError>)
    ensures r.Ok? <==> Acyclic(EdgesOf(steps))
    ensures r.Err? ==> r.error.CyclicDependency? && OnCycle(EdgesOf(steps), r.error.step)
  {
    var adjacency := EdgesOf(steps);
    EdgesAreSteps(steps);
    r := SearchAll(StepNames(steps), adjacency);
  }

  // ----- build -----

  datatype Dag = Dag(order: seq<Name>, edges: Edges) {

    /** What `Build` establishes: the graph of `order` is closed and acyclic. */
    ghost predicate Valid() {
      && (forall n :: n in edges <==> n in order)
      && Closed(edges)
      && Acyclic(edges)
    }
  }

  method Build(steps: seq<Step>) returns (r: Result<Dag, DataError>)
    ensures r.Ok? <==> AllReferencesResolve(steps) && Acyclic(EdgesOf(steps))
    ensures r.Ok? ==> r.value == Dag(StepNames(steps), EdgesOf(steps)) && r.value.Valid()
    ensures r.Err? && !AllReferencesResolve(steps) ==>
              exists i: nat, j: nat :: FirstMissing(steps, i, j)
                                       && r.error == MissingDependency(steps[i].name, steps[i].dependsOn[j])
    ensures r.Err? && AllReferencesResolve(steps) ==> r.error.CyclicDependency? && OnCycle(EdgesOf(steps), r.error.step)
  {
    var references := ValidateReferences(steps);
    if references.Err? {
      return Err(references.error);
    }
    var cycle := DetectCycle(steps);
    if cycle.Err? {
      return Err(cycle.error);
    }
    ResolvedIsClosed(steps);
    EdgesAreSteps(steps);
    r := Ok(Dag(StepNames(steps), EdgesOf(steps)));
  }

  lemma ResolvedIsClosed(steps: seq<Step>)
    requires AllReferencesResolve(steps)
    ensures Closed(EdgesOf(steps))
  {
    EdgesAreSteps(steps);
    forall u, v | Edge(EdgesOf(steps), u, v) ensures v in EdgesOf(steps) {
      var i := LastIndexOf(steps, u);
      LastStepWins(steps, i);
      assert ReferencesResolve(steps, i);
    }
  }

  lemma {:induction false} LastIndexOf(steps: seq<Step>, n: Name) returns (i: nat)
    requires n in StepNames(steps)
    ensures i < |steps| && steps[i].name == n && IsLastOfName(steps, i)
  {
    i := |steps| - 1;
    while steps[i].name != n
      invariant 0 <= i < |steps| && n in StepNames(steps[..i + 1])
      invariant forall j :: i < j < |steps| ==> steps[j].name != n
      decreases i
    {
      assert StepNames(steps[..i + 1]) == StepNames(steps[..i]) + [steps[i].name];
      i := i - 1;
    }
  }

  // ----- ready_steps -----

  predicate IsReady(dag: Dag, completed: set<Name>, n: Name) {
    && n !in completed
    && (n in dag.edges ==> forall d :: d in dag.edges[n] ==> d in completed)
  }

  /** Filter of the definition order, so order and repeats are kept. */
  function Filter(names: seq<Name>, keep: Name -> bool): (r: seq<Name>)
    ensures forall n :: n in r <==> n in names && keep(n)
    ensures (forall n :: n in names ==> keep(n)) ==> r == names
  {
    if names == [] then []
    else
      var last := |names| - 1;
      assert names == names[..last] + [names[last]];
      var before := Filter(names[..last], keep);
      if keep(names[last]) then before + [names[last]] else before
  }

  function ReadySteps(dag: Dag, completed: set<Name>): (r: seq<Name>)
    ensures forall n :: n in r <==> n in dag.order && IsReady(dag, completed, n)
  {
    Filter(dag.order, n => IsReady(dag, completed, n))
  }

  // ----- topological_order -----

  /** The depth-first state: `visited` holds every name entered, `out` those left again. */
  datatype Walk = Walk(visited: set<Name>, out: seq<Name>)

  /** topo_dfs as a function of the state it mutates. */
  ghost function Visit(e: Edges, node: Name, w: Walk): (r: Walk)
    ensures w.visited <= r.visited
    decreases e.Keys - w.visited, 0
  {
    if node in w.visited || node !in e then w
    else
      var below := VisitAll(e, e[node], w.(visited := w.visited + {node}));
      below.(out := below.out + [node])
  }

  ghost function VisitAll(e: Edges, nodes: seq<Name>, w: Walk): (r: Walk)
    ensures w.visited <= r.visited
    decreases e.Keys - w.visited, 1 + |nodes|
  {
    if nodes == [] then w
    else
      var last := |nodes| - 1;
      var before := VisitAll(e, nodes[..last], w);
      Visit(e, nodes[last], before)
  }

  ghost function TopoOrder(dag: Dag): seq<Name> {
    VisitAll(dag.edges, dag.order, Walk({}, [])).out
  }

  method TopoDfs(node: Name, edges: Edges, visited0: set<Name>, out0: seq<Name>)
    returns (visited: set<Name>, out: seq<Name>)
    ensures Walk(visited, out) == Visit(edges, node, Walk(visited0, out0))
    decreases edges.Keys - visited0
  {
    visited, out := visited0, out0;
    if node in visited {
      return;
    }
    if node in edges {
      visited := visited + {node};
      var deps := edges[node];
      ghost var entered := Walk(visited, out);
      for i := 0 to |deps|
        invariant visited0 + {node} <= visited
        invariant Walk(visited, out) == VisitAll(edges, deps[..i], entered)
      {
        assert deps[..i + 1][..i] == deps[..i];
        visited, out := TopoDfs(deps[i], edges, visited, out);
      }
      assert deps[..|deps|] == deps;
      out := out + [node];
    }
  }

  method TopologicalOrder(dag: Dag) returns (out: seq<Name>)
    ensures out == TopoOrder(dag)
  {
    var visited: set<Name> := {};
    out := [];
    for i := 0 to |dag.order|
      invariant Walk(visited, out) == VisitAll(dag.edges, dag.order[..i], Walk({}, []))
    {
      assert dag.order[..i + 1][..i] == dag.order[..i];
      if dag.order[i] !in visited {
        visited, out := TopoDfs(dag.order[i], dag.edges, visited, out);
      }
    }
    assert dag.order[..|dag.order|] == dag.order;
  }

  /** Every dependency of an entry comes before it. */
  ghost predicate DependenciesFirst(e: Edges, out: seq<Name>) {
    forall i, d :: 0 <= i < |out| && Edge(e, out[i], d) ==> d in out[..i]
  }

  /** The walk's invariant; the entered names not yet left are `grey`. */
  ghost predicate WalkOk(e: Edges, w: Walk, grey: set<Name>) {
    && Distinct(w.out)
    && DependenciesFirst(e, w.out)
    && w.visited <= e.Keys
    && (forall n :: n in w.visited <==> n in w.out || n in grey)
    && (forall n :: n in w.out ==> n !in grey)
  }

  lemma LeavingKeeps(e: Edges, node: Name, w: Walk, grey: set<Name>)
    requires WalkOk(e, w, grey + {node}) && node !in grey
    requires forall d :: Edge(e, node, d) ==> d in w.out
    ensures WalkOk(e, w.(out := w.out + [node]), grey)
  {
    var out := w.out + [node];
    forall i, d | 0 <= i < |out| && Edge(e, out[i], d) ensures d in out[..i] {
      if i < |w.out| {
        assert out[..i] == w.out[..i];
      } else {
        assert out[..i] == w.out;
      }
    }
  }

  /** A dependency of the newest grey node is not grey itself, and every grey node reaches it. */
  lemma DependencyIsNotGrey(e: Edges, parent: Name, d: Name, grey: set<Name>)
    requires Acyclic(e) && Edge(e, parent, d)
    requires forall g :: g in grey ==> Reaches(e, g, parent)
    ensures d !in grey
    ensures forall g :: g in grey ==> Reaches(e, g, d)
  {
    if d in grey {
      ReachBackIsCycle(e, d, parent);
    }
    forall g | g in grey ensures Reaches(e, g, d) {
      ReachesStep(e, g, parent, d);
    }
  }

  lemma {:induction false} VisitKeeps(e: Edges, node: Name, w: Walk, grey: set<Name>)
    requires Closed(e) && Acyclic(e) && WalkOk(e, w, grey)
    requires node in e && node !in grey
    requires forall g :: g in grey ==> Reaches(e, g, node)
    ensures WalkOk(e, Visit(e, node, w), grey)
    ensures w.out <= Visit(e, node, w).out
    ensures node in Visit(e, node, w).out
    decreases e.Keys - w.visited, 0
  {
    if node !in w.visited {
      var entered := w.(visited := w.visited + {node});
      ReachesSelf(e, node);
      VisitAllKeeps(e, node, e[node], entered, grey + {node});
      var below := VisitAll(e, e[node], entered);
      LeavingKeeps(e, node, below, grey);
    }
  }

  /** Visits some of the dependencies of `parent`, the newest grey node. */
  lemma {:induction false} VisitAllKeeps(e: Edges, parent: Name, nodes: seq<Name>, w: Walk, grey: set<Name>)
    requires Closed(e) && Acyclic(e) && WalkOk(e, w, grey)
    requires forall g :: g in grey ==> Reaches(e, g, parent)
    requires forall d :: d in nodes ==> Edge(e, parent, d)
    ensures WalkOk(e, VisitAll(e, nodes, w), grey)
    ensures w.out <= VisitAll(e, nodes, w).out
    ensures forall d :: d in nodes ==> d in VisitAll(e, nodes, w).out
    decreases e.Keys - w.visited, 1 + |nodes|
  {
    if nodes != [] {
      var last := |nodes| - 1;
      var before := VisitAll(e, nodes[..last], w);
      VisitAllKeeps(e, parent, nodes[..last], w, grey);
      var d := nodes[last];
      assert Edge(e, parent, d);
      DependencyIsNotGrey(e, parent, d, grey);
      VisitKeeps(e, d, before, grey);
      assert nodes == nodes[..last] + [d];
    }
  }

  lemma {:induction false} RootsKeep(e: Edges, roots: seq<Name>)
    requires Closed(e) && Acyclic(e)
    requires forall n :: n in roots ==> n in e
    ensures var w := VisitAll(e, roots, Walk({}, []));
            WalkOk(e, w, {}) && forall n :: n in roots ==> n in w.out
  {
    if roots != [] {
      var last := |roots| - 1;
      RootsKeep(e, roots[..last]);
      VisitKeeps(e, roots[last], VisitAll(e, roots[..last], Walk({}, [])), {});
      assert roots == roots[..last] + [roots[last]];
    }
  }

  /** Each step name exactly once, every dependency before its dependents. */
  lemma TopoOrderSorts(dag: Dag)
    requires dag.Valid()
    ensures Distinct(TopoOrder(dag))
    ensures DependenciesFirst(dag.edges, TopoOrder(dag))
    ensures forall n :: n in TopoOrder(dag) <==> n in dag.order
  {
    RootsKeep(dag.edges, dag.order);
  }

  /** `n` is one of `roots` or a direct or transitive dependency of one. */
  ghost predicate Needed(e: Edges, roots: seq<Name>, n: Name) {
    exists r :: r in roots && Reaches(e, r, n)
  }

  lemma {:induction false} VisitAddsOnlyNeeded(e: Edges, node: Name, w: Walk, n: Name)
    requires n in Visit(e, node, w).out
    ensures n in w.out || Reaches(e, node, n)
    decreases e.Keys - w.visited, 0
  {
    if node !in w.visited && node in e {
      var entered := w.(visited := w.visited + {node});
      if n == node {
        ReachesSelf(e, node);
      } else {
        VisitAllAddsOnlyNeeded(e, e[node], entered, n);
        if r :| r in e[node] && Reaches(e, r, n) {
          ReachesThrough(e, node, r, n);
        }
      }
    }
  }

  lemma {:induction false} VisitAllAddsOnlyNeeded(e: Edges, nodes: seq<Name>, w: Walk, n: Name)
    requires n in VisitAll(e, nodes, w).out
    ensures n in w.out || Needed(e, nodes, n)
    decreases e.Keys - w.visited, 1 + |nodes|
  {
    if nodes != [] {
      var last := |nodes| - 1;
      var before := VisitAll(e, nodes[..last], w);
      VisitAddsOnlyNeeded(e, nodes[last], before, n);
      if n in before.out {
        VisitAllAddsOnlyNeeded(e, nodes[..last], w, n);
      }
    }
  }

  lemma {:induction false} RootsPrefix(e: Edges, roots: seq<Name>, k: nat)
    requires Closed(e) && Acyclic(e) && k <= |roots|
    requires forall n :: n in roots ==> n in e
    ensures VisitAll(e, roots[..k], Walk({}, [])).out <= VisitAll(e, roots, Walk({}, [])).out
    decreases |roots|
  {
    if k == |roots| {
      assert roots[..k] == roots;
    } else {
      var last := |roots| - 1;
      RootsPrefix(e, roots[..last], k);
      assert roots[..last][..k] == roots[..k];
      RootsKeep(e, roots[..last]);
      VisitKeeps(e, roots[last], VisitAll(e, roots[..last], Walk({}, [])), {});
    }
  }

  lemma SortedIsClosed(e: Edges, out: seq<Name>)
    requires DependenciesFirst(e, out)
    ensures ClosedUnderEdges(e, Names(out))
  {
    forall u, v | u in out && Edge(e, u, v) ensures v in out {
      var i :| 0 <= i < |out| && out[i] == u;
      assert v in out[..i];
    }
  }

  lemma RootsVisitExactlyNeeded(e: Edges, roots: seq<Name>, n: Name)
    requires Closed(e) && Acyclic(e)
    requires forall r :: r in roots ==> r in e
    ensures n in VisitAll(e, roots, Walk({}, [])).out <==> Needed(e, roots, n)
  {
    var out := VisitAll(e, roots, Walk({}, [])).out;
    RootsKeep(e, roots);
    if n in out {
      VisitAllAddsOnlyNeeded(e, roots, Walk({}, []), n);
    } else if r :| r in roots && Reaches(e, r, n) {
      var p :| IsPath(e, p) && p[0] == r && p[|p| - 1] == n;
      SortedIsClosed(e, out);
      PathStaysInside(e, Names(out), p, |p| - 1);
    }
  }

  /**
   The order is stable: for every k, what the first k definition entries need
   fills a prefix of the order, before anything only later entries need.
   */
  lemma TopoOrderIsStable(dag: Dag, k: nat) returns (m: nat)
    requires dag.Valid() && k <= |dag.order|
    ensures m <= |TopoOrder(dag)|
    ensures forall n :: n in TopoOrder(dag)[..m] <==> Needed(dag.edges, dag.order[..k], n)
  {
    var out := VisitAll(dag.edges, dag.order[..k], Walk({}, [])).out;
    RootsPrefix(dag.edges, dag.order, k);
    m := |out|;
    assert TopoOrder(dag)[..m] == out;
    forall n ensures n in out <==> Needed(dag.edges, dag.order[..k], n) {
      RootsVisitExactlyNeeded(dag.edges, dag.order[..k], n);
    }
  }

  // ----- Stability inside the dependency lists -----

  /**
   `ks` leads down from `n`: at each name it passes over some dependencies and,
   but for the last, goes on to the next one.
   */
  predicate LeadsDown(e: Edges, n: Name, ks: seq<nat>)
    decreases |ks|
  {
    ks == [] ||
    (n in e && ks[0] <= |e[n]| && (|ks| > 1 ==> ks[0] < |e[n]| && LeadsDown(e, e[n][ks[0]], ks[1..])))
  }

  /** The dependencies passed over on the way. */
  function PassedOver(e: Edges, n: Name, ks: seq<nat>): seq<Name>
    requires LeadsDown(e, n, ks)
    decreases |ks|
  {
    if ks == [] then []
    else e[n][..ks[0]] + if |ks| == 1 then [] else PassedOver(e, e[n][ks[0]], ks[1..])
  }

  /** What a visit to some dependencies of the newest grey node adds: exactly what they need. */
  lemma VisitAllAdds(e: Edges, parent: Name, nodes: seq<Name>, w: Walk, grey: set<Name>, n: Name)
    requires Closed(e) && Acyclic(e) && WalkOk(e, w, grey)
    requires forall g :: g in grey ==> Reaches(e, g, parent)
    requires forall d :: d in nodes ==> Edge(e, parent, d)
    ensures n in VisitAll(e, nodes, w).out <==> n in w.out || Needed(e, nodes, n)
  {
    VisitAllKeeps(e, parent, nodes, w, grey);
    var out := VisitAll(e, nodes, w).out;
    if n in out {
      VisitAllAddsOnlyNeeded(e, nodes, w, n);
    } else if r :| r in nodes && Reaches(e, r, n) {
      NeedsStayInside(e, out, r, n);
    }
  }

  lemma NeedsStayInside(e: Edges, out: seq<Name>, r: Name, n: Name)
    requires DependenciesFirst(e, out) && r in out && Reaches(e, r, n)
    ensures n in out
  {
    var p :| IsPath(e, p) && p[0] == r && p[|p| - 1] == n;
    SortedIsClosed(e, out);
    PathStaysInside(e, Names(out), p, |p| - 1);
  }

  lemma {:induction false} PassedOverNeeded(e: Edges, n: Name, ks: seq<nat>, d: Name)
    requires LeadsDown(e, n, ks) && d in PassedOver(e, n, ks)
    ensures Reaches(e, n, d)
    decreases |ks|
  {
    if d in e[n][..ks[0]] {
      assert Edge(e, n, d);
      ReachesSelf(e, d);
      ReachesThrough(e, n, d, d);
    } else {
      assert Edge(e, n, e[n][ks[0]]);
      PassedOverNeeded(e, e[n][ks[0]], ks[1..], d);
      ReachesThrough(e, n, e[n][ks[0]], d);
    }
  }

  /** In the walk from a visited name nothing is added, and nothing passed over is missing. */
  lemma NothingNew(e: Edges, node: Name, w: Walk, ks: seq<nat>, n: Name)
    requires DependenciesFirst(e, w.out) && node in w.out && LeadsDown(e, node, ks)
    ensures Needed(e, PassedOver(e, node, ks), n) ==> n in w.out
  {
    if r :| r in PassedOver(e, node, ks) && Reaches(e, r, n) {
      PassedOverNeeded(e, node, ks, r);
      NeedsStayInside(e, w.out, node, r);
      NeedsStayInside(e, w.out, r, n);
    }
  }

  lemma NeededParts(e: Edges, a: seq<Name>, b: seq<Name>, n: Name)
    ensures Needed(e, a + b, n) <==> Needed(e, a, n) || Needed(e, b, n)
  {
  }

  /** On the way down `ks` from `node`, what is passed over fills the next stretch of the order. */
  lemma {:induction false} VisitIsStable(e: Edges, node: Name, w: Walk, grey: set<Name>, ks: seq<nat>) returns (m: nat)
    requires Closed(e) && Acyclic(e) && WalkOk(e, w, grey)
    requires node in e && node !in grey && LeadsDown(e, node, ks)
    requires forall g :: g in grey ==> Reaches(e, g, node)
    ensures |w.out| <= m <= |Visit(e, node, w).out|
    ensures forall n :: n in Visit(e, node, w).out[..m] <==> n in w.out || Needed(e, PassedOver(e, node, ks), n)
    decreases |ks|
  {
    VisitKeeps(e, node, w, grey);
    var out := Visit(e, node, w).out;
    if ks == [] || node in w.visited {
      m := |w.out|;
      assert out[..m] == w.out;
      if ks != [] {
        forall n ensures Needed(e, PassedOver(e, node, ks), n) ==> n in w.out {
          NothingNew(e, node, w, ks, n);
        }
      }
    } else {
      m := DescendIsStable(e, node, w, grey, ks);
    }
  }

  /** The walk inside `node` once its first `k` dependencies are visited. */
  ghost function Inside(e: Edges, node: Name, w: Walk, k: nat): Walk
    requires node in e && k <= |e[node]|
  {
    VisitAll(e, e[node][..k], w.(visited := w.visited + {node}))
  }

  lemma InsideKeeps(e: Edges, node: Name, w: Walk, grey: set<Name>, k: nat)
    requires Closed(e) && Acyclic(e) && WalkOk(e, w, grey)
    requires node in e && node !in grey && node !in w.visited && k <= |e[node]|
    requires forall g :: g in grey ==> Reaches(e, g, node)
    ensures WalkOk(e, Inside(e, node, w, k), grey + {node}) && w.out <= Inside(e, node, w, k).out
    ensures forall n :: n in Inside(e, node, w, k).out <==> n in w.out || Needed(e, e[node][..k], n)
  {
    var entered := w.(visited := w.visited + {node});
    ReachesSelf(e, node);
    VisitAllKeeps(e, node, e[node][..k], entered, grey + {node});
    forall n ensures n in Inside(e, node, w, k).out <==> n in w.out || Needed(e, e[node][..k], n) {
      VisitAllAdds(e, node, e[node][..k], entered, grey + {node}, n);
    }
  }

  lemma {:induction false} InsideGrows(e: Edges, node: Name, w: Walk, grey: set<Name>, k: nat)
    requires Closed(e) && Acyclic(e) && WalkOk(e, w, grey)
    requires node in e && node !in grey && node !in w.visited && k <= |e[node]|
    requires forall g :: g in grey ==> Reaches(e, g, node)
    ensures Inside(e, node, w, k).out <= Visit(e, node, w).out
    decreases |e[node]| - k
  {
    if k == |e[node]| {
      assert e[node][..k] == e[node];
    } else {
      InsideNext(e, node, w, grey, k);
      InsideGrows(e, node, w, grey, k + 1);
    }
  }

  lemma InsideNext(e: Edges, node: Name, w: Walk, grey: set<Name>, k: nat)
    requires Closed(e) && Acyclic(e) && WalkOk(e, w, grey)
    requires node in e && node !in grey && node !in w.visited && k < |e[node]|
    requires forall g :: g in grey ==> Reaches(e, g, node)
    ensures Inside(e, node, w, k + 1) == Visit(e, e[node][k], Inside(e, node, w, k))
    ensures Inside(e, node, w, k).out <= Inside(e, node, w, k + 1).out
    ensures e[node][k] in e && e[node][k] !in grey + {node}
    ensures forall g :: g in grey + {node} ==> Reaches(e, g, e[node][k])
  {
    assert e[node][..k + 1][..k] == e[node][..k];
    assert Edge(e, node, e[node][k]);
    ReachesSelf(e, node);
    InsideKeeps(e, node, w, grey, k);
    DependencyIsNotGrey(e, node, e[node][k], grey + {node});
    VisitKeeps(e, e[node][k], Inside(e, node, w, k), grey + {node});
  }

  lemma PrefixOfLonger(s: seq<Name>, t: seq<Name>, m: nat)
    requires s <= t && m <= |s|
    ensures t[..m] == s[..m]
  {
  }

  lemma {:induction false} DescendIsStable(e: Edges, node: Name, w: Walk, grey: set<Name>, ks: seq<nat>)
    returns (m: nat)
    requires Closed(e) && Acyclic(e) && WalkOk(e, w, grey)
    requires node in e && node !in grey && node !in w.visited && ks != [] && LeadsDown(e, node, ks)
    requires forall g :: g in grey ==> Reaches(e, g, node)
    ensures |w.out| <= m <= |Visit(e, node, w).out|
    ensures forall n :: n in Visit(e, node, w).out[..m] <==> n in w.out || Needed(e, PassedOver(e, node, ks), n)
    decreases |ks|, 0
  {
    var k, out := ks[0], Visit(e, node, w).out;
    var w2 := Inside(e, node, w, k);
    InsideKeeps(e, node, w, grey, k);
    if |ks| == 1 {
      InsideGrows(e, node, w, grey, k);
      m := |w2.out|;
      assert out[..m] == w2.out && PassedOver(e, node, ks) == e[node][..k];
    } else {
      var d := e[node][k];
      InsideNext(e, node, w, grey, k);
      m := VisitIsStable(e, d, w2, grey + {node}, ks[1..]);
      InsideGrows(e, node, w, grey, k + 1);
      PrefixOfLonger(Visit(e, d, w2).out, out, m);
      forall n ensures Needed(e, PassedOver(e, node, ks), n) <==>
                       Needed(e, e[node][..k], n) || Needed(e, PassedOver(e, d, ks[1..]), n)
      {
        NeededParts(e, e[node][..k], PassedOver(e, d, ks[1..]), n);
      }
    }
  }

  /**
   The order is stable at every depth. From the i-th entry of the definition go
   down any way along the dependency lists: what the entries before it and the
   dependencies passed over on the way need fills a prefix of the order.
   */
  lemma TopoOrderIsStableBelow(dag: Dag, i: nat, ks: seq<nat>) returns (m: nat)
    requires dag.Valid() && i < |dag.order| && LeadsDown(dag.edges, dag.order[i], ks)
    ensures m <= |TopoOrder(dag)|
    ensures forall n :: n in TopoOrder(dag)[..m] <==>
                        Needed(dag.edges, dag.order[..i] + PassedOver(dag.edges, dag.order[i], ks), n)
  {
    var e, node := dag.edges, dag.order[i];
    var w := VisitAll(e, dag.order[..i], Walk({}, []));
    RootsKeep(e, dag.order[..i]);
    m := VisitIsStable(e, node, w, {}, ks);
    var passed := PassedOver(e, node, ks);
    VisitStaysFirst(dag, i, m);
    forall n ensures n in TopoOrder(dag)[..m] <==> Needed(e, dag.order[..i] + passed, n) {
      RootsVisitExactlyNeeded(e, dag.order[..i], n);
      NeededParts(e, dag.order[..i], passed, n);
    }
  }

  /** What the search has left when it is done with the i-th entry comes first in the order. */
  lemma VisitStaysFirst(dag: Dag, i: nat, m: nat)
    requires dag.Valid() && i < |dag.order|
    requires m <= |Visit(dag.edges, dag.order[i], VisitAll(dag.edges, dag.order[..i], Walk({}, []))).out|
    ensures m <= |TopoOrder(dag)|
    ensures TopoOrder(dag)[..m] ==
            Visit(dag.edges, dag.order[i], VisitAll(dag.edges, dag.order[..i], Walk({}, []))).out[..m]
  {
    assert dag.order[..i + 1][..i] == dag.order[..i];
    RootsPrefix(dag.edges, dag.order, i + 1);
    PrefixOfLonger(VisitAll(dag.edges, dag.order[..i + 1], Walk({}, [])).out, TopoOrder(dag), m);
  }

  // ----- Definitions already in order -----

  lemma {:induction false} VisitedDependenciesSkipped(e: Edges, nodes: seq<Name>, w: Walk)
    requires forall n :: n in nodes ==> n in w.visited
    ensures VisitAll(e, nodes, w) == w
  {
    if nodes != [] {
      VisitedDependenciesSkipped(e, nodes[..|nodes| - 1], w);
    }
  }

  lemma {:induction false} SortedPrefixKept(e: Edges, names: seq<Name>, k: nat)
    requires Distinct(names) && DependenciesFirst(e, names) && k <= |names|
    requires forall n :: n in names ==> n in e
    ensures VisitAll(e, names[..k], Walk({}, [])) == Walk(Names(names[..k]), names[..k])
  {
    if k > 0 {
      var node := names[k - 1];
      SortedPrefixKept(e, names, k - 1);
      assert names[..k][..k - 1] == names[..k - 1];
      assert names[..k] == names[..k - 1] + [node];
      var w := Walk(Names(names[..k - 1]), names[..k - 1]);
      forall d | d in e[node] ensures d in w.visited {
        assert Edge(e, names[k - 1], d);
      }
      VisitedDependenciesSkipped(e, e[node], w.(visited := w.visited + {node}));
    }
  }

  /** The definition order comes back unchanged exactly when it is already sorted without repeats. */
  lemma SortedDefinitionUnchanged(dag: Dag)
    requires dag.Valid()
    ensures TopoOrder(dag) == dag.order <==> Distinct(dag.order) && DependenciesFirst(dag.edges, dag.order)
  {
    TopoOrderSorts(dag);
    if Distinct(dag.order) && DependenciesFirst(dag.edges, dag.order) {
      SortedPrefixKept(dag.edges, dag.order, |dag.order|);
      assert dag.order[..|dag.order|] == dag.order;
    }
  }

  // ----- Progress of the scheduler -----

  /** Some step is ready whenever some step is missing from `completed`. */
  lemma NoDeadlock(dag: Dag, completed: set<Name>)
    requires dag.Valid()
    ensures ReadySteps(dag, completed) == [] <==> dag.edges.Keys <= completed
  {
    if n :| n in dag.edges && n !in completed {
      TopoOrderSorts(dag);
      var out := TopoOrder(dag);
      var i := FirstMissingFrom(out, completed);
      forall d | d in dag.edges[out[i]] ensures d in completed {
        assert Edge(dag.edges, out[i], d);
      }
      assert out[i] in ReadySteps(dag, completed);
    }
    if ReadySteps(dag, completed) != [] {
      assert ReadySteps(dag, completed)[0] in dag.edges;
    }
  }

  lemma FirstMissingFrom(names: seq<Name>, s: set<Name>) returns (i: nat)
    requires exists n :: n in names && n !in s
    ensures i < |names| && names[i] !in s && forall m :: m in names[..i] ==> m in s
  {
    i := 0;
    while names[i] in s
      invariant i < |names| && forall m :: m in names[..i] ==> m in s
      invariant exists n :: n in names[i..] && n !in s
      decreases |names| - i
    {
      assert names[i..] == [names[i]] + names[i + 1..];
      assert names[..i + 1] == names[..i] + [names[i]];
      i := i + 1;
    }
  }

  /** A run of the scheduler: each pick is ready once the picks before it are completed. */
  ghost predicate IsRun(dag: Dag, completed: set<Name>, picks: seq<Name>) {
    forall i :: 0 <= i < |picks| ==> picks[i] in ReadySteps(dag, completed + Names(picks[..i]))
  }

  lemma RunRespectsDependencies(dag: Dag, completed: set<Name>, picks: seq<Name>)
    requires dag.Valid() && IsRun(dag, completed, picks)
    ensures Distinct(picks)
    ensures forall i :: 0 <= i < |picks| ==> picks[i] !in completed && picks[i] in dag.edges
    ensures forall i, d :: 0 <= i < |picks| && Edge(dag.edges, picks[i], d) ==> d in completed || d in picks[..i]
  {
    forall i, j | 0 <= i < j < |picks| ensures picks[i] != picks[j] {
      assert picks[i] == picks[..j][i];
      assert picks[j] in ReadySteps(dag, completed + Names(picks[..j]));
    }
    forall i, d | 0 <= i < |picks| && Edge(dag.edges, picks[i], d) ensures d in completed || d in picks[..i] {
      assert picks[i] in ReadySteps(dag, completed + Names(picks[..i]));
    }
  }

  lemma {:induction false} DistinctCount(s: seq<Name>)
    requires Distinct(s)
    ensures |Names(s)| == |s|
  {
    if s != [] {
      var last := |s| - 1;
      DistinctCount(s[..last]);
      assert Names(s) == Names(s[..last]) + {s[last]};
    }
  }

  lemma SplitCount(whole: set<Name>, part: set<Name>)
    requires part <= whole
    ensures |part| + |whole - part| == |whole|
    ensures |part| == |whole| <==> whole <= part
  {
    assert whole == part + (whole - part);
    assert |whole - part| == 0 <==> whole - part == {};
  }

  /**
   A run makes as many moves as it completes steps, and it is stuck exactly
   when every step is completed.
   */
  lemma RunCompletesEverything(dag: Dag, completed: set<Name>, picks: seq<Name>)
    requires dag.Valid() && IsRun(dag, completed, picks)
    ensures |picks| + |dag.edges.Keys - completed - Names(picks)| == |dag.edges.Keys - completed|
    ensures ReadySteps(dag, completed + Names(picks)) == [] <==> |picks| == |dag.edges.Keys - completed|
  {
    RunRespectsDependencies(dag, completed, picks);
    DistinctCount(picks);
    SplitCount(dag.edges.Keys - completed, Names(picks));
    NoDeadlock(dag, completed + Names(picks));
  }
}
