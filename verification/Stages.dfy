/**
 Grouping of steps into stages by dependency depth (`group_stages`,
 src/data/workflow_state.rs).
 */
module Stages {
  import opened WorkflowDag

  // ----- The reference definition of depth -----

  /**
   `c` is a dependency chain below a step whose dependencies are `deps`: it
   starts at one of them and follows dependencies between steps that exist.
   */
  ghost predicate IsChain(e: Edges, deps: seq<Name>, c: seq<Name>)
    decreases |c|
  {
    c == [] || (c[0] in deps && c[0] in e && IsChain(e, e[c[0]], c[1..]))
  }

  ghost predicate HasChain(e: Edges, deps: seq<Name>, length: nat) {
    exists c :: IsChain(e, deps, c) && |c| == length
  }

  /** `length` is the length of the longest chain below `deps`. */
  ghost predicate IsLongestChain(e: Edges, deps: seq<Name>, length: nat) {
    && HasChain(e, deps, length)
    && forall c :: IsChain(e, deps, c) ==> |c| <= length
  }

  /** Each entry is the length of the longest chain below the step at that index. */
  ghost predicate AreDepths(steps: seq<Step>, depths: seq<nat>) {
    && |depths| == |steps|
    && forall i :: 0 <= i < |steps| ==> IsLongestChain(EdgesOf(steps), steps[i].dependsOn, depths[i])
  }

  lemma {:induction false} ChainFollowsEdges(e: Edges, deps: seq<Name>, c: seq<Name>, i: nat)
    requires IsChain(e, deps, c) && i < |c|
    ensures c[i] in e
    ensures i + 1 < |c| ==> Edge(e, c[i], c[i + 1])
    decreases i
  {
    if i > 0 {
      ChainFollowsEdges(e, e[c[0]], c[1..], i - 1);
    }
  }

  lemma ChainVisitsOnce(e: Edges, deps: seq<Name>, c: seq<Name>)
    requires Acyclic(e) && IsChain(e, deps, c)
    ensures Distinct(c)
  {
    forall i, j | 0 <= i < j < |c| ensures c[i] != c[j] {
      var p := c[i..j + 1];
      forall k | 0 <= k < |p| - 1 ensures Edge(e, p[k], p[k + 1]) {
        ChainFollowsEdges(e, deps, c, i + k);
      }
      assert IsPath(e, p) && p[0] == c[i] && p[|p| - 1] == c[j];
      assert !OnCycle(e, c[i]);
    }
  }

  lemma {:induction false} NameCount(s: seq<Name>)
    ensures |Names(s)| <= |s|
  {
    if s != [] {
      var last := |s| - 1;
      NameCount(s[..last]);
      assert Names(s) == Names(s[..last]) + {s[last]};
    }
  }

  lemma ChainIsShort(steps: seq<Step>, deps: seq<Name>, c: seq<Name>)
    requires Acyclic(EdgesOf(steps)) && IsChain(EdgesOf(steps), deps, c)
    ensures |c| <= |steps|
  {
    var e := EdgesOf(steps);
    ChainVisitsOnce(e, deps, c);
    DistinctCount(c);
    forall n | n in c ensures n in e {
      var i :| 0 <= i < |c| && c[i] == n;
      ChainFollowsEdges(e, deps, c, i);
    }
    EdgesAreSteps(steps);
    assert Names(StepNames(steps)) == e.Keys;
    NameCount(StepNames(steps));
    SplitCount(e.Keys, Names(c));
  }

  /** The chains below a step have a longest one, found from `n` downwards. */
  lemma {:induction false} LongestChain(e: Edges, deps: seq<Name>, n: nat) returns (length: nat)
    requires forall c :: IsChain(e, deps, c) ==> |c| <= n
    ensures IsLongestChain(e, deps, length)
  {
    if HasChain(e, deps, n) {
      length := n;
    } else {
      assert n > 0 by {
        assert IsChain(e, deps, []);
      }
      forall c | IsChain(e, deps, c) ensures |c| <= n - 1 {
        assert |c| == n ==> HasChain(e, deps, n);
      }
      length := LongestChain(e, deps, n - 1);
    }
  }

  /** The depth of step `i`: the length of the longest chain below it. */
  ghost function Depth(steps: seq<Step>, i: nat): (d: nat)
    requires Acyclic(EdgesOf(steps)) && i < |steps|
    ensures IsLongestChain(EdgesOf(steps), steps[i].dependsOn, d)
  {
    assert exists d :: IsLongestChain(EdgesOf(steps), steps[i].dependsOn, d) by {
      forall c | IsChain(EdgesOf(steps), steps[i].dependsOn, c) ensures |c| <= |steps| {
        ChainIsShort(steps, steps[i].dependsOn, c);
      }
      var d := LongestChain(EdgesOf(steps), steps[i].dependsOn, |steps|);
    }
    var d :| IsLongestChain(EdgesOf(steps), steps[i].dependsOn, d);
    d
  }

  ghost function Depths(steps: seq<Step>): (depths: seq<nat>)
    requires Acyclic(EdgesOf(steps))
    ensures AreDepths(steps, depths)
  {
    seq(|steps|, i requires 0 <= i < |steps| => Depth(steps, i))
  }

  lemma DepthsAreUnique(steps: seq<Step>, depths: seq<nat>)
    requires Acyclic(EdgesOf(steps)) && AreDepths(steps, depths)
    ensures depths == Depths(steps)
  {
    forall i | 0 <= i < |steps| ensures depths[i] == Depths(steps)[i] {
      var c :| IsChain(EdgesOf(steps), steps[i].dependsOn, c) && |c| == depths[i];
      var d :| IsChain(EdgesOf(steps), steps[i].dependsOn, d) && |d| == Depths(steps)[i];
    }
  }

  // ----- The relaxation -----

  /** Position of the last step of each name. */
  function IndexOf(steps: seq<Step>): (index: map<Name, nat>)
    ensures forall n :: n in index ==> index[n] < |steps|
  {
    if steps == [] then map[] else IndexOf(steps[..|steps| - 1])[steps[|steps| - 1].name := |steps| - 1]
  }

  lemma {:induction false} IndexedAreEdges(steps: seq<Step>, n: Name)
    ensures n in IndexOf(steps) <==> n in EdgesOf(steps)
  {
    if steps != [] {
      IndexedAreEdges(steps[..|steps| - 1], n);
    }
  }

  lemma {:induction false} IndexIsLast(steps: seq<Step>, n: Name)
    requires n in IndexOf(steps)
    ensures steps[IndexOf(steps)[n]].name == n && IsLastOfName(steps, IndexOf(steps)[n])
  {
    if steps[|steps| - 1].name != n {
      IndexIsLast(steps[..|steps| - 1], n);
    }
  }

  /** `v` exceeds `d` at the first `j` dependencies of step `i` that name a step. */
  ghost predicate Relaxed(steps: seq<Step>, d: seq<nat>, v: nat, i: nat, j: nat)
    requires |d| == |steps| && i < |steps| && j <= |steps[i].dependsOn|
  {
    forall k :: 0 <= k < j && steps[i].dependsOn[k] in IndexOf(steps) ==>
                  v > d[IndexOf(steps)[steps[i].dependsOn[k]]]
  }

  ghost predicate AllRelaxed(steps: seq<Step>, d0: seq<nat>, d1: seq<nat>)
    requires |d0| == |d1| == |steps|
  {
    forall i :: 0 <= i < |steps| ==> Relaxed(steps, d0, d1[i], i, |steps[i].dependsOn|)
  }

  /** No entry exceeds the chains below its step. */
  ghost predicate Sound(steps: seq<Step>, d: seq<nat>) {
    && |d| == |steps|
    && forall i :: 0 <= i < |steps| ==> HasChain(EdgesOf(steps), steps[i].dependsOn, d[i])
  }

  /** Entries cover every chain of at most `bound` steps. */
  ghost predicate Covers(steps: seq<Step>, d: seq<nat>, bound: nat) {
    && |d| == |steps|
    && forall i, c :: 0 <= i < |steps| && IsChain(EdgesOf(steps), steps[i].dependsOn, c) && |c| <= bound ==> |c| <= d[i]
  }

  lemma IndexedDependencies(steps: seq<Step>, n: Name)
    ensures n in IndexOf(steps) <==> n in EdgesOf(steps)
    ensures n in IndexOf(steps) ==> EdgesOf(steps)[n] == steps[IndexOf(steps)[n]].dependsOn
  {
    IndexedAreEdges(steps, n);
    if n in IndexOf(steps) {
      IndexIsLast(steps, n);
      LastStepWins(steps, IndexOf(steps)[n]);
    }
  }

  lemma ExtendChain(steps: seq<Step>, i: nat, j: nat, length: nat)
    requires i < |steps| && j < |steps[i].dependsOn|
    requires steps[i].dependsOn[j] in IndexOf(steps)
    requires HasChain(EdgesOf(steps), steps[IndexOf(steps)[steps[i].dependsOn[j]]].dependsOn, length)
    ensures HasChain(EdgesOf(steps), steps[i].dependsOn, length + 1)
  {
    var dep := steps[i].dependsOn[j];
    IndexedDependencies(steps, dep);
    var c :| IsChain(EdgesOf(steps), EdgesOf(steps)[dep], c) && |c| == length;
    assert ([dep] + c)[1..] == c;
    assert IsChain(EdgesOf(steps), steps[i].dependsOn, [dep] + c);
  }

  /** One pass lengthens the chains that are covered by one. */
  lemma PassCoversMore(steps: seq<Step>, d0: seq<nat>, d1: seq<nat>, bound: nat)
    requires Covers(steps, d0, bound) && |d1| == |steps| && AllRelaxed(steps, d0, d1)
    ensures Covers(steps, d1, bound + 1)
  {
    var e := EdgesOf(steps);
    forall i, c | 0 <= i < |steps| && IsChain(e, steps[i].dependsOn, c) && |c| <= bound + 1 ensures |c| <= d1[i] {
      if c != [] {
        var k :| 0 <= k < |steps[i].dependsOn| && steps[i].dependsOn[k] == c[0];
        IndexedDependencies(steps, c[0]);
        assert Relaxed(steps, d0, d1[i], i, |steps[i].dependsOn|);
        assert |c[1..]| <= d0[IndexOf(steps)[c[0]]];
      }
    }
  }

  lemma {:induction false} FixpointCovers(steps: seq<Step>, d: seq<nat>, i: nat, c: seq<Name>)
    requires |d| == |steps| && AllRelaxed(steps, d, d)
    requires i < |steps| && IsChain(EdgesOf(steps), steps[i].dependsOn, c)
    ensures |c| <= d[i]
    decreases |c|
  {
    if c != [] {
      var k :| 0 <= k < |steps[i].dependsOn| && steps[i].dependsOn[k] == c[0];
      IndexedDependencies(steps, c[0]);
      FixpointCovers(steps, d, IndexOf(steps)[c[0]], c[1..]);
      assert Relaxed(steps, d, d[i], i, |steps[i].dependsOn|);
    }
  }

  lemma {:induction false} FixpointFallsAlongPath(steps: seq<Step>, d: seq<nat>, p: seq<Name>, k: nat)
    requires |d| == |steps| && AllRelaxed(steps, d, d)
    requires IsPath(EdgesOf(steps), p) && (forall n :: n in p ==> n in EdgesOf(steps)) && k < |p|
    ensures p[0] in IndexOf(steps) && p[k] in IndexOf(steps)
    ensures d[IndexOf(steps)[p[k]]] + k <= d[IndexOf(steps)[p[0]]]
  {
    IndexedDependencies(steps, p[k]);
    if k > 0 {
      FixpointFallsAlongPath(steps, d, p, k - 1);
      var i := IndexOf(steps)[p[k - 1]];
      IndexedDependencies(steps, p[k - 1]);
      assert Edge(EdgesOf(steps), p[k - 1], p[k]);
      assert Relaxed(steps, d, d[i], i, |steps[i].dependsOn|);
      var j :| 0 <= j < |steps[i].dependsOn| && steps[i].dependsOn[j] == p[k];
    }
  }

  lemma FixpointIsAcyclic(steps: seq<Step>, d: seq<nat>)
    requires |d| == |steps| && AllRelaxed(steps, d, d)
    ensures Acyclic(EdgesOf(steps))
  {
    var e := EdgesOf(steps);
    forall n ensures !OnCycle(e, n) {
      if p :| IsPath(e, p) && |p| > 1 && p[0] == n && p[|p| - 1] == n {
        forall m | m in p ensures m in e {
          var k :| 0 <= k < |p| && p[k] == m;
          assert k < |p| - 1 ==> Edge(e, p[k], p[k + 1]);
          assert Edge(e, p[0], p[1]);
        }
        FixpointFallsAlongPath(steps, d, p, |p| - 1);
        assert false;
      }
    }
  }

  /** On an acyclic graph a pass over entries that cover every chain changes nothing. */
  lemma CoveredIsSettled(steps: seq<Step>, d0: seq<nat>, d1: seq<nat>, i: nat)
    requires Acyclic(EdgesOf(steps)) && Covers(steps, d0, |steps|) && Sound(steps, d1) && i < |steps|
    ensures d1[i] <= d0[i]
  {
    var c :| IsChain(EdgesOf(steps), steps[i].dependsOn, c) && |c| == d1[i];
    ChainIsShort(steps, steps[i].dependsOn, c);
  }

  ghost predicate Below(d0: seq<nat>, d1: seq<nat>) {
    |d0| == |d1| && forall k :: 0 <= k < |d0| ==> d0[k] <= d1[k]
  }

  /** The value relaxing step `i` against its dependency `j` leaves behind. */
  ghost function RelaxedValue(steps: seq<Step>, row: seq<nat>, v: nat, i: nat, j: nat): nat
    requires |row| == |steps| && i < |steps| && j < |steps[i].dependsOn|
  {
    var dep := steps[i].dependsOn[j];
    if dep in IndexOf(steps) && row[i := v][IndexOf(steps)[dep]] + 1 > v
    then row[i := v][IndexOf(steps)[dep]] + 1
    else v
  }

  lemma RelaxOnce(steps: seq<Step>, row: seq<nat>, v: nat, i: nat, j: nat)
    requires Sound(steps, row) && i < |steps| && j < |steps[i].dependsOn|
    requires row[i] <= v && HasChain(EdgesOf(steps), steps[i].dependsOn, v) && Relaxed(steps, row, v, i, j)
    ensures var v' := RelaxedValue(steps, row, v, i, j);
            v <= v' && HasChain(EdgesOf(steps), steps[i].dependsOn, v') && Relaxed(steps, row, v', i, j + 1)
  {
    var dep := steps[i].dependsOn[j];
    if dep in IndexOf(steps) {
      ExtendChain(steps, i, j, row[i := v][IndexOf(steps)[dep]]);
    }
  }

  /** The dependencies of step `i`, relaxed in place. */
  method RelaxStep(steps: seq<Step>, index: map<Name, nat>, depths: array<nat>, i: nat) returns (changed: bool)
    requires index == IndexOf(steps) && i < |steps| && Sound(steps, depths[..])
    modifies depths
    ensures depths[..] == old(depths[..])[i := depths[i]]
    ensures old(depths[i]) <= depths[i] && HasChain(EdgesOf(steps), steps[i].dependsOn, depths[i])
    ensures Relaxed(steps, old(depths[..]), depths[i], i, |steps[i].dependsOn|)
    ensures changed <==> depths[i] != old(depths[i])
  {
    changed := false;
    var deps := steps[i].dependsOn;
    ghost var row := depths[..];
    for j := 0 to |deps|
      invariant depths[..] == row[i := depths[i]] && row[i] <= depths[i]
      invariant HasChain(EdgesOf(steps), deps, depths[i]) && Relaxed(steps, row, depths[i], i, j)
      invariant changed <==> depths[i] != row[i]
    {
      RelaxOnce(steps, row, depths[i], i, j);
      if deps[j] in index {
        var d := index[deps[j]];
        assert depths[d] == depths[..][d];
        if depths[d] + 1 > depths[i] {
          depths[i] := depths[d] + 1;
          changed := true;
        }
      }
    }
  }

  /** One pass over all steps. */
  method RelaxPass(steps: seq<Step>, index: map<Name, nat>, depths: array<nat>) returns (changed: bool)
    requires index == IndexOf(steps) && Sound(steps, depths[..])
    modifies depths
    ensures Sound(steps, depths[..])
    ensures Below(old(depths[..]), depths[..]) && AllRelaxed(steps, old(depths[..]), depths[..])
    ensures changed <==> depths[..] != old(depths[..])
  {
    changed := false;
    ghost var before := depths[..];
    for i := 0 to |steps|
      invariant Sound(steps, depths[..]) && Below(before, depths[..])
      invariant forall k :: 0 <= k < i ==> Relaxed(steps, before, depths[..][k], k, |steps[k].dependsOn|)
      invariant changed <==> depths[..] != before
    {
      ghost var row := depths[..];
      var c := RelaxStep(steps, index, depths, i);
      RelaxedStaysRelaxed(steps, before, row, depths[i], i);
      changed := changed || c;
    }
  }

  lemma RelaxedStaysRelaxed(steps: seq<Step>, d0: seq<nat>, d1: seq<nat>, v: nat, i: nat)
    requires |d1| == |steps| && Below(d0, d1) && i < |steps|
    requires Relaxed(steps, d1, v, i, |steps[i].dependsOn|)
    ensures Relaxed(steps, d0, v, i, |steps[i].dependsOn|)
  {
  }

  /** An acyclic definition cannot change in the last pass the bound allows. */
  lemma LastPassIsQuiet(steps: seq<Step>, d0: seq<nat>, d1: seq<nat>)
    requires Covers(steps, d0, |steps|) && Sound(steps, d1) && Below(d0, d1) && d0 != d1
    ensures !Acyclic(EdgesOf(steps))
  {
    if Acyclic(EdgesOf(steps)) {
      var i :| 0 <= i < |steps| && d0[i] != d1[i];
      CoveredIsSettled(steps, d0, d1, i);
    }
  }

  lemma FixpointIsDepths(steps: seq<Step>, d: seq<nat>)
    requires Sound(steps, d) && AllRelaxed(steps, d, d)
    ensures AreDepths(steps, d)
  {
    forall i, c | 0 <= i < |steps| && IsChain(EdgesOf(steps), steps[i].dependsOn, c) ensures |c| <= d[i] {
      FixpointCovers(steps, d, i, c);
    }
  }

  /**
   The in-place relaxation. `settled` says the loop left through its `break`;
   that happens exactly on acyclic graphs, and then the entries are the
   longest-chain depths.
   */
  method ComputeDepths(steps: seq<Step>) returns (depths: array<nat>, settled: bool)
    ensures fresh(depths) && depths.Length == |steps|
    ensures settled <==> Acyclic(EdgesOf(steps))
    ensures settled ==> AreDepths(steps, depths[..])
    ensures Sound(steps, depths[..])
  {
    var index := IndexOf(steps);
    depths := new nat[|steps|](_ => 0);
    assert forall i :: 0 <= i < |steps| ==> IsChain(EdgesOf(steps), steps[i].dependsOn, []);
    settled := false;
    for pass := 0 to |steps| + 1
      invariant Sound(steps, depths[..])
      invariant Covers(steps, depths[..], pass)
      invariant !settled && (pass > |steps| ==> !Acyclic(EdgesOf(steps)))
    {
      ghost var before := depths[..];
      var changed := RelaxPass(steps, index, depths);
      if !changed {
        settled := true;
        FixpointIsAcyclic(steps, depths[..]);
        FixpointIsDepths(steps, depths[..]);
        break;
      }
      PassCoversMore(steps, before, depths[..], pass);
      if pass == |steps| {
        LastPassIsQuiet(steps, before, depths[..]);
      }
    }
  }

  // ----- Grouping by depth -----

  ghost predicate Ascending(s: seq<nat>) {
    forall j, k :: 0 <= j < k < |s| ==> s[j] < s[k]
  }

  lemma AppendAscending(s: seq<nat>, v: nat)
    requires Ascending(s) && forall x :: x in s ==> x < v
    ensures Ascending(s + [v])
  {
    assert forall j :: 0 <= j < |s| ==> s[j] in s;
  }

  /** The indices at depth `d`, in definition order. */
  function IndicesAt(depths: seq<nat>, d: nat): seq<nat> {
    if depths == [] then []
    else
      var last := |depths| - 1;
      var before := IndicesAt(depths[..last], d);
      if depths[last] == d then before + [last] else before
  }

  lemma {:induction false} IndicesAtHolds(depths: seq<nat>, d: nat)
    ensures forall i :: i in IndicesAt(depths, d) <==> 0 <= i < |depths| && depths[i] == d
    ensures Ascending(IndicesAt(depths, d))
  {
    if depths != [] {
      var last := |depths| - 1;
      IndicesAtHolds(depths[..last], d);
      AppendAscending(IndicesAt(depths[..last], d), last);
    }
  }

  /** The non-empty groups at depths below `bound`, in depth order. */
  function StagesBelow(depths: seq<nat>, bound: nat): (stages: seq<seq<nat>>) {
    if bound == 0 then []
    else
      var before, group := StagesBelow(depths, bound - 1), IndicesAt(depths, bound - 1);
      if group == [] then before else before + [group]
  }

  function MaxDepth(depths: seq<nat>): (m: nat)
    ensures forall i :: 0 <= i < |depths| ==> depths[i] <= m
    ensures depths != [] ==> m in depths
  {
    if depths == [] then 0
    else
      var last := |depths| - 1;
      var m := MaxDepth(depths[..last]);
      assert forall i :: 0 <= i < last ==> depths[..last][i] == depths[i];
      if last == 0 || depths[last] > m then depths[last] else m
  }

  function StagesOf(depths: seq<nat>): seq<seq<nat>> {
    StagesBelow(depths, MaxDepth(depths) + 1)
  }

  ghost predicate Covered(stages: seq<seq<nat>>, i: nat) {
    exists k :: 0 <= k < |stages| && i in stages[k]
  }

  ghost predicate Disjoint(a: seq<nat>, b: seq<nat>) {
    forall i :: i in a ==> i !in b
  }

  /** Stages split the indices below `n`: none empty, none listed twice, each in definition order. */
  ghost predicate IsPartition(stages: seq<seq<nat>>, n: nat) {
    && (forall k :: 0 <= k < |stages| ==> stages[k] != [] && Ascending(stages[k]))
    && (forall k, i :: 0 <= k < |stages| && i in stages[k] ==> i < n)
    && (forall i :: 0 <= i < n ==> Covered(stages, i))
    && (forall k, l :: 0 <= k < l < |stages| ==> Disjoint(stages[k], stages[l]))
  }

  /** The stages are the groups at the depths `levels`, which are all the depths there are, ascending. */
  ghost predicate GroupedByDepth(stages: seq<seq<nat>>, depths: seq<nat>, levels: seq<nat>) {
    && Ascending(levels) && |levels| == |stages|
    && (forall k :: 0 <= k < |levels| ==> levels[k] in depths && stages[k] == IndicesAt(depths, levels[k]))
    && (forall d :: d in depths ==> d in levels)
  }

  ghost function LevelsBelow(depths: seq<nat>, bound: nat): (levels: seq<nat>)
    ensures forall d :: d in levels <==> d in depths && d < bound
    ensures Ascending(levels)
  {
    if bound == 0 then []
    else
      var before := LevelsBelow(depths, bound - 1);
      AppendAscending(before, bound - 1);
      if bound - 1 in depths then before + [bound - 1] else before
  }

  lemma OccupiedLevel(depths: seq<nat>, d: nat)
    ensures IndicesAt(depths, d) != [] <==> d in depths
  {
    IndicesAtHolds(depths, d);
    if IndicesAt(depths, d) != [] {
      assert IndicesAt(depths, d)[0] in IndicesAt(depths, d);
    }
    if d in depths {
      var i :| 0 <= i < |depths| && depths[i] == d;
      assert i in IndicesAt(depths, d);
    }
  }

  ghost predicate Follow(stages: seq<seq<nat>>, depths: seq<nat>, levels: seq<nat>) {
    |stages| == |levels| && forall k :: 0 <= k < |stages| ==> stages[k] == IndicesAt(depths, levels[k])
  }

  lemma FollowSnoc(stages: seq<seq<nat>>, depths: seq<nat>, levels: seq<nat>, d: nat)
    requires Follow(stages, depths, levels)
    ensures Follow(stages + [IndicesAt(depths, d)], depths, levels + [d])
  {
  }

  lemma NextLevel(depths: seq<nat>, bound: nat)
    ensures var more := bound in depths;
            && StagesBelow(depths, bound + 1) ==
               (if more then StagesBelow(depths, bound) + [IndicesAt(depths, bound)] else StagesBelow(depths, bound))
            && LevelsBelow(depths, bound + 1) ==
               (if more then LevelsBelow(depths, bound) + [bound] else LevelsBelow(depths, bound))
  {
    OccupiedLevel(depths, bound);
  }

  lemma {:induction false} StagesFollowLevels(depths: seq<nat>, bound: nat)
    ensures Follow(StagesBelow(depths, bound), depths, LevelsBelow(depths, bound))
  {
    if bound > 0 {
      StagesFollowLevels(depths, bound - 1);
      NextLevel(depths, bound - 1);
      FollowSnoc(StagesBelow(depths, bound - 1), depths, LevelsBelow(depths, bound - 1), bound - 1);
    }
  }

  /** The groups are taken at exactly the depths that occur, lowest first. */
  lemma StagesGroupByDepth(depths: seq<nat>)
    ensures GroupedByDepth(StagesOf(depths), depths, LevelsBelow(depths, MaxDepth(depths) + 1))
  {
    StagesFollowLevels(depths, MaxDepth(depths) + 1);
  }

  lemma GroupsPartition(stages: seq<seq<nat>>, depths: seq<nat>, levels: seq<nat>)
    requires GroupedByDepth(stages, depths, levels)
    ensures IsPartition(stages, |depths|)
  {
    forall k | 0 <= k < |stages|
      ensures stages[k] != [] && Ascending(stages[k]) && forall i :: i in stages[k] ==> i < |depths|
    {
      IndicesAtHolds(depths, levels[k]);
      OccupiedLevel(depths, levels[k]);
    }
    forall i | 0 <= i < |depths| ensures Covered(stages, i) {
      assert depths[i] in levels;
      var k :| 0 <= k < |levels| && levels[k] == depths[i];
      IndicesAtHolds(depths, levels[k]);
      assert i in stages[k];
    }
    forall k, l | 0 <= k < l < |stages| ensures Disjoint(stages[k], stages[l]) {
      assert levels[k] < levels[l];
      IndicesAtHolds(depths, levels[k]);
      IndicesAtHolds(depths, levels[l]);
    }
  }

  // ----- Stages and the scheduler agree -----

  /** A dependency lies strictly below its dependent. */
  lemma DependencyIsShallower(steps: seq<Step>, depths: seq<nat>, i: nat, dep: Name)
    requires AreDepths(steps, depths) && i < |steps| && dep in steps[i].dependsOn && dep in IndexOf(steps)
    ensures depths[IndexOf(steps)[dep]] < depths[i]
  {
    var d := IndexOf(steps)[dep];
    assert HasChain(EdgesOf(steps), steps[d].dependsOn, depths[d]);
    var j :| 0 <= j < |steps[i].dependsOn| && steps[i].dependsOn[j] == dep;
    ExtendChain(steps, i, j, depths[d]);
  }

  /** A step not at depth 0 has a dependency directly below it. */
  lemma DeepestDependency(steps: seq<Step>, depths: seq<nat>, i: nat) returns (dep: Name)
    requires AreDepths(steps, depths) && i < |steps| && depths[i] > 0
    ensures dep in steps[i].dependsOn && dep in IndexOf(steps)
    ensures depths[IndexOf(steps)[dep]] == depths[i] - 1
  {
    var c :| IsChain(EdgesOf(steps), steps[i].dependsOn, c) && |c| == depths[i];
    dep := c[0];
    IndexedDependencies(steps, dep);
    var d := IndexOf(steps)[dep];
    assert IsLongestChain(EdgesOf(steps), steps[d].dependsOn, depths[d]);
    assert |c[1..]| <= depths[d];
    DependencyIsShallower(steps, depths, i, dep);
  }

  lemma {:induction false} EveryLevelOccurs(steps: seq<Step>, depths: seq<nat>, i: nat, d: nat)
    requires AreDepths(steps, depths) && i < |steps| && d <= depths[i]
    ensures d in depths
    decreases depths[i]
  {
    if d < depths[i] {
      var dep := DeepestDependency(steps, depths, i);
      EveryLevelOccurs(steps, depths, IndexOf(steps)[dep], d);
    }
  }

  lemma LevelsAreContiguous(steps: seq<Step>, depths: seq<nat>)
    requires AreDepths(steps, depths) && steps != []
    ensures forall d: nat :: d <= MaxDepth(depths) ==> IndicesAt(depths, d) != []
  {
    var i :| 0 <= i < |depths| && depths[i] == MaxDepth(depths);
    forall d: nat | d <= MaxDepth(depths) ensures IndicesAt(depths, d) != [] {
      EveryLevelOccurs(steps, depths, i, d);
      OccupiedLevel(depths, d);
    }
  }

  /** Stage `k` holds exactly the steps at depth `k`. */
  ghost predicate ByLevel(stages: seq<seq<nat>>, depths: seq<nat>) {
    forall k :: 0 <= k < |stages| ==> stages[k] == IndicesAt(depths, k)
  }

  lemma {:induction false} StagesAreLevels(depths: seq<nat>, bound: nat)
    requires forall d: nat :: d < bound ==> IndicesAt(depths, d) != []
    ensures |StagesBelow(depths, bound)| == bound && ByLevel(StagesBelow(depths, bound), depths)
  {
    if bound > 0 {
      StagesAreLevels(depths, bound - 1);
    }
  }

  function StageNames(steps: seq<Step>, stage: seq<nat>): seq<Name>
    requires forall i :: i in stage ==> i < |steps|
  {
    seq(|stage|, j requires 0 <= j < |stage| => assert stage[j] in stage; steps[stage[j]].name)
  }

  lemma StageNamesSnoc(steps: seq<Step>, stage: seq<nat>, i: nat)
    requires i < |steps| && forall k :: k in stage ==> k < |steps|
    ensures forall k :: k in stage + [i] ==> k < |steps|
    ensures StageNames(steps, stage + [i]) == StageNames(steps, stage) + [steps[i].name]
  {
  }

  lemma GroupInRange(depths: seq<nat>, d: nat)
    ensures forall i :: i in IndicesAt(depths, d) ==> i < |depths|
  {
    IndicesAtHolds(depths, d);
  }

  lemma IndicesSnoc(depths: seq<nat>, x: nat, d: nat)
    ensures IndicesAt(depths + [x], d) == if x == d then IndicesAt(depths, d) + [|depths|] else IndicesAt(depths, d)
  {
    assert (depths + [x])[..|depths|] == depths;
  }

  lemma FilterSnoc(names: seq<Name>, n: Name, keep: Name -> bool)
    ensures Filter(names + [n], keep) == if keep(n) then Filter(names, keep) + [n] else Filter(names, keep)
  {
    assert (names + [n])[..|names|] == names;
  }

  lemma {:induction false} FilterIsGroup(names: seq<Name>, depths: seq<nat>, d: nat, keep: Name -> bool,
                                         steps: seq<Step>)
    requires |names| == |depths| <= |steps|
    requires forall i :: 0 <= i < |names| ==> names[i] == steps[i].name && (keep(names[i]) <==> depths[i] == d)
    ensures forall i :: i in IndicesAt(depths, d) ==> i < |steps|
    ensures Filter(names, keep) == StageNames(steps, IndicesAt(depths, d))
    decreases |names|
  {
    GroupInRange(depths, d);
    if names != [] {
      var last := |names| - 1;
      var front, shallow := names[..last], depths[..last];
      assert names == front + [names[last]] && depths == shallow + [depths[last]];
      FilterIsGroup(front, shallow, d, keep, steps);
      IndicesSnoc(shallow, depths[last], d);
      FilterSnoc(front, names[last], keep);
      if depths[last] == d {
        StageNamesSnoc(steps, IndicesAt(shallow, d), last);
      }
    }
  }

  /** The names of the steps in the stages given. */
  ghost function StagedNames(steps: seq<Step>, stages: seq<seq<nat>>): set<Name> {
    set k, i | 0 <= k < |stages| && i in stages[k] && i < |steps| :: steps[i].name
  }

  lemma DistinctStep(steps: seq<Step>, i: nat)
    requires Distinct(StepNames(steps)) && i < |steps|
    ensures steps[i].name in EdgesOf(steps) && EdgesOf(steps)[steps[i].name] == steps[i].dependsOn
  {
    forall j | i < j < |steps| ensures steps[j].name != steps[i].name {
      assert StepNames(steps)[i] != StepNames(steps)[j];
    }
    LastStepWins(steps, i);
  }

  /** Exactly the steps above level `k` are still to run. */
  ghost predicate DoneBelow(steps: seq<Step>, depths: seq<nat>, k: nat, completed: set<Name>) {
    |depths| == |steps| && forall j :: 0 <= j < |steps| ==> (steps[j].name in completed <==> depths[j] < k)
  }

  lemma DependencyDone(steps: seq<Step>, depths: seq<nat>, k: nat, completed: set<Name>, dep: Name)
    requires DoneBelow(steps, depths, k, completed) && dep in IndexOf(steps)
    ensures dep in completed <==> depths[IndexOf(steps)[dep]] < k
  {
    IndexIsLast(steps, dep);
  }

  lemma DependenciesDone(steps: seq<Step>, depths: seq<nat>, k: nat, completed: set<Name>, i: nat)
    requires DoneBelow(steps, depths, k, completed) && AreDepths(steps, depths)
    requires i < |steps| && ReferencesResolve(steps, i)
    ensures (forall dep :: dep in steps[i].dependsOn ==> dep in completed) <==> depths[i] <= k
  {
    if depths[i] > k {
      var dep := DeepestDependency(steps, depths, i);
      DependencyDone(steps, depths, k, completed, dep);
    } else {
      forall dep | dep in steps[i].dependsOn ensures dep in completed {
        assert dep in StepNames(steps);
        EdgesAreSteps(steps);
        IndexedAreEdges(steps, dep);
        DependencyDone(steps, depths, k, completed, dep);
        DependencyIsShallower(steps, depths, i, dep);
      }
    }
  }

  lemma ReadyIsNextLevel(steps: seq<Step>, depths: seq<nat>, k: nat, completed: set<Name>, i: nat)
    requires AllReferencesResolve(steps) && Distinct(StepNames(steps)) && AreDepths(steps, depths) && i < |steps|
    requires DoneBelow(steps, depths, k, completed)
    ensures IsReady(Dag(StepNames(steps), EdgesOf(steps)), completed, steps[i].name) <==> depths[i] == k
  {
    DistinctStep(steps, i);
    DependenciesDone(steps, depths, k, completed, i);
  }

  lemma AtLevel(depths: seq<nat>, d: nat, i: nat)
    ensures i in IndicesAt(depths, d) <==> i < |depths| && depths[i] == d
  {
    IndicesAtHolds(depths, d);
  }

  lemma SameStep(steps: seq<Step>, i: nat, j: nat)
    requires Distinct(StepNames(steps)) && i < |steps| && j < |steps| && steps[i].name == steps[j].name
    ensures i == j
  {
    assert StepNames(steps)[i] == StepNames(steps)[j];
  }

  lemma ShallowIsStaged(steps: seq<Step>, depths: seq<nat>, done: seq<seq<nat>>, j: nat)
    requires |depths| == |steps| && ByLevel(done, depths) && j < |steps| && depths[j] < |done|
    ensures steps[j].name in StagedNames(steps, done)
  {
    AtLevel(depths, depths[j], j);
    assert j in done[depths[j]];
  }

  lemma StagedIsShallow(steps: seq<Step>, depths: seq<nat>, done: seq<seq<nat>>, j: nat)
    requires Distinct(StepNames(steps)) && |depths| == |steps| && ByLevel(done, depths) && j < |steps|
    requires steps[j].name in StagedNames(steps, done)
    ensures depths[j] < |done|
  {
    var l: nat, i: nat :| l < |done| && i in done[l] && i < |steps| && steps[i].name == steps[j].name;
    AtLevel(depths, l, i);
    SameStep(steps, i, j);
  }

  lemma CompletedLevels(steps: seq<Step>, depths: seq<nat>, done: seq<seq<nat>>)
    requires Distinct(StepNames(steps)) && |depths| == |steps| && ByLevel(done, depths)
    ensures DoneBelow(steps, depths, |done|, StagedNames(steps, done))
  {
    forall j | 0 <= j < |steps| ensures steps[j].name in StagedNames(steps, done) <==> depths[j] < |done| {
      if depths[j] < |done| {
        ShallowIsStaged(steps, depths, done, j);
      }
      if steps[j].name in StagedNames(steps, done) {
        StagedIsShallow(steps, depths, done, j);
      }
    }
  }

  lemma ReadyAfterLevels(steps: seq<Step>, depths: seq<nat>, k: nat, completed: set<Name>)
    requires AllReferencesResolve(steps) && Distinct(StepNames(steps)) && AreDepths(steps, depths)
    requires DoneBelow(steps, depths, k, completed)
    ensures forall i :: i in IndicesAt(depths, k) ==> i < |steps|
    ensures ReadySteps(Dag(StepNames(steps), EdgesOf(steps)), completed) == StageNames(steps, IndicesAt(depths, k))
  {
    var dag := Dag(StepNames(steps), EdgesOf(steps));
    forall i | 0 <= i < |steps| ensures IsReady(dag, completed, steps[i].name) <==> depths[i] == k {
      ReadyIsNextLevel(steps, depths, k, completed, i);
    }
    FilterIsGroup(StepNames(steps), depths, k, n => IsReady(dag, completed, n), steps);
  }

  /** The stages of a definition the builder accepts are its depth levels. */
  lemma StagesOfDepths(steps: seq<Step>, depths: seq<nat>)
    requires AreDepths(steps, depths)
    ensures ByLevel(StagesOf(depths), depths)
    ensures IndicesAt(depths, |StagesOf(depths)|) == []
  {
    if steps == [] {
      assert depths == [];
      assert StagesBelow(depths, 1) == [];
    } else {
      LevelsAreContiguous(steps, depths);
      StagesAreLevels(depths, MaxDepth(depths) + 1);
    }
    OccupiedLevel(depths, |StagesOf(depths)|);
  }

  /** Once exactly the first k stages are completed, the ready steps are the next stage; none after the last. */
  ghost predicate NextStageIsReady(steps: seq<Step>, stages: seq<seq<nat>>, k: nat)
    requires k <= |stages|
  {
    var ready := ReadySteps(Dag(StepNames(steps), EdgesOf(steps)), StagedNames(steps, stages[..k]));
    if k == |stages| then ready == []
    else (forall i :: i in stages[k] ==> i < |steps|) && ready == StageNames(steps, stages[k])
  }

  lemma LevelIsReady(steps: seq<Step>, depths: seq<nat>, k: nat)
    requires AllReferencesResolve(steps) && Distinct(StepNames(steps)) && AreDepths(steps, depths)
    requires k <= |StagesOf(depths)|
    ensures NextStageIsReady(steps, StagesOf(depths), k)
  {
    StagesOfDepths(steps, depths);
    var done: seq<seq<nat>> := StagesOf(depths)[..k];
    CompletedLevels(steps, depths, done);
    ReadyAfterLevels(steps, depths, k, StagedNames(steps, done));
  }

  /**
   For every workflow the builder accepts with distinct names, the stages by
   depth agree with the scheduler at every point, in definition order.
   */
  lemma StagesAgreeWithScheduler(steps: seq<Step>)
    requires AllReferencesResolve(steps) && Acyclic(EdgesOf(steps)) && Distinct(StepNames(steps))
    ensures var stages := StagesOf(Depths(steps));
            forall k: nat :: k <= |stages| ==> NextStageIsReady(steps, stages, k)
  {
    var stages := StagesOf(Depths(steps));
    forall k: nat | k <= |stages| ensures NextStageIsReady(steps, stages, k) {
      LevelIsReady(steps, Depths(steps), k);
    }
  }

  // ----- group_stages -----

  /** The partition holds on every definition, cyclic ones included. */
  method GroupStages(steps: seq<Step>) returns (stages: seq<seq<nat>>)
    ensures IsPartition(stages, |steps|)
    ensures exists depths :: Sound(steps, depths) && stages == StagesOf(depths)
    ensures Acyclic(EdgesOf(steps)) ==> stages == StagesOf(Depths(steps))
    ensures AllReferencesResolve(steps) && Acyclic(EdgesOf(steps)) && Distinct(StepNames(steps)) ==>
              forall k: nat :: k <= |stages| ==> NextStageIsReady(steps, stages, k)
  {
    var depths, settled := ComputeDepths(steps);
    StagesGroupByDepth(depths[..]);
    GroupsPartition(StagesOf(depths[..]), depths[..], LevelsBelow(depths[..], MaxDepth(depths[..]) + 1));
    stages := StagesOf(depths[..]);
    if settled {
      DepthsAreUnique(steps, depths[..]);
      if AllReferencesResolve(steps) && Distinct(StepNames(steps)) {
        StagesAgreeWithScheduler(steps);
      }
    }
  }
}
