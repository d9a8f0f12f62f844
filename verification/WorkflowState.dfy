/**
 The persisted progress of one workflow invocation (src/data/workflow_state.rs).

 `Snapshot` is the value a saved state holds; the class `WorkflowState` updates
 it in place, and every method is tied to a function on snapshots. Timestamps,
 identifiers and the setup and teardown phases carry no decision of this file
 and are not represented.
 */
module WorkflowState {
  import opened Wrappers
  import opened WorkflowDag

  datatype StepState =
    | Pending
    | Running(containerId: Option<string>)
    | Succeeded
    | Failed(exitCode: int, errorMessage: Option<string>)
    | Cancelled
    | Skipped
  {
    /** Counts as a satisfied dependency. */
    predicate Completes() { Succeeded? || Skipped? }

    predicate Stopped() { Failed? || Cancelled? }

    predicate Terminal() { Completes() || Stopped() }
  }

  datatype Snapshot = Snapshot(
    stepStates: map<Name, StepState>,
    completed: set<Name>,
    steps: seq<Step>,
    attempts: map<Name, nat>,
    containers: map<Name, string>)
  {
    /** The two records of progress agree. */
    ghost predicate Consistent() {
      forall n :: n in completed <==> n in stepStates && stepStates[n].Completes()
    }

    predicate CompletedStep(n: Name) {
      n in stepStates && stepStates[n].Completes()
    }

    predicate StoppedStep(n: Name) {
      n in stepStates && stepStates[n].Stopped()
    }

    predicate IsComplete() {
      forall n :: n in stepStates ==> stepStates[n].Terminal()
    }

    function NextReady(dag: Dag): seq<Name> {
      ReadySteps(dag, completed)
    }

    function WithStatus(n: Name, status: StepState): Snapshot {
      this.(stepStates := stepStates[n := status],
            completed := if status.Completes() then completed + {n} else completed - {n})
    }

    /** Every record of the names given removed, the step list aside. */
    function Without(gone: set<Name>): Snapshot {
      this.(stepStates := stepStates - gone, completed := completed - gone,
            attempts := attempts - gone, containers := containers - gone)
    }
  }

  function Fresh(steps: seq<Step>): Snapshot {
    Snapshot(map n | n in StepNames(steps) :: Pending, {}, steps, map[], map[])
  }

  // ----- resume_stop_point -----

  /** First position whose name satisfies `p`. */
  function Position(names: seq<Name>, p: Name -> bool): (r: Option<nat>)
    ensures r.None? ==> forall n :: n in names ==> !p(n)
    ensures r.Some? ==> r.value < |names| && p(names[r.value]) && forall n :: n in names[..r.value] ==> !p(n)
  {
    if names == [] then None
    else if p(names[0]) then Some(0)
    else
      match Position(names[1..], p)
      case None => None
      case Some(k) => assert names[..k + 1] == [names[0]] + names[1..][..k]; Some(k + 1)
  }

  lemma {:induction false} FirstPosition(names: seq<Name>, p: Name -> bool, i: nat)
    requires i < |names| && p(names[i]) && forall j :: 0 <= j < i ==> !p(names[j])
    ensures Position(names, p) == Some(i)
    decreases i
  {
    if i > 0 {
      FirstPosition(names[1..], p, i - 1);
    }
  }

  function StopPoint(s: Snapshot, order: seq<Name>): (r: Option<nat>)
    ensures r.None? <==> forall n :: n in order ==> s.CompletedStep(n)
    ensures r.Some? ==> r.value < |order| && !s.CompletedStep(order[r.value])
    ensures r.Some? && s.StoppedStep(order[r.value]) ==> forall n :: n in order[..r.value] ==> !s.StoppedStep(n)
    ensures r.Some? && !s.StoppedStep(order[r.value]) ==>
              && (forall n :: n in order ==> !s.StoppedStep(n))
              && (forall n :: n in order[..r.value] ==> s.CompletedStep(n))
  {
    match Position(order, n => s.StoppedStep(n))
    case Some(k) => assert order[k] in order; Some(k)
    case None => Position(order, n => !s.CompletedStep(n))
  }

  /** The name is recorded as failed or cancelled. */
  predicate RecordedStopped(states: map<Name, StepState>, n: Name) {
    n in states && (states[n].Failed? || states[n].Cancelled?)
  }

  /** The name is recorded as succeeded or skipped. */
  predicate RecordedDone(states: map<Name, StepState>, n: Name) {
    n in states && (states[n].Succeeded? || states[n].Skipped?)
  }

  /** The first position of a step that failed or was cancelled; without one, of a step that is not done. */
  ghost predicate IsStopPoint(states: map<Name, StepState>, order: seq<Name>, r: Option<nat>) {
    if exists n :: n in order && RecordedStopped(states, n) then
      && r.Some? && r.value < |order| && RecordedStopped(states, order[r.value])
      && forall j :: 0 <= j < r.value ==> !RecordedStopped(states, order[j])
    else if r.Some? then
      && r.value < |order| && !RecordedDone(states, order[r.value])
      && forall j :: 0 <= j < r.value ==> RecordedDone(states, order[j])
    else forall n :: n in order ==> RecordedDone(states, n)
  }

  lemma StopPointIs(s: Snapshot, order: seq<Name>)
    ensures IsStopPoint(s.stepStates, order, StopPoint(s, order))
  {
    var r := StopPoint(s, order);
    if r.Some? {
      forall j | 0 <= j < r.value ensures order[j] in order[..r.value] {
        assert order[..r.value][j] == order[j];
      }
    }
  }

  /** A state is complete exactly when no recorded step is pending or running. */
  lemma CompleteExactly(s: Snapshot)
    ensures s.IsComplete() <==> forall n :: n in s.stepStates ==> !s.stepStates[n].Pending? && !s.stepStates[n].Running?
  {
  }

  // ----- rewind_to -----

  function RewindEntry(s: Snapshot, n: Name, again: bool): Snapshot {
    if again then s.WithStatus(n, Pending)
    else if s.CompletedStep(n) then s
    else s.WithStatus(n, Skipped)
  }

  /** The first `k` entries of `order` rewound to position `start`. */
  function RewindPrefix(s: Snapshot, order: seq<Name>, start: nat, k: nat): Snapshot
    requires k <= |order|
  {
    if k == 0 then s else RewindEntry(RewindPrefix(s, order, start, k - 1), order[k - 1], k - 1 >= start)
  }

  function Rewound(s: Snapshot, order: seq<Name>, start: Name): Snapshot {
    match Position(order, n => n == start)
    case None => s
    case Some(i) => RewindPrefix(s, order, i, |order|)
  }

  /** The status `rewind_to` position `start` leaves at position `j`. */
  function RewoundStatus(s: Snapshot, order: seq<Name>, start: nat, j: nat): StepState
    requires j < |order|
  {
    if j >= start then Pending
    else if s.CompletedStep(order[j]) then s.stepStates[order[j]]
    else Skipped
  }

  /** `after` is `before` rewound to position `start` of the order. */
  ghost predicate IsRewound(before: map<Name, StepState>, order: seq<Name>, start: nat, after: map<Name, StepState>) {
    && (forall n :: n in after <==> n in before || n in order)
    && (forall n :: n in before && n !in order ==> after[n] == before[n])
    && (forall j :: start <= j < |order| ==> after[order[j]] == Pending)
    && (forall j :: 0 <= j < start && j < |order| ==>
                      if RecordedDone(before, order[j]) then after[order[j]] == before[order[j]]
                      else after[order[j]] == Skipped)
  }

  lemma {:induction false} RewindElsewhere(s: Snapshot, order: seq<Name>, start: nat, k: nat, n: Name)
    requires k <= |order| && n !in order[..k]
    ensures var r := RewindPrefix(s, order, start, k);
            && (n in r.stepStates <==> n in s.stepStates)
            && (n in s.stepStates ==> r.stepStates[n] == s.stepStates[n])
  {
    if k > 0 {
      assert order[..k] == order[..k - 1] + [order[k - 1]];
      RewindElsewhere(s, order, start, k - 1, n);
    }
  }

  lemma {:induction false} RewindAt(s: Snapshot, order: seq<Name>, start: nat, k: nat, j: nat)
    requires Distinct(order) && j < k <= |order|
    ensures var r := RewindPrefix(s, order, start, k);
            order[j] in r.stepStates && r.stepStates[order[j]] == RewoundStatus(s, order, start, j)
  {
    if j == k - 1 {
      assert order[j] !in order[..j];
      RewindElsewhere(s, order, start, j, order[j]);
    } else {
      RewindAt(s, order, start, k - 1, j);
    }
  }

  lemma {:induction false} RewindFrame(s: Snapshot, order: seq<Name>, start: nat, k: nat)
    requires k <= |order|
    ensures var r := RewindPrefix(s, order, start, k);
            r == s.(stepStates := r.stepStates, completed := r.completed)
  {
    if k > 0 {
      RewindFrame(s, order, start, k - 1);
    }
  }

  lemma {:induction false} RewindPrefixConsistent(s: Snapshot, order: seq<Name>, start: nat, k: nat)
    requires s.Consistent() && k <= |order|
    ensures RewindPrefix(s, order, start, k).Consistent()
  {
    if k > 0 {
      RewindPrefixConsistent(s, order, start, k - 1);
    }
  }

  /** What `rewind_to` the i-th step of the topological order leaves, step by step. */
  lemma RewindStatuses(s: Snapshot, dag: Dag, i: nat)
    requires dag.Valid() && i < |TopoOrder(dag)|
    ensures var order := TopoOrder(dag);
            var r := Rewound(s, order, order[i]);
            && (forall n :: n !in dag.order ==> (n in r.stepStates <==> n in s.stepStates))
            && (forall n :: n !in dag.order && n in s.stepStates ==> r.stepStates[n] == s.stepStates[n])
            && (forall j :: 0 <= j < |order| ==>
                              order[j] in r.stepStates && r.stepStates[order[j]] == RewoundStatus(s, order, i, j))
            && r == s.(stepStates := r.stepStates, completed := r.completed)
  {
    var order := TopoOrder(dag);
    TopoOrderSorts(dag);
    FirstPosition(order, n => n == order[i], i);
    RewindFrame(s, order, i, |order|);
    assert order[..|order|] == order;
    var r := RewindPrefix(s, order, i, |order|);
    forall n | n !in dag.order ensures n in r.stepStates <==> n in s.stepStates {
      RewindElsewhere(s, order, i, |order|, n);
    }
    forall n | n !in dag.order && n in s.stepStates ensures r.stepStates[n] == s.stepStates[n] {
      RewindElsewhere(s, order, i, |order|, n);
    }
    forall j | 0 <= j < |order|
      ensures order[j] in r.stepStates && r.stepStates[order[j]] == RewoundStatus(s, order, i, j)
    {
      RewindAt(s, order, i, |order|, j);
    }
  }

  lemma RewoundAt(s: Snapshot, dag: Dag, i: nat)
    requires dag.Valid() && i < |TopoOrder(dag)|
    ensures IsRewound(s.stepStates, TopoOrder(dag), i, Rewound(s, TopoOrder(dag), TopoOrder(dag)[i]).stepStates)
  {
    var order := TopoOrder(dag);
    var r := Rewound(s, order, order[i]);
    TopoOrderSorts(dag);
    RewindStatuses(s, dag, i);
    forall n | n in order ensures n in r.stepStates {
      var j :| 0 <= j < |order| && order[j] == n;
    }
  }

  /** A rewind to a step of the workflow; a rewind to any other name changes nothing. */
  lemma RewindExactly(s: Snapshot, dag: Dag, start: Name)
    ensures var r := Rewound(s, TopoOrder(dag), start);
            r.steps == s.steps && r.attempts == s.attempts && r.containers == s.containers
    ensures dag.Valid() && start !in dag.order ==> Rewound(s, TopoOrder(dag), start) == s
    ensures forall i :: dag.Valid() && 0 <= i < |TopoOrder(dag)| && TopoOrder(dag)[i] == start ==>
                          IsRewound(s.stepStates, TopoOrder(dag), i, Rewound(s, TopoOrder(dag), start).stepStates)
  {
    var order := TopoOrder(dag);
    var at := Position(order, n => n == start);
    if at.Some? {
      RewindFrame(s, order, at.value, |order|);
    }
    if dag.Valid() {
      TopoOrderSorts(dag);
      forall i | 0 <= i < |order| && order[i] == start {
        RewoundAt(s, dag, i);
      }
    }
  }

  lemma RewoundConsistent(s: Snapshot, order: seq<Name>, start: Name)
    requires s.Consistent()
    ensures Rewound(s, order, start).Consistent()
  {
    match Position(order, n => n == start)
    case None =>
    case Some(i) => RewindPrefixConsistent(s, order, i, |order|);
  }

  lemma RewoundCompleted(s: Snapshot, dag: Dag, i: nat)
    requires dag.Valid() && s.Consistent() && i < |TopoOrder(dag)|
    ensures var order := TopoOrder(dag);
            forall j :: 0 <= j < |order| ==> (order[j] in Rewound(s, order, order[i]).completed <==> j < i)
  {
    RewindStatuses(s, dag, i);
    RewoundConsistent(s, TopoOrder(dag), TopoOrder(dag)[i]);
  }

  /** The step rewound to is ready, and no step before it is. */
  lemma RewoundStepIsReady(s: Snapshot, dag: Dag, i: nat)
    requires dag.Valid() && s.Consistent() && i < |TopoOrder(dag)|
    ensures var order := TopoOrder(dag);
            var ready := Rewound(s, order, order[i]).NextReady(dag);
            order[i] in ready && forall j :: 0 <= j < i ==> order[j] !in ready
  {
    var order := TopoOrder(dag);
    TopoOrderSorts(dag);
    RewoundCompleted(s, dag, i);
    var r := Rewound(s, order, order[i]);
    assert order[i] in order;
    forall d | d in dag.edges[order[i]] ensures d in r.completed {
      assert Edge(dag.edges, order[i], d);
      var j :| 0 <= j < i && order[..i][j] == d;
      assert order[j] == d;
    }
    assert IsReady(dag, r.completed, order[i]);
  }

  /**
   After a rewind to the i-th step of the topological order the run can be
   resumed there: the state is not complete, the stop point is i, no step of
   the workflow is left failed, cancelled or running, exactly the steps from i
   on are missing, and rewinding again changes nothing.
   */
  lemma RewindResumes(s: Snapshot, dag: Dag, i: nat)
    requires dag.Valid() && s.Consistent() && i < |TopoOrder(dag)|
    ensures var order := TopoOrder(dag);
            var r := Rewound(s, order, order[i]);
            && !r.IsComplete()
            && StopPoint(r, order) == Some(i)
            && (forall n :: n in dag.order ==>
                              n in r.stepStates && (r.stepStates[n].Completes() || r.stepStates[n].Pending?))
            && dag.edges.Keys - r.completed == Names(order[i..])
            && Rewound(r, order, order[i]) == r
  {
    RewoundStopPoint(s, dag, i);
    RewoundMissing(s, dag, i);
    RewindTwice(s, dag, i);
  }

  /** The stop point of a state completed before position `i` of the order and pending from there on. */
  lemma StopPointAt(r: Snapshot, order: seq<Name>, i: nat)
    requires i < |order|
    requires forall j :: 0 <= j < i ==> r.CompletedStep(order[j])
    requires forall j :: 0 <= j < |order| ==> !r.StoppedStep(order[j])
    requires !r.CompletedStep(order[i])
    ensures StopPoint(r, order) == Some(i)
  {
    FirstPosition(order, n => !r.CompletedStep(n), i);
  }

  lemma RewoundStopPoint(s: Snapshot, dag: Dag, i: nat)
    requires dag.Valid() && i < |TopoOrder(dag)|
    ensures var order := TopoOrder(dag);
            var r := Rewound(s, order, order[i]);
            && !r.IsComplete()
            && StopPoint(r, order) == Some(i)
            && (forall n :: n in dag.order ==>
                              n in r.stepStates && (r.stepStates[n].Completes() || r.stepStates[n].Pending?))
  {
    var order := TopoOrder(dag);
    var r := Rewound(s, order, order[i]);
    TopoOrderSorts(dag);
    RewindStatuses(s, dag, i);
    forall n | n in order ensures n in r.stepStates && (r.stepStates[n].Completes() || r.stepStates[n].Pending?) {
      var j :| 0 <= j < |order| && order[j] == n;
    }
    StopPointAt(r, order, i);
  }

  lemma RewoundMissing(s: Snapshot, dag: Dag, i: nat)
    requires dag.Valid() && s.Consistent() && i < |TopoOrder(dag)|
    ensures var order := TopoOrder(dag);
            dag.edges.Keys - Rewound(s, order, order[i]).completed == Names(order[i..])
  {
    var order := TopoOrder(dag);
    var completed := Rewound(s, order, order[i]).completed;
    TopoOrderSorts(dag);
    RewoundCompleted(s, dag, i);
    forall n | n in dag.edges.Keys - completed ensures n in order[i..] {
      var j :| 0 <= j < |order| && order[j] == n;
      assert order[i..][j - i] == n;
    }
    forall n | n in order[i..] ensures n in dag.edges.Keys - completed {
      var j :| 0 <= j < |order[i..]| && order[i..][j] == n;
      assert order[i + j] == n;
    }
  }

  lemma RewindTwice(s: Snapshot, dag: Dag, i: nat)
    requires dag.Valid() && s.Consistent() && i < |TopoOrder(dag)|
    ensures var order := TopoOrder(dag);
            var r := Rewound(s, order, order[i]);
            Rewound(r, order, order[i]) == r
  {
    var order := TopoOrder(dag);
    var r := Rewound(s, order, order[i]);
    var r' := Rewound(r, order, order[i]);
    TopoOrderSorts(dag);
    RewindStatuses(s, dag, i);
    RewindStatuses(r, dag, i);
    RewoundConsistent(s, order, order[i]);
    RewoundConsistent(r, order, order[i]);
    forall n ensures n in r'.stepStates <==> n in r.stepStates
      ensures n in r.stepStates ==> r'.stepStates[n] == r.stepStates[n]
    {
      if n in order {
        var j :| 0 <= j < |order| && order[j] == n;
      }
    }
    assert r'.stepStates == r.stepStates;
    assert r'.completed == r.completed;
  }

  // ----- retain_steps_in -----

  /** The recorded steps the workflow no longer defines. */
  function Orphans(s: Snapshot, dag: Dag): set<Name> {
    set n | n in s.stepStates && n !in dag.order
  }

  function KeepSteps(steps: seq<Step>, dropped: set<Name>): (r: seq<Step>)
    ensures forall st :: st in r <==> st in steps && st.name !in dropped
    ensures (forall st :: st in steps ==> st.name !in dropped) ==> r == steps
  {
    if steps == [] then []
    else
      var last := |steps| - 1;
      assert steps == steps[..last] + [steps[last]];
      var before := KeepSteps(steps[..last], dropped);
      if steps[last].name in dropped then before else before + [steps[last]]
  }

  /** `r` holds the steps at the indices `kept`, which ascend. */
  ghost predicate KeptAt(steps: seq<Step>, r: seq<Step>, kept: seq<nat>) {
    && |kept| == |r| && (forall i, j :: 0 <= i < j < |kept| ==> kept[i] < kept[j])
    && (forall j :: 0 <= j < |kept| ==> kept[j] < |steps| && r[j] == steps[kept[j]])
  }

  lemma KeptSnoc(steps: seq<Step>, r: seq<Step>, kept: seq<nat>, st: Step)
    requires KeptAt(steps, r, kept)
    ensures KeptAt(steps + [st], r, kept) && KeptAt(steps + [st], r + [st], kept + [|steps|])
  {
  }

  /** `kept` are the positions of the steps not dropped. */
  ghost predicate KeepsOthers(steps: seq<Step>, dropped: set<Name>, kept: seq<nat>) {
    forall i :: i in kept <==> 0 <= i < |steps| && steps[i].name !in dropped
  }

  lemma OthersSnoc(front: seq<Step>, last: Step, dropped: set<Name>, kept: seq<nat>)
    requires KeepsOthers(front, dropped, kept)
    ensures KeepsOthers(front + [last], dropped, if last.name in dropped then kept else kept + [|front|])
  {
  }

  /** The steps kept are those not dropped, in the order they were in. */
  lemma {:induction false} KeepStepsInOrder(steps: seq<Step>, dropped: set<Name>) returns (kept: seq<nat>)
    ensures KeptAt(steps, KeepSteps(steps, dropped), kept) && KeepsOthers(steps, dropped, kept)
  {
    if steps == [] {
      kept := [];
    } else {
      var front, last := steps[..|steps| - 1], steps[|steps| - 1];
      assert steps == front + [last];
      kept := KeepStepsInOrder(front, dropped);
      KeptSnoc(front, KeepSteps(front, dropped), kept, last);
      OthersSnoc(front, last, dropped, kept);
      kept := if last.name in dropped then kept else kept + [|front|];
    }
  }

  function Retained(s: Snapshot, dag: Dag): Snapshot {
    var dropped := Orphans(s, dag);
    s.Without(dropped).(steps := KeepSteps(s.steps, dropped))
  }

  /**
   When nothing is left to run, the state reads as complete exactly if every
   step the workflow no longer defines was left in a terminal status.
   */
  lemma StrandedByOrphans(s: Snapshot, dag: Dag)
    requires dag.Valid() && s.Consistent() && s.NextReady(dag) == []
    ensures s.IsComplete() <==> forall n :: n in Orphans(s, dag) ==> s.stepStates[n].Terminal()
  {
    NoDeadlock(dag, s.completed);
  }

  /** Pruning keeps agreement and statuses, and afterwards a run with nothing ready is complete. */
  lemma RetainUnstrands(s: Snapshot, dag: Dag)
    requires dag.Valid() && s.Consistent()
    ensures var r := Retained(s, dag);
            && r.Consistent()
            && (forall n :: n in r.stepStates <==> n in s.stepStates && n in dag.order)
            && (forall n :: n in r.stepStates ==> r.stepStates[n] == s.stepStates[n])
            && r.NextReady(dag) == s.NextReady(dag)
            && (r.NextReady(dag) == [] ==> r.IsComplete())
  {
    var r := Retained(s, dag);
    assert r.Consistent();
    assert Orphans(r, dag) == {};
    forall n | n in dag.order ensures IsReady(dag, r.completed, n) <==> IsReady(dag, s.completed, n) {
      assert forall d :: Edge(dag.edges, n, d) ==> d in dag.order;
      assert forall d :: d in dag.edges[n] ==> Edge(dag.edges, n, d);
    }
    SameFilter(dag.order, n => IsReady(dag, r.completed, n), n => IsReady(dag, s.completed, n));
    if r.NextReady(dag) == [] {
      StrandedByOrphans(r, dag);
    }
  }

  lemma {:induction false} SameFilter(names: seq<Name>, p: Name -> bool, q: Name -> bool)
    requires forall n :: n in names ==> p(n) == q(n)
    ensures Filter(names, p) == Filter(names, q)
  {
    if names != [] {
      SameFilter(names[..|names| - 1], p, q);
    }
  }

  // ----- Every history of the state -----

  datatype Op =
    | SetStatus(name: Name, status: StepState)
    | RewindTo(dag: Dag, start: Name)
    | RetainStepsIn(dag: Dag)

  ghost function Apply(s: Snapshot, op: Op): Snapshot {
    match op
    case SetStatus(n, status) => s.WithStatus(n, status)
    case RewindTo(dag, start) => Rewound(s, TopoOrder(dag), start)
    case RetainStepsIn(dag) => Retained(s, dag)
  }

  ghost function History(steps: seq<Step>, ops: seq<Op>): Snapshot {
    if ops == [] then Fresh(steps)
    else Apply(History(steps, ops[..|ops| - 1]), ops[|ops| - 1])
  }

  /** `completed_steps` and `step_states` agree after every sequence of operations. */
  lemma {:induction false} AlwaysConsistent(steps: seq<Step>, ops: seq<Op>)
    ensures History(steps, ops).Consistent()
  {
    if ops != [] {
      var last := |ops| - 1;
      var s := History(steps, ops[..last]);
      AlwaysConsistent(steps, ops[..last]);
      match ops[last]
      case SetStatus(_, _) =>
      case RewindTo(dag, start) => RewoundConsistent(s, TopoOrder(dag), start);
      case RetainStepsIn(_) =>
    }
  }

  /** Only the status of other steps is set. */
  predicate SetsOnlyOthers(ops: seq<Op>, n: Name) {
    forall j :: 0 <= j < |ops| ==> ops[j].SetStatus? && ops[j].name != n
  }

  /** The status last set is the one recorded, exit code, message and container included. */
  lemma {:induction false} LastStatusStays(steps: seq<Step>, before: seq<Op>, n: Name, st: StepState, after: seq<Op>)
    requires SetsOnlyOthers(after, n)
    ensures var s := History(steps, before + [SetStatus(n, st)] + after);
            && n in s.stepStates && s.stepStates[n] == st
            && (n in s.completed <==> st.Succeeded? || st.Skipped?)
    decreases |after|
  {
    var ops := before + [SetStatus(n, st)] + after;
    if after == [] {
      assert ops[..|ops| - 1] == before;
    } else {
      var front := after[..|after| - 1];
      assert ops[..|ops| - 1] == before + [SetStatus(n, st)] + front;
      LastStatusStays(steps, before, n, st, front);
      assert ops[|ops| - 1] == after[|after| - 1] && after[|after| - 1].name != n;
    }
  }

  // ----- Runs of the scheduler over the state -----

  datatype Move = Move(name: Name, status: StepState)

  function AfterMoves(s: Snapshot, moves: seq<Move>): Snapshot {
    if moves == [] then s
    else
      var last := moves[|moves| - 1];
      AfterMoves(s, moves[..|moves| - 1]).WithStatus(last.name, last.status)
  }

  /** Each move marks a step `next_ready` offered as succeeded or skipped. */
  ghost predicate IsSchedule(s: Snapshot, dag: Dag, moves: seq<Move>) {
    forall j :: 0 <= j < |moves| ==>
                  moves[j].status.Completes() && moves[j].name in AfterMoves(s, moves[..j]).NextReady(dag)
  }

  function MovedNames(moves: seq<Move>): (r: seq<Name>)
    ensures |r| == |moves| && forall j :: 0 <= j < |r| ==> r[j] == moves[j].name
  {
    seq(|moves|, j requires 0 <= j < |moves| => moves[j].name)
  }

  lemma {:induction false} MovesComplete(s: Snapshot, moves: seq<Move>)
    requires s.Consistent() && forall m :: m in moves ==> m.status.Completes()
    ensures AfterMoves(s, moves).completed == s.completed + Names(MovedNames(moves))
    ensures AfterMoves(s, moves).Consistent()
    ensures AfterMoves(s, moves).stepStates.Keys == s.stepStates.Keys + Names(MovedNames(moves))
    ensures forall n :: n in s.stepStates && n !in MovedNames(moves) ==>
                          AfterMoves(s, moves).stepStates[n] == s.stepStates[n]
  {
    if moves != [] {
      var last := |moves| - 1;
      assert moves == moves[..last] + [moves[last]];
      MovesComplete(s, moves[..last]);
      assert MovedNames(moves) == MovedNames(moves[..last]) + [moves[last].name];
    }
  }

  lemma ScheduleIsRun(s: Snapshot, dag: Dag, moves: seq<Move>)
    requires s.Consistent() && IsSchedule(s, dag, moves)
    ensures IsRun(dag, s.completed, MovedNames(moves))
    ensures forall m :: m in moves ==> m.status.Completes()
  {
    var picks := MovedNames(moves);
    forall j | 0 <= j < |picks| ensures picks[j] in ReadySteps(dag, s.completed + Names(picks[..j])) {
      MovesComplete(s, moves[..j]);
      assert MovedNames(moves[..j]) == picks[..j];
    }
  }

  /** Completing moves leave nothing ready exactly when no step of the workflow is missing. */
  lemma MovesFinish(s: Snapshot, dag: Dag, moves: seq<Move>)
    requires dag.Valid() && s.Consistent() && forall m :: m in moves ==> m.status.Completes()
    requires IsRun(dag, s.completed, MovedNames(moves))
    ensures AfterMoves(s, moves).NextReady(dag) == [] <==> |moves| == |dag.edges.Keys - s.completed|
  {
    RunCompletesEverything(dag, s.completed, MovedNames(moves));
    MovesComplete(s, moves);
  }

  /**
   A schedule makes no step twice and never completes one before its
   dependencies; it is stuck exactly after as many moves as steps were missing.
   */
  lemma ScheduleFinishes(s: Snapshot, dag: Dag, moves: seq<Move>)
    requires dag.Valid() && s.Consistent() && IsSchedule(s, dag, moves)
    ensures var picks := MovedNames(moves);
            && Distinct(picks)
            && (forall j, d :: 0 <= j < |picks| && Edge(dag.edges, picks[j], d) ==> d in s.completed || d in picks[..j])
            && (AfterMoves(s, moves).NextReady(dag) == [] <==> |moves| == |dag.edges.Keys - s.completed|)
  {
    ScheduleIsRun(s, dag, moves);
    RunRespectsDependencies(dag, s.completed, MovedNames(moves));
    MovesFinish(s, dag, moves);
  }

  lemma MovesAddNoOrphans(s: Snapshot, dag: Dag, moves: seq<Move>)
    requires dag.Valid() && s.Consistent() && Orphans(s, dag) == {}
    requires forall m :: m in moves ==> m.status.Completes()
    requires forall n :: n in MovedNames(moves) ==> n in dag.order
    ensures Orphans(AfterMoves(s, moves), dag) == {}
  {
    MovesComplete(s, moves);
    assert forall n :: n in s.stepStates ==> n !in Orphans(s, dag);
  }

  /** Once stuck, the state is complete, provided it recorded no step outside the workflow. */
  lemma StuckScheduleIsComplete(s: Snapshot, dag: Dag, moves: seq<Move>)
    requires dag.Valid() && s.Consistent() && IsSchedule(s, dag, moves) && Orphans(s, dag) == {}
    requires AfterMoves(s, moves).NextReady(dag) == []
    ensures AfterMoves(s, moves).IsComplete()
  {
    ScheduleIsRun(s, dag, moves);
    RunRespectsDependencies(dag, s.completed, MovedNames(moves));
    MovesAddNoOrphans(s, dag, moves);
    MovesComplete(s, moves);
    StrandedByOrphans(AfterMoves(s, moves), dag);
  }

  /** A run resumed at the i-th step takes exactly the steps from there on. */
  lemma ResumedRunLength(s: Snapshot, dag: Dag, i: nat, moves: seq<Move>)
    requires dag.Valid() && s.Consistent() && i < |TopoOrder(dag)|
    requires IsSchedule(Rewound(s, TopoOrder(dag), TopoOrder(dag)[i]), dag, moves)
    ensures var r := Rewound(s, TopoOrder(dag), TopoOrder(dag)[i]);
            AfterMoves(r, moves).NextReady(dag) == [] <==> |moves| == |TopoOrder(dag)| - i
  {
    var order := TopoOrder(dag);
    TopoOrderSorts(dag);
    RewoundConsistent(s, order, order[i]);
    RewoundMissing(s, dag, i);
    DistinctCount(order[i..]);
    ScheduleFinishes(Rewound(s, order, order[i]), dag, moves);
  }

  // ----- Sorted name lists -----

  /** The order of string comparison: by code point, a proper prefix first. */
  predicate NameLess(a: Name, b: Name) {
    if b == [] then false
    else if a == [] then true
    else a[0] < b[0] || (a[0] == b[0] && NameLess(a[1..], b[1..]))
  }

  lemma {:induction false} NameLessTotal(a: Name, b: Name)
    ensures NameLess(a, b) || NameLess(b, a) || a == b
    ensures !(NameLess(a, b) && NameLess(b, a))
  {
    if a != [] && b != [] {
      NameLessTotal(a[1..], b[1..]);
      assert a == [a[0]] + a[1..] && b == [b[0]] + b[1..];
    }
  }

  lemma {:induction false} NameLessTransitive(a: Name, b: Name, c: Name)
    requires NameLess(a, b) && NameLess(b, c)
    ensures NameLess(a, c)
  {
    if a != [] && a[0] == b[0] == c[0] {
      NameLessTransitive(a[1..], b[1..], c[1..]);
    }
  }

  /** Strictly ascending, so without repeats. */
  ghost predicate SortedNames(s: seq<Name>) {
    forall i, j :: 0 <= i < j < |s| ==> NameLess(s[i], s[j])
  }

  /** One insertion step of the sort. */
  method InsertName(s: seq<Name>, n: Name) returns (r: seq<Name>)
    requires SortedNames(s) && n !in s
    ensures SortedNames(r)
    ensures forall m :: m in r <==> m in s || m == n
  {
    var i := 0;
    while i < |s| && NameLess(s[i], n)
      invariant 0 <= i <= |s|
      invariant forall j :: 0 <= j < i ==> NameLess(s[j], n)
    {
      i := i + 1;
    }
    if i < |s| {
      NameLessTotal(s[i], n);
      forall j | i <= j < |s| ensures NameLess(n, s[j]) {
        if j > i {
          NameLessTransitive(n, s[i], s[j]);
        }
      }
    }
    assert s == s[..i] + s[i..];
    InsertBetween(s[..i], n, s[i..]);
    r := s[..i] + [n] + s[i..];
  }

  lemma InsertBetween(a: seq<Name>, n: Name, b: seq<Name>)
    requires SortedNames(a + b)
    requires (forall j :: 0 <= j < |a| ==> NameLess(a[j], n)) && (forall j :: 0 <= j < |b| ==> NameLess(n, b[j]))
    ensures SortedNames(a + [n] + b)
  {
    var s, r := a + b, a + [n] + b;
    forall i, j | 0 <= i < j < |r| ensures NameLess(r[i], r[j]) {
      assert i < |a| < j ==> NameLess(s[i], s[j - 1]);
      assert j < |a| ==> NameLess(s[i], s[j]);
      assert i > |a| ==> NameLess(s[i - 1], s[j - 1]);
    }
  }

  /** Collects a set of names and sorts them. */
  method SortNames(names: set<Name>) returns (r: seq<Name>)
    ensures SortedNames(r) && Names(r) == names
  {
    r := [];
    var rest := names;
    while rest != {}
      invariant SortedNames(r) && Names(r) + rest == names && Names(r) !! rest
      decreases rest
    {
      var n :| n in rest;
      assert n !in Names(r);
      r := InsertName(r, n);
      rest := rest - {n};
    }
  }

  // ----- The mutable state -----

  lemma DroppedAre(s: Snapshot, dag: Dag, dropped: seq<Name>)
    requires Names(dropped) == Orphans(s, dag)
    ensures forall n :: n in dropped <==> n in s.stepStates && n !in dag.order
  {
    forall n ensures n in dropped <==> n in s.stepStates && n !in dag.order {
      assert n in dropped <==> n in Names(dropped);
    }
  }

  lemma WithoutBoth(s: Snapshot, gone: set<Name>, n: Name)
    ensures s.Without(gone).Without({n}) == s.Without(gone + {n})
  {
    assert s.stepStates - gone - {n} == s.stepStates - (gone + {n});
    assert s.completed - gone - {n} == s.completed - (gone + {n});
    assert s.attempts - gone - {n} == s.attempts - (gone + {n});
    assert s.containers - gone - {n} == s.containers - (gone + {n});
  }

  class WorkflowState {
    var stepStates: map<Name, StepState>
    var completedSteps: set<Name>
    var steps: seq<Step>
    var stepAttempts: map<Name, nat>
    var stepContainers: map<Name, string>

    function View(): Snapshot
      reads this
    {
      Snapshot(stepStates, completedSteps, steps, stepAttempts, stepContainers)
    }

    constructor (definition: seq<Step>)
      ensures View() == Fresh(definition)
      ensures View().Consistent()
      ensures forall n :: n in stepStates <==> n in StepNames(definition)
      ensures forall n :: n in stepStates ==> stepStates[n] == Pending
      ensures completedSteps == {} && steps == definition && stepAttempts == map[] && stepContainers == map[]
    {
      stepStates := map n | n in StepNames(definition) :: Pending;
      completedSteps := {};
      steps := definition;
      stepAttempts := map[];
      stepContainers := map[];
    }

    method SetStatus(stepName: Name, status: StepState)
      modifies this
      ensures View() == old(View()).WithStatus(stepName, status)
      ensures old(View().Consistent()) ==> View().Consistent()
      ensures stepStates == old(stepStates)[stepName := status]
      ensures stepName in completedSteps <==> status.Succeeded? || status.Skipped?
      ensures forall n :: n != stepName ==> (n in completedSteps <==> n in old(completedSteps))
      ensures steps == old(steps) && stepAttempts == old(stepAttempts) && stepContainers == old(stepContainers)
    {
      stepStates := stepStates[stepName := status];
      if status.Completes() {
        completedSteps := completedSteps + {stepName};
      } else {
        completedSteps := completedSteps - {stepName};
      }
    }

    method ResumeStopPoint(dag: Dag) returns (r: Option<nat>)
      ensures r == StopPoint(View(), TopoOrder(dag))
      ensures IsStopPoint(stepStates, TopoOrder(dag), r)
    {
      var order := TopologicalOrder(dag);
      r := StopPoint(View(), order);
      StopPointIs(View(), order);
    }

    method RewindTo(dag: Dag, start: Name)
      modifies this
      ensures View() == Rewound(old(View()), TopoOrder(dag), start)
      ensures dag.Valid() && start !in dag.order ==> View() == old(View())
      ensures forall i :: dag.Valid() && 0 <= i < |TopoOrder(dag)| && TopoOrder(dag)[i] == start ==>
                            IsRewound(old(stepStates), TopoOrder(dag), i, stepStates)
      ensures steps == old(steps) && stepAttempts == old(stepAttempts) && stepContainers == old(stepContainers)
    {
      RewindExactly(View(), dag, start);
      var order := TopologicalOrder(dag);
      var startIndex := Position(order, n => n == start);
      if startIndex.None? {
        return;
      }
      for i := 0 to |order|
        invariant View() == RewindPrefix(old(View()), order, startIndex.value, i)
      {
        if i >= startIndex.value {
          SetStatus(order[i], Pending);
        } else if !(order[i] in stepStates && stepStates[order[i]].Completes()) {
          SetStatus(order[i], Skipped);
        }
      }
    }

    method RetainStepsIn(dag: Dag) returns (dropped: seq<Name>)
      requires dag.Valid()
      modifies this
      ensures View() == Retained(old(View()), dag)
      ensures SortedNames(dropped) && Names(dropped) == Orphans(old(View()), dag)
      ensures forall n :: n in dropped <==> n in old(stepStates) && n !in dag.order
      ensures forall n :: n in stepStates <==> n in old(stepStates) && n !in dropped
      ensures forall n :: n in stepStates ==> stepStates[n] == old(stepStates)[n]
      ensures forall n :: n in completedSteps <==> n in old(completedSteps) && n !in dropped
      ensures forall n :: n in stepAttempts <==> n in old(stepAttempts) && n !in dropped
      ensures forall n :: n in stepAttempts ==> stepAttempts[n] == old(stepAttempts)[n]
      ensures forall n :: n in stepContainers <==> n in old(stepContainers) && n !in dropped
      ensures forall n :: n in stepContainers ==> stepContainers[n] == old(stepContainers)[n]
      ensures exists kept :: KeptAt(old(steps), steps, kept) && KeepsOthers(old(steps), Names(dropped), kept)
    {
      var known := TopologicalOrder(dag);
      TopoOrderSorts(dag);
      dropped := SortNames(set n | n in stepStates && n !in known);
      assert Names(dropped) == Orphans(old(View()), dag);
      for i := 0 to |dropped|
        invariant View() == old(View()).Without(Names(dropped[..i]))
      {
        assert Names(dropped[..i + 1]) == Names(dropped[..i]) + {dropped[i]};
        WithoutBoth(old(View()), Names(dropped[..i]), dropped[i]);
        stepStates := stepStates - {dropped[i]};
        completedSteps := completedSteps - {dropped[i]};
        stepAttempts := stepAttempts - {dropped[i]};
        stepContainers := stepContainers - {dropped[i]};
      }
      assert dropped[..|dropped|] == dropped;
      ghost var kept := KeepStepsInOrder(steps, Names(dropped));
      steps := KeepSteps(steps, set n | n in dropped);
      DroppedAre(old(View()), dag, dropped);
    }
  }
}
