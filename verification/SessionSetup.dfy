/**
 The staged setup of a session (src/command/session_setup.rs) over its shared
 state (src/data/session_setup_event.rs).

 `Script` holds the answer of every external call: git, the session manager,
 the steps of the ready engine and the moment the cancel token fires. The
 orchestrator records what it does in a ghost trace; events that only report
 progress are not recorded. Writes to the session row are taken to succeed.
 */
module SessionSetup {
  import opened Sequences
  import opened Wrappers
  import opened SessionCreate

  // ----- Setup state -----

  datatype SetupStatus =
    | Initializing | CloningRepository | SettingUpBranch | MergingRefs | RunningReady | Ready | Failed
  {
    predicate IsTerminal() { Ready? || Failed? }

    /** Position in the lifecycle. */
    function Rank(): nat {
      match this
      case Initializing => 0
      case CloningRepository => 1
      case SettingUpBranch => 2
      case MergingRefs => 3
      case RunningReady => 4
      case Ready => 5
      case Failed => 6
    }
  }

  datatype StepEntry = StepEntry(step: string, status: string)

  ghost predicate DistinctSteps(entries: seq<StepEntry>) {
    forall i, j :: 0 <= i < j < |entries| ==> entries[i].step != entries[j].step
  }

  predicate Listed(entries: seq<StepEntry>, step: string) {
    exists i :: 0 <= i < |entries| && entries[i].step == step
  }

  lemma FirstListed(entries: seq<StepEntry>, step: string, i: nat)
    requires i < |entries| && entries[i].step == step && !Listed(entries[..i], step)
    ensures Listed(entries, step)
    ensures forall j :: 0 <= j < |entries| ==> (entries[j].step == step && !Listed(entries[..j], step) <==> j == i)
  {
    forall j | 0 <= j < |entries| ensures entries[j].step == step && !Listed(entries[..j], step) <==> j == i {
      if j < i {
        assert entries[..i][j] == entries[j];
      } else if i < j {
        assert entries[..j][i].step == step;
      }
    }
  }

  class SetupState {
    var status: SetupStatus
    var error: Option<string>
    var readyPhase: Option<string>
    var readySteps: seq<StepEntry>

    constructor ()
      ensures status == Initializing && error == None && readyPhase == None && readySteps == []
    {
      status, error, readyPhase, readySteps := Initializing, None, None, [];
    }

    method EnterStatus(s: SetupStatus)
      modifies this`status
      ensures status == s
    {
      status := s;
    }

    method MarkFailed(stage: string)
      modifies this`status, this`error
      ensures status == Failed && error == Some(stage)
    {
      status, error := Failed, Some(stage);
    }

    method SetReady()
      modifies this`status
      ensures status == Ready
    {
      status := Ready;
    }

    method ApplyReadyPhase(phase: string)
      modifies this`status, this`readyPhase
      ensures status == RunningReady && readyPhase == Some(phase)
    {
      status, readyPhase := RunningReady, Some(phase);
    }

    /** Replaces the first entry of the step, or appends one: every other entry keeps its place. */
    method ApplyReadyStep(step: string, s: string)
      modifies this`readySteps
      ensures var was, listed := old(readySteps), Listed(old(readySteps), step);
              && |readySteps| == |was| + (if listed then 0 else 1)
              && (!listed ==> readySteps[|was|] == StepEntry(step, s))
              && (forall i :: 0 <= i < |was| ==>
                    readySteps[i] ==
                    if was[i].step == step && !Listed(was[..i], step) then StepEntry(step, s) else was[i])
      ensures old(DistinctSteps(readySteps)) ==> DistinctSteps(readySteps)
    {
      for i := 0 to |readySteps|
        invariant readySteps == old(readySteps) && !Listed(readySteps[..i], step)
      {
        if readySteps[i].step == step {
          FirstListed(readySteps, step, i);
          readySteps := readySteps[i := StepEntry(step, s)];
          return;
        }
        assert readySteps[..i + 1] == readySteps[..i] + [readySteps[i]];
      }
      assert readySteps[..|readySteps|] == readySteps;
      readySteps := readySteps + [StepEntry(step, s)];
    }
  }

  // ----- The ready engine -----

  datatype ReadyReport = PhaseReport(phase: string) | StepReport(step: string, status: string) | SummaryReport

  /** How a step of the engine ends. A summary is the last thing the two completing ends report. */
  datatype StepEnd = NextPhase | StepError | Hangs | Completed(ready: bool) | CompletedError

  /** One turn of the engine's loop; an interrupted turn fails before it reports its phase. */
  datatype EngineStep = Interrupted | EngineStep(phase: string, entries: seq<StepEntry>, end: StepEnd)

  datatype EngineResult = SummaryReturned(ready: bool) | EngineError | Unfinished

  function StepReports(entries: seq<StepEntry>): (r: seq<ReadyReport>)
    ensures |r| == |entries| && forall i :: 0 <= i < |r| ==> r[i] == StepReport(entries[i].step, entries[i].status)
  {
    seq(|entries|, i requires 0 <= i < |entries| => StepReport(entries[i].step, entries[i].status))
  }

  /**
   What the engine reports to its frontend. An engine whose future is dropped
   does not get to the end of its last step.
   */
  function EngineReports(steps: seq<EngineStep>, dropped: bool): seq<ReadyReport> {
    if steps == [] || steps[0].Interrupted? then []
    else
      [PhaseReport(steps[0].phase)] + StepReports(steps[0].entries) +
      match steps[0].end
      case NextPhase => EngineReports(steps[1..], dropped)
      case StepError | Hangs => []
      case Completed(_) | CompletedError => if dropped then [] else [SummaryReport]
  }

  /** What the engine returns if nobody drops it; it never returns when its steps run out. */
  function ResultOf(steps: seq<EngineStep>): EngineResult {
    if steps == [] then Unfinished
    else if steps[0].Interrupted? then EngineError
    else
      match steps[0].end
      case NextPhase => ResultOf(steps[1..])
      case StepError | CompletedError => EngineError
      case Hangs => Unfinished
      case Completed(ready) => SummaryReturned(ready)
  }

  /** The engine completes: its phases end at one that does. */
  predicate Completes(steps: seq<EngineStep>) {
    steps != [] && steps[0].EngineStep? &&
    match steps[0].end
    case NextPhase => Completes(steps[1..])
    case Completed(_) | CompletedError => true
    case _ => false
  }

  /**
   The engine reports a summary exactly when it completes undropped, and then
   as its last report. It returns a summary only after reporting it.
   */
  lemma {:induction false} SummaryComesLast(steps: seq<EngineStep>, dropped: bool)
    ensures var r := EngineReports(steps, dropped);
            && (SummaryReport in r <==> Completes(steps) && !dropped)
            && (forall i :: 0 <= i < |r| - 1 ==> !r[i].SummaryReport?)
    ensures ResultOf(steps).SummaryReturned? ==> Completes(steps)
    ensures ResultOf(steps).Unfinished? ==> !Completes(steps)
  {
    if steps != [] && steps[0].EngineStep? {
      var own := [PhaseReport(steps[0].phase)] + StepReports(steps[0].entries);
      assert SummaryReport !in own;
      if steps[0].end.NextPhase? {
        SummaryComesLast(steps[1..], dropped);
      }
    }
  }

  // ----- The outside -----

  /**
   `fireAt` is the number of the check point before which the token fires;
   a fired token stays fired.
   */
  datatype Script = Script(
    fireAt: Option<nat>,
    cloneOk: bool,
    originProbeOk: bool, existsOnOrigin: bool, branchGitOk: bool,
    identityOk: bool, mergeOk: nat -> bool,
    openOk: bool, agentOk: bool, runtimeOk: bool, builtinOk: bool,
    engine: seq<EngineStep>)

  predicate Cancelled(s: Script, check: nat) { s.fireAt.Some? && s.fireAt.value <= check }

  predicate BranchOk(plan: Plan, s: Script) {
    s.originProbeOk && !(s.existsOnOrigin && plan.baseRef.Some?) && s.branchGitOk
  }

  /** How many of the first `n` merges happen: they stop at the first that fails. */
  function MergeCount(s: Script, n: nat): (m: nat)
    ensures m <= n && (forall i :: 0 <= i < m ==> s.mergeOk(i)) && (m < n ==> !s.mergeOk(m))
  {
    if n == 0 then 0
    else
      var m := MergeCount(s, n - 1);
      if m == n - 1 && s.mergeOk(n - 1) then n else m
  }

  predicate MergesOk(plan: Plan, s: Script) {
    s.identityOk && forall i :: 0 <= i < |plan.mergeRefs| ==> s.mergeOk(i)
  }

  // ----- How a run ends -----

  datatype FailPoint =
    | AtClone | AtBranch | AtMerge | AtCancel | AtOpen | AtAgent | AtRuntime | AtBuiltin
    | AtNotReady | AtReadyError | AtReadyTimeout

  datatype Ending = EndReady | EndFailed(point: FailPoint)

  /** How the remote-only stages end a run, if they do. */
  function CloneFailure(plan: Plan, s: Script): Option<FailPoint> {
    if plan.kind.Local? then None
    else if Cancelled(s, 1) then Some(AtCancel)
    else if !s.cloneOk then Some(AtClone)
    else if plan.branch.None? then None
    else if !BranchOk(plan, s) then Some(AtBranch)
    else if Cancelled(s, 2) then Some(AtCancel)
    else if plan.mergeRefs != [] && !MergesOk(plan, s) then Some(AtMerge)
    else None
  }

  /** Number of the check point before the session is announced. */
  function OpenCheck(plan: Plan): nat {
    if plan.kind.Local? then 1 else if plan.branch.None? then 2 else 3
  }

  /** The run got as far as opening its session. */
  predicate ReachesOpen(plan: Plan, s: Script) {
    !Cancelled(s, 0) && CloneFailure(plan, s).None? && !Cancelled(s, OpenCheck(plan))
  }

  /** The run opened its session and failed before it had a ready engine: the three early returns. */
  predicate FailsEarly(plan: Plan, s: Script) {
    ReachesOpen(plan, s) && s.openOk && !(s.agentOk && s.runtimeOk && s.builtinOk)
  }

  /** The run got as far as the ready engine. */
  predicate ReachesReady(plan: Plan, s: Script) {
    ReachesOpen(plan, s) && s.openOk && s.agentOk && s.runtimeOk && s.builtinOk
  }

  /** The order in which causes are considered: the first that applies ends the run. */
  function EndingOf(plan: Plan, s: Script): Ending {
    if Cancelled(s, 0) then EndFailed(AtCancel)
    else if CloneFailure(plan, s).Some? then EndFailed(CloneFailure(plan, s).value)
    else if Cancelled(s, OpenCheck(plan)) then EndFailed(AtCancel)
    else if !s.openOk then EndFailed(AtOpen)
    else if !s.agentOk then EndFailed(AtAgent)
    else if !s.runtimeOk then EndFailed(AtRuntime)
    else if !s.builtinOk then EndFailed(AtBuiltin)
    else if Cancelled(s, OpenCheck(plan) + 2) then EndFailed(AtCancel)
    else OutcomeOf(s)
  }

  function OutcomeOf(s: Script): Ending {
    match ResultOf(s.engine)
    case SummaryReturned(ready) => if ready then EndReady else EndFailed(AtNotReady)
    case EngineError => EndFailed(AtReadyError)
    case Unfinished => EndFailed(AtReadyTimeout)
  }

  function StageOf(p: FailPoint): string {
    match p
    case AtClone => "clone"
    case AtBranch => "branch"
    case AtMerge => "merging_refs"
    case AtCancel => "cancelled"
    case AtOpen => "session_open"
    case AtAgent => "resolve_agent"
    case AtRuntime | AtBuiltin | AtNotReady | AtReadyError => "ready"
    case AtReadyTimeout => "ready_timeout"
  }

  function FinalStatus(e: Ending): SetupStatus { if e.EndReady? then Ready else Failed }

  // ----- What a run does on its way -----

  /** The statuses the remote-only stages enter. */
  function CloneStatuses(plan: Plan, s: Script): seq<SetupStatus> {
    if plan.kind.Local? then []
    else if Cancelled(s, 1) || !s.cloneOk || plan.branch.None? then [CloningRepository]
    else if !BranchOk(plan, s) || Cancelled(s, 2) || plan.mergeRefs == [] then [CloningRepository, SettingUpBranch]
    else [CloningRepository, SettingUpBranch, MergingRefs]
  }

  /** The statuses the orchestrator enters before the run ends. */
  function Entered(plan: Plan, s: Script): seq<SetupStatus> {
    if Cancelled(s, 0) then []
    else if ReachesOpen(plan, s) then CloneStatuses(plan, s) + [RunningReady]
    else CloneStatuses(plan, s)
  }

  /** The refs merged. */
  function Merged(plan: Plan, s: Script): seq<string> {
    if !Cancelled(s, 0) && MergingRefs in CloneStatuses(plan, s) && s.identityOk
    then plan.mergeRefs[..MergeCount(s, |plan.mergeRefs|)]
    else []
  }

  /** The reports the ready frontend makes in the run; a cancel seen by the select drops the engine. */
  function MadeReports(plan: Plan, s: Script): seq<ReadyReport> {
    if ReachesReady(plan, s) then EngineReports(s.engine, Cancelled(s, OpenCheck(plan) + 1)) else []
  }

  /** The ready frontend publishes a summary. */
  predicate SummaryReported(plan: Plan, s: Script) {
    ReachesReady(plan, s) && !Cancelled(s, OpenCheck(plan) + 1) && Completes(s.engine)
  }

  // ----- Traces -----

  datatype Act =
    | Memory(status: SetupStatus)            // in-memory status written by the orchestrator
    | Persist(status: SetupStatus)           // session row written
    | EmitComplete
    | EmitFailed(stage: string)
    | DeleteClone
    | SaveSnapshot(status: SetupStatus)
    | Finished
    | Check(fired: bool)
    | MergeRef(name: string, ok: bool)
    | Report(report: ReadyReport)            // the ready frontend reporting into the shared state

  /** Acts of a run that has not ended. */
  predicate IsWorking(a: Act) {
    match a
    case Memory(s) => !s.IsTerminal()
    case Persist(s) => !s.IsTerminal()
    case Check(_) => true
    case MergeRef(_, _) => true
    case Report(_) => true
    case _ => false
  }

  ghost predicate Working(trace: seq<Act>) { forall i :: 0 <= i < |trace| ==> IsWorking(trace[i]) }

  function Announce(f: SetupStatus, event: Act): seq<Act> { [Memory(f), event] }

  function Retire(f: SetupStatus): seq<Act> { [Persist(f), SaveSnapshot(f), Finished] }

  /** The three failures that leave a clone in place. */
  predicate IsEarly(p: FailPoint) { p.AtAgent? || p.AtRuntime? || p.AtBuiltin? }

  function ClosingEvent(e: Ending): Act { if e.EndReady? then EmitComplete else EmitFailed(StageOf(e.point)) }

  /** The closing acts of a run, in order. */
  function Closing(plan: Plan, e: Ending): seq<Act> {
    var deletes := plan.kind.Remote? && e.EndFailed? && !IsEarly(e.point);
    Announce(FinalStatus(e), ClosingEvent(e)) + (if deletes then [DeleteClone] else []) + Retire(FinalStatus(e))
  }

  /** What a trace amounts to, each part in order. */
  datatype Digest = Digest(
    persisted: seq<SetupStatus>,   // statuses written to the session row
    statuses: seq<SetupStatus>,    // statuses of the in-memory state, the ready frontend's included
    own: seq<Act>,                 // terminal events of the orchestrator
    bus: seq<Act>,                 // terminal events on the session's bus, the ready frontend's included
    merged: seq<string>,           // refs merged successfully
    closing: nat)                  // acts that only the closing of a run contains

  function Step(d: Digest, a: Act): Digest {
    match a
    case Memory(s) => d.(statuses := d.statuses + [s], closing := d.closing + if s.IsTerminal() then 1 else 0)
    case Persist(s) => d.(persisted := d.persisted + [s], closing := d.closing + if s.IsTerminal() then 1 else 0)
    case EmitComplete => d.(own := d.own + [a], bus := d.bus + [a], closing := d.closing + 1)
    case EmitFailed(_) => d.(own := d.own + [a], bus := d.bus + [a], closing := d.closing + 1)
    case Check(_) => d
    case MergeRef(name, ok) => if ok then d.(merged := d.merged + [name]) else d
    case Report(PhaseReport(_)) => d.(statuses := d.statuses + [RunningReady])
    case Report(StepReport(_, _)) => d
    case Report(SummaryReport) => d.(statuses := d.statuses + [Ready], bus := d.bus + [a])
    case _ => d.(closing := d.closing + 1)
  }

  function Summary(trace: seq<Act>): Digest {
    if trace == [] then Digest([], [], [], [], [], 0)
    else Step(Summary(trace[..|trace| - 1]), trace[|trace| - 1])
  }

  lemma SummarySnoc(trace: seq<Act>, a: Act)
    ensures Summary(trace + [a]) == Step(Summary(trace), a)
  {
    assert (trace + [a])[..|trace|] == trace;
  }

  lemma SummarySnocTwo(trace: seq<Act>, a: Act, b: Act)
    ensures Summary(trace + [a, b]) == Step(Step(Summary(trace), a), b)
  {
    assert trace + [a, b] == (trace + [a]) + [b];
    SummarySnoc(trace, a);
    SummarySnoc(trace + [a], b);
  }

  /** The statuses the ready frontend's reports put into the shared state. */
  function ReportedStatuses(reports: seq<ReadyReport>): seq<SetupStatus> {
    if reports == [] then []
    else
      var rest, x := ReportedStatuses(reports[..|reports| - 1]), reports[|reports| - 1];
      match x
      case PhaseReport(_) => rest + [RunningReady]
      case StepReport(_, _) => rest
      case SummaryReport => rest + [Ready]
  }

  /** The terminal events the ready frontend sends. */
  function ReportedEvents(reports: seq<ReadyReport>): seq<Act> {
    if reports == [] then []
    else
      ReportedEvents(reports[..|reports| - 1]) +
      if reports[|reports| - 1].SummaryReport? then [Report(SummaryReport)] else []
  }

  /** What the trace of a run that has not ended holds. */
  ghost predicate LiveTrace(trace: seq<Act>, entered: seq<SetupStatus>, merged: seq<string>, made: seq<ReadyReport>) {
    Summary(trace) == Digest(entered, entered + ReportedStatuses(made), [], ReportedEvents(made), merged, 0)
  }

  /** The shape of a run: working acts that hold exactly what the plan and the outside ask for, then one closing. */
  ghost predicate IsRun(plan: Plan, s: Script, trace: seq<Act>, work: seq<Act>) {
    && trace == work + Closing(plan, EndingOf(plan, s))
    && LiveTrace(work, Entered(plan, s), Merged(plan, s), MadeReports(plan, s))
  }

  lemma NoteDigest(d: Digest, a: Act)
    requires a.Check? || a.MergeRef?
    ensures Step(d, a) == d.(merged := if a.MergeRef? && a.ok then d.merged + [a.name] else d.merged)
  {
  }

  lemma NoteKeeps(trace: seq<Act>, entered: seq<SetupStatus>, merged: seq<string>, made: seq<ReadyReport>, a: Act)
    requires LiveTrace(trace, entered, merged, made)
    requires a.Check? || a.MergeRef?
    ensures LiveTrace(trace + [a], entered, if a.MergeRef? && a.ok then merged + [a.name] else merged, made)
  {
    SummarySnoc(trace, a);
    NoteDigest(Summary(trace), a);
  }

  lemma EnterKeeps(trace: seq<Act>, entered: seq<SetupStatus>, merged: seq<string>, s: SetupStatus)
    requires LiveTrace(trace, entered, merged, []) && !s.IsTerminal()
    ensures LiveTrace(trace + [Memory(s), Persist(s)], entered + [s], merged, [])
  {
    SummarySnocTwo(trace, Memory(s), Persist(s));
    assert entered + [] == entered && entered + [s] + [] == entered + [s];
  }

  lemma ReportKeeps(trace: seq<Act>, entered: seq<SetupStatus>, merged: seq<string>, reports: seq<ReadyReport>, i: nat)
    requires i < |reports| && LiveTrace(trace, entered, merged, reports[..i])
    ensures LiveTrace(trace + [Report(reports[i])], entered, merged, reports[..i + 1])
  {
    assert reports[..i + 1][..i] == reports[..i];
    SummarySnoc(trace, Report(reports[i]));
  }

  // ----- The orchestrator -----

  class SessionSetup {
    const plan: Plan
    const script: Script
    const state: SetupState
    var row: SetupStatus
    var checks: nat
    ghost var trace: seq<Act>
    ghost var work: seq<Act>

    constructor (plan: Plan, script: Script, state: SetupState)
      ensures this.plan == plan && this.script == script && this.state == state
      ensures row == Initializing && checks == 0 && trace == []
    {
      this.plan, this.script, this.state := plan, script, state;
      row, checks := Initializing, 0;
      trace, work := [], [];
    }

    /**
     The run has not ended: it has passed `n` check points, entered `entered`,
     merged `merged`, and the ready frontend has made the reports `made`.
     */
    ghost predicate Live(n: nat, entered: seq<SetupStatus>, merged: seq<string>, made: seq<ReadyReport>)
      reads this
    {
      checks == n && LiveTrace(trace, entered, merged, made) && (plan.kind.Remote? ==> plan.clonedPath.Some?)
    }

    /** The run has ended as `e`; `work` is what it did before. */
    ghost predicate Closed(e: Ending, entered: seq<SetupStatus>, merged: seq<string>, made: seq<ReadyReport>)
      reads this, state
    {
      && trace == work + Closing(plan, e) && LiveTrace(work, entered, merged, made)
      && state.status == row == FinalStatus(e)
    }

    ghost predicate Ended()
      reads this, state
    {
      Closed(EndingOf(plan, script), Entered(plan, script), Merged(plan, script), MadeReports(plan, script))
    }

    /** Records an act that carries no status or event. */
    ghost method Note(a: Act, n: nat, entered: seq<SetupStatus>, merged: seq<string>, made: seq<ReadyReport>)
      requires Live(n, entered, merged, made)
      requires a.Check? || a.MergeRef?
      modifies this`trace
      ensures Live(n, entered, if a.MergeRef? && a.ok then merged + [a.name] else merged, made)
    {
      NoteKeeps(trace, entered, merged, made, a);
      trace := trace + [a];
    }

    method EnterStatus(s: SetupStatus, ghost entered: seq<SetupStatus>, ghost merged: seq<string>)
      requires Live(checks, entered, merged, []) && !s.IsTerminal()
      modifies this`row, this`trace, state`status
      ensures state.status == row == s && Live(checks, entered + [s], merged, [])
    {
      state.EnterStatus(s);
      row := s;
      EnterKeeps(trace, entered, merged, s);
      trace := trace + [Memory(s), Persist(s)];
    }

    // ----- Closing a run -----

    method MarkFailed(stage: string)
      modifies this`trace, state`status, state`error
      ensures state.status == Failed && state.error == Some(stage)
      ensures trace == old(trace) + [Memory(Failed), EmitFailed(stage)]
    {
      state.MarkFailed(stage);
      trace := trace + [Memory(Failed), EmitFailed(stage)];
    }

    method PersistStatus(s: SetupStatus)
      modifies this`row, this`trace
      ensures row == s && trace == old(trace) + [Persist(s)]
    {
      row := s;
      trace := trace + [Persist(s)];
    }

    method Finish()
      modifies this`trace
      ensures trace == old(trace) + [SaveSnapshot(state.status), Finished]
    {
      trace := trace + [SaveSnapshot(state.status), Finished];
    }

    /** Nothing to delete where nothing was cloned. */
    method RequestCloneDeletion()
      modifies this`trace
      ensures trace == old(trace) + if plan.clonedPath.Some? then [DeleteClone] else []
    {
      if plan.clonedPath.Some? {
        trace := trace + [DeleteClone];
      }
    }

    /** fail_remote, fail_cancelled and the failures from session open on that clean up after themselves. */
    method FailAndClean(stage: string, ghost p: FailPoint)
      requires stage == StageOf(p) && !IsEarly(p) && (plan.kind.Remote? ==> plan.clonedPath.Some?)
      modifies this`row, this`trace, this`work, state`status, state`error
      ensures work == old(trace) && trace == work + Closing(plan, EndFailed(p))
      ensures state.status == row == Failed && state.error == Some(stage)
    {
      work := trace;
      MarkFailed(stage);
      if plan.kind.Remote? {
        RequestCloneDeletion();
      }
      PersistStatus(Failed);
      Finish();
    }

    /** The three early returns, which leave a clone in place. */
    method FailEarly(stage: string, ghost p: FailPoint)
      requires stage == StageOf(p) && IsEarly(p)
      modifies this`row, this`trace, this`work, state`status, state`error
      ensures work == old(trace) && trace == work + Closing(plan, EndFailed(p))
      ensures state.status == row == Failed && state.error == Some(stage)
    {
      work := trace;
      MarkFailed(stage);
      PersistStatus(Failed);
      Finish();
    }

    method CompleteReady()
      modifies this`row, this`trace, this`work, state`status
      ensures work == old(trace) && trace == work + Closing(plan, EndReady) && state.status == row == Ready
    {
      work := trace;
      state.SetReady();
      trace := trace + [Memory(Ready), EmitComplete];
      PersistStatus(Ready);
      Finish();
    }

    /** What becomes of the run once the engine is through and the token has not fired. */
    method Conclude()
      requires plan.kind.Remote? ==> plan.clonedPath.Some?
      modifies this`row, this`trace, this`work, state`status, state`error
      ensures work == old(trace) && trace == work + Closing(plan, OutcomeOf(script))
      ensures state.status == row == FinalStatus(OutcomeOf(script))
    {
      match ResultOf(script.engine) {
        case SummaryReturned(ready) =>
          if ready {
            CompleteReady();
          } else {
            FailAndClean("ready", AtNotReady);
          }
        case EngineError => FailAndClean("ready", AtReadyError);
        case Unfinished => FailAndClean("ready_timeout", AtReadyTimeout);
      }
    }

    // ----- The stages -----

    /** A check point. If the token has fired the run ends here, closed as cancelled; otherwise it goes on. */
    method CancelledHere(ghost entered: seq<SetupStatus>, ghost merged: seq<string>, ghost made: seq<ReadyReport>)
      returns (fired: bool)
      requires Live(checks, entered, merged, made)
      modifies this`row, this`checks, this`trace, this`work, state`status, state`error
      ensures fired == Cancelled(script, old(checks))
      ensures !fired ==> Live(old(checks) + 1, entered, merged, made)
      ensures fired ==> Closed(EndFailed(AtCancel), entered, merged, made)
    {
      fired := Cancelled(script, checks);
      Note(Check(fired), checks, entered, merged, made);
      checks := checks + 1;
      if fired {
        FailAndClean("cancelled", AtCancel);
      }
    }

    method MergeOne(i: nat, ghost n: nat, ghost entered: seq<SetupStatus>) returns (ok: bool)
      requires i < |plan.mergeRefs| && Live(n, entered, plan.mergeRefs[..i], [])
      modifies this`trace
      ensures ok == script.mergeOk(i)
      ensures Live(n, entered, plan.mergeRefs[..if ok then i + 1 else i], [])
    {
      ok := script.mergeOk(i);
      assert plan.mergeRefs[..i + 1] == plan.mergeRefs[..i] + [plan.mergeRefs[i]];
      Note(MergeRef(plan.mergeRefs[i], ok), n, entered, plan.mergeRefs[..i], []);
    }

    /** Merges each ref in order; the first failure stops the stage. */
    method MergeRefs(ghost n: nat, ghost entered: seq<SetupStatus>) returns (ok: bool)
      requires Live(n, entered, [], [])
      modifies this`trace
      ensures ok <==> MergesOk(plan, script)
      ensures var done := if script.identityOk then MergeCount(script, |plan.mergeRefs|) else 0;
              Live(n, entered, plan.mergeRefs[..done], [])
    {
      if !script.identityOk {
        return false;
      }
      for i := 0 to |plan.mergeRefs|
        invariant forall j :: 0 <= j < i ==> script.mergeOk(j)
        invariant Live(n, entered, plan.mergeRefs[..i], [])
      {
        ok := MergeOne(i, n, entered);
        if !ok {
          assert i == MergeCount(script, |plan.mergeRefs|);
          return;
        }
      }
      assert |plan.mergeRefs| == MergeCount(script, |plan.mergeRefs|);
      ok := true;
    }

    /** Branch and merge stages of a clone whose plan names a branch. `false` means the run has ended. */
    method PrepareBranch() returns (ok: bool)
      requires plan.kind.Remote? && plan.branch.Some? && Live(2, [CloningRepository], [], [])
      requires !Cancelled(script, 1) && script.cloneOk
      modifies this`row, this`checks, this`trace, this`work, state`status, state`error
      ensures ok <==> CloneFailure(plan, script).None?
      ensures ok ==> Live(3, CloneStatuses(plan, script), Merged(plan, script), [])
      ensures !ok ==>
                var e := EndFailed(CloneFailure(plan, script).value);
                Closed(e, CloneStatuses(plan, script), Merged(plan, script), [])
    {
      EnterStatus(SettingUpBranch, [CloningRepository], []);
      ghost var entered := [CloningRepository, SettingUpBranch];
      assert [CloningRepository] + [SettingUpBranch] == entered;
      if !BranchOk(plan, script) {
        FailAndClean("branch", AtBranch);
        return false;
      }
      var fired := CancelledHere(entered, [], []);
      if fired {
        return false;
      }
      if plan.mergeRefs == [] {
        return true;
      }
      EnterStatus(MergingRefs, entered, []);
      assert entered + [MergingRefs] == CloneStatuses(plan, script);
      ok := MergeRefs(3, CloneStatuses(plan, script));
      if !ok {
        FailAndClean("merging_refs", AtMerge);
      }
    }

    /** The remote-only stages. `false` means the run has ended. */
    method PrepareClone() returns (ok: bool)
      requires plan.kind.Remote? && plan.Valid() && Live(1, [], [], []) && !Cancelled(script, 0)
      modifies this`row, this`checks, this`trace, this`work, state`status, state`error
      ensures ok <==> CloneFailure(plan, script).None?
      ensures ok ==> Live(OpenCheck(plan), CloneStatuses(plan, script), Merged(plan, script), [])
      ensures !ok ==>
                var e := EndFailed(CloneFailure(plan, script).value);
                Closed(e, CloneStatuses(plan, script), Merged(plan, script), [])
    {
      EnterStatus(CloningRepository, [], []);
      assert [] + [CloningRepository] == [CloningRepository];
      var fired := CancelledHere([CloningRepository], [], []);
      if fired {
        return false;
      }
      if !script.cloneOk {
        FailAndClean("clone", AtClone);
        return false;
      }
      if plan.branch.None? {
        return true;
      }
      ok := PrepareBranch();
    }

    /** The ready frontend reporting into the shared state. */
    method TakeReport(reports: seq<ReadyReport>, i: nat, ghost entered: seq<SetupStatus>, ghost merged: seq<string>)
      requires i < |reports| && LiveTrace(trace, entered, merged, reports[..i])
      modifies this`trace, state
      ensures LiveTrace(trace, entered, merged, reports[..i + 1])
    {
      match reports[i] {
        case PhaseReport(phase) => state.ApplyReadyPhase(phase);
        case StepReport(step, status) => state.ApplyReadyStep(step, status);
        case SummaryReport => state.SetReady();
      }
      ReportKeeps(trace, entered, merged, reports, i);
      trace := trace + [Report(reports[i])];
    }

    /** The ready engine running, its frontend reporting as it goes. */
    method RunReadyEngine(dropped: bool, ghost entered: seq<SetupStatus>, ghost merged: seq<string>)
      requires LiveTrace(trace, entered, merged, [])
      modifies this`trace, state
      ensures LiveTrace(trace, entered, merged, EngineReports(script.engine, dropped))
    {
      var reports := EngineReports(script.engine, dropped);
      for i := 0 to |reports|
        invariant LiveTrace(trace, entered, merged, reports[..i])
      {
        TakeReport(reports, i, entered, merged);
      }
      assert reports[..|reports|] == reports;
    }

    /** The ready stage: the engine, the two last check points, and the outcome. */
    method RunReady(ghost entered: seq<SetupStatus>, ghost merged: seq<string>)
      requires Live(OpenCheck(plan) + 1, entered, merged, [])
      modifies this`row, this`checks, this`trace, this`work, state
      ensures Closed(if Cancelled(script, OpenCheck(plan) + 2) then EndFailed(AtCancel) else OutcomeOf(script),
                     entered, merged, EngineReports(script.engine, Cancelled(script, OpenCheck(plan) + 1)))
    {
      RunReadyEngine(Cancelled(script, checks), entered, merged);
      ghost var made := EngineReports(script.engine, Cancelled(script, checks));
      // The select: a cancel that is ready wins over a finished ready run.
      var fired := CancelledHere(entered, merged, made);
      if fired {
        return;
      }
      fired := CancelledHere(entered, merged, made);
      if fired {
        return;
      }
      Conclude();
    }

    /** From session open to the end of the run. */
    method OpenAndRunReady()
      requires Live(OpenCheck(plan) + 1, CloneStatuses(plan, script), Merged(plan, script), [])
      requires ReachesOpen(plan, script)
      modifies this`row, this`checks, this`trace, this`work, state
      ensures Ended()
    {
      ghost var merged := Merged(plan, script);
      EnterStatus(RunningReady, CloneStatuses(plan, script), merged);
      if !script.openOk {
        FailAndClean("session_open", AtOpen);
        return;
      }
      if !script.agentOk {
        FailEarly("resolve_agent", AtAgent);
        return;
      }
      if !script.runtimeOk {
        FailEarly("ready", AtRuntime);
        return;
      }
      if !script.builtinOk {
        FailEarly("ready", AtBuiltin);
        return;
      }
      RunReady(Entered(plan, script), merged);
    }

    /** The whole run, for every plan validation accepts and every behaviour of the outside. */
    method Run()
      requires plan.Valid()
      requires trace == [] && checks == 0 && row == Initializing && state.status == Initializing
      modifies this`row, this`checks, this`trace, this`work, state
      ensures IsRun(plan, script, trace, work)
      ensures state.status == row == FinalStatus(EndingOf(plan, script))
    {
      assert [] + ReportedStatuses([]) == [];
      var fired := CancelledHere([], [], []);
      if fired {
        return;
      }
      if plan.kind.Remote? {
        var ok := PrepareClone();
        if !ok {
          return;
        }
      }
      fired := CancelledHere(CloneStatuses(plan, script), Merged(plan, script), []);
      if fired {
        return;
      }
      OpenAndRunReady();
    }
  }

  // ----- What every run satisfies -----

  lemma {:induction false} NoClosingActs(trace: seq<Act>)
    requires Summary(trace).closing == 0
    ensures Working(trace)
  {
    if trace != [] {
      NoClosingActs(trace[..|trace| - 1]);
      assert forall i :: 0 <= i < |trace| - 1 ==> trace[i] == trace[..|trace| - 1][i];
    }
  }

  /** The closing acts one by one. */
  lemma ClosingActs(plan: Plan, s: Script)
    ensures var e := EndingOf(plan, s);
            var c, n := Closing(plan, e), |Closing(plan, e)|;
            && n >= 5 && c[0] == Memory(FinalStatus(e)) && c[1] == ClosingEvent(e)
            && (if plan.kind.Remote? && e.EndFailed? && !FailsEarly(plan, s) then n == 6 && c[2] == DeleteClone
                else n == 5)
            && c[n - 3] == Persist(FinalStatus(e)) && c[n - 2] == SaveSnapshot(FinalStatus(e)) && c[n - 1] == Finished
  {
  }

  /** A run saves the snapshot as its last act but one, then tells the frontend, once and last. */
  lemma RunFinishesLast(plan: Plan, s: Script, trace: seq<Act>, work: seq<Act>)
    requires IsRun(plan, s, trace, work)
    ensures |trace| > 1 && trace[|trace| - 1] == Finished
    ensures trace[|trace| - 2] == SaveSnapshot(FinalStatus(EndingOf(plan, s)))
    ensures forall i :: 0 <= i < |trace| - 1 ==> trace[i] != Finished && (i < |trace| - 2 ==> !trace[i].SaveSnapshot?)
  {
    NoClosingActs(work);
    var c := Closing(plan, EndingOf(plan, s));
    ClosingActs(plan, s);
    forall i | 0 <= i < |trace| - 1
      ensures trace[i] != Finished && (i < |trace| - 2 ==> !trace[i].SaveSnapshot?)
    {
      if i < |work| {
        assert trace[i] == work[i] && IsWorking(work[i]);
      } else {
        assert trace[i] == c[i - |work|];
      }
    }
  }

  /**
   A run requests deletion of its clone exactly when it is remote, fails, and
   did not fail between opening the session and having a ready engine; and then
   before `failed` is persisted.
   */
  lemma CloneDeletion(plan: Plan, s: Script, trace: seq<Act>, work: seq<Act>)
    requires IsRun(plan, s, trace, work)
    ensures DeleteClone in trace <==> plan.kind.Remote? && EndingOf(plan, s).EndFailed? && !FailsEarly(plan, s)
    ensures forall i, j :: 0 <= i < |trace| && 0 <= j < |trace| ==>
                             (trace[i] == DeleteClone && trace[j] == Persist(Failed) ==> i < j)
  {
    NoClosingActs(work);
    var c, n := Closing(plan, EndingOf(plan, s)), |work|;
    ClosingActs(plan, s);
    forall i | 0 <= i < |trace|
      ensures trace[i] == DeleteClone ==> i == n + 2 && |c| == 6
      ensures trace[i] == Persist(Failed) ==> i == n + |c| - 3
    {
      if i < n {
        assert trace[i] == work[i] && IsWorking(work[i]);
      } else {
        assert trace[i] == c[i - n];
      }
    }
    assert |c| == 6 ==> trace[n + 2] == c[2];
  }

  /**
   The clean-up is promised for every failure. A remote run that opened its
   session and then finds no agent, no container runtime or invalid builtin
   inputs announces a failure and keeps its clone.
   */
  lemma EarlyFailureKeepsClone(plan: Plan, s: Script, trace: seq<Act>, work: seq<Act>)
    requires plan.kind.Remote? && IsRun(plan, s, trace, work) && FailsEarly(plan, s)
    ensures EmitFailed(if s.agentOk then "ready" else "resolve_agent") in trace
    ensures Persist(Failed) in trace && DeleteClone !in trace
  {
    CloneDeletion(plan, s, trace, work);
    ClosingActs(plan, s);
    var c := Closing(plan, EndingOf(plan, s));
    assert trace[|work| + 1] == c[1] && trace[|work| + |c| - 3] == c[|c| - 3];
  }

  lemma AnnounceSummary(work: seq<Act>, f: SetupStatus, event: Act)
    requires f.IsTerminal() && (event.EmitComplete? || event.EmitFailed?)
    ensures var d := Summary(work);
            Summary(work + Announce(f, event)) ==
            Digest(d.persisted, d.statuses + [f], d.own + [event], d.bus + [event], d.merged, d.closing + 2)
  {
    SummarySnocTwo(work, Memory(f), event);
  }

  lemma RetireSummary(work: seq<Act>, f: SetupStatus)
    requires f.IsTerminal()
    ensures var d := Summary(work);
            Summary(work + Retire(f)) == d.(persisted := d.persisted + [f], closing := d.closing + 3)
  {
    SummarySnocTwo(work, Persist(f), SaveSnapshot(f));
    SummarySnoc(work + [Persist(f), SaveSnapshot(f)], Finished);
    assert work + Retire(f) == work + [Persist(f), SaveSnapshot(f)] + [Finished];
  }

  /** What the closing adds to a trace; whether a clone is deleted shows only in the number of closing acts. */
  lemma ClosingSummary(work: seq<Act>, plan: Plan, e: Ending)
    ensures var d, all := Summary(work), Summary(work + Closing(plan, e));
            all == Digest(d.persisted + [FinalStatus(e)], d.statuses + [FinalStatus(e)], d.own + [ClosingEvent(e)],
                          d.bus + [ClosingEvent(e)], d.merged, all.closing)
  {
    var f, announced := FinalStatus(e), work + Announce(FinalStatus(e), ClosingEvent(e));
    AnnounceSummary(work, f, ClosingEvent(e));
    if plan.kind.Remote? && e.EndFailed? && !IsEarly(e.point) {
      SummarySnoc(announced, DeleteClone);
      RetireSummary(announced + [DeleteClone], f);
      Assoc(work, Announce(f, ClosingEvent(e)) + [DeleteClone], Retire(f));
      Assoc(work, Announce(f, ClosingEvent(e)), [DeleteClone]);
    } else {
      RetireSummary(announced, f);
      assert Announce(f, ClosingEvent(e)) + [] == Announce(f, ClosingEvent(e));
      Assoc(work, Announce(f, ClosingEvent(e)), Retire(f));
    }
  }

  /** The parts of a whole run. The orchestrator announces its end exactly once. */
  lemma RunSummary(plan: Plan, s: Script, trace: seq<Act>, work: seq<Act>)
    requires IsRun(plan, s, trace, work)
    ensures var e, made := EndingOf(plan, s), MadeReports(plan, s);
            && Summary(trace).own == [ClosingEvent(e)]
            && Summary(trace).persisted == Entered(plan, s) + [FinalStatus(e)]
            && Summary(trace).statuses == Entered(plan, s) + ReportedStatuses(made) + [FinalStatus(e)]
            && Summary(trace).bus == ReportedEvents(made) + [ClosingEvent(e)]
            && Summary(trace).merged == Merged(plan, s)
  {
    ClosingSummary(work, plan, EndingOf(plan, s));
  }

  ghost predicate Ascending(st: seq<SetupStatus>) {
    forall i, j :: 0 <= i < j < |st| ==> st[i].Rank() < st[j].Rank()
  }

  lemma EnteredAscends(plan: Plan, s: Script)
    ensures var st := Entered(plan, s);
            Ascending(st) && forall i :: 0 <= i < |st| ==> 0 < st[i].Rank() <= 4
  {
  }

  lemma AscendsOn(st: seq<SetupStatus>, f: SetupStatus)
    requires Ascending(st) && f.IsTerminal() && forall i :: 0 <= i < |st| ==> st[i].Rank() <= 4
    ensures Ascending(st + [f]) && (st + [f])[|st|] == f
  {
  }

  /** The session row only ever moves forward, and ends in the status of the run. */
  lemma RowMovesForward(plan: Plan, s: Script, trace: seq<Act>, work: seq<Act>)
    requires IsRun(plan, s, trace, work)
    ensures var rows := Summary(trace).persisted;
            rows != [] && rows[|rows| - 1] == FinalStatus(EndingOf(plan, s)) && Ascending(rows)
  {
    RunSummary(plan, s, trace, work);
    EnteredAscends(plan, s);
    AscendsOn(Entered(plan, s), FinalStatus(EndingOf(plan, s)));
  }

  // ----- What the ready frontend adds -----

  lemma {:induction false} WithoutSummary(reports: seq<ReadyReport>)
    requires SummaryReport !in reports
    ensures ReportedEvents(reports) == []
    ensures forall i :: 0 <= i < |ReportedStatuses(reports)| ==> ReportedStatuses(reports)[i] == RunningReady
  {
    if reports != [] {
      assert forall r :: r in reports[..|reports| - 1] ==> r in reports;
      WithoutSummary(reports[..|reports| - 1]);
    }
  }

  /** The statuses and events the ready frontend adds to a run: phases, and at most one summary behind them. */
  lemma ReportedParts(plan: Plan, s: Script) returns (phases: seq<SetupStatus>)
    ensures forall i :: 0 <= i < |phases| ==> phases[i] == RunningReady
    ensures ReportedStatuses(MadeReports(plan, s)) == phases + if SummaryReported(plan, s) then [Ready] else []
    ensures ReportedEvents(MadeReports(plan, s)) == if SummaryReported(plan, s) then [Report(SummaryReport)] else []
  {
    var made := MadeReports(plan, s);
    SummaryComesLast(s.engine, Cancelled(s, OpenCheck(plan) + 1));
    if SummaryReported(plan, s) {
      var rest := made[..|made| - 1];
      WithoutSummary(rest);
      phases := ReportedStatuses(rest);
    } else {
      WithoutSummary(made);
      phases := ReportedStatuses(made);
      assert phases + [] == phases;
    }
  }

  ghost predicate NeverBackwards(st: seq<SetupStatus>) {
    forall i, j :: 0 <= i < j < |st| ==> st[i].Rank() <= st[j].Rank()
  }

  /** Some status that ends a setup is followed by another. */
  ghost predicate LeavesTerminal(st: seq<SetupStatus>) {
    exists i, j :: 0 <= i < j < |st| && st[i].IsTerminal() && st[j] != st[i]
  }

  /** A run's statuses: stages entered, phases reported, perhaps a summary, the final status. */
  lemma StatusShape(entered: seq<SetupStatus>, phases: seq<SetupStatus>, summary: bool, f: SetupStatus)
    requires Ascending(entered) && forall i :: 0 <= i < |entered| ==> entered[i].Rank() <= 4
    requires (forall i :: 0 <= i < |phases| ==> phases[i] == RunningReady) && f.IsTerminal()
    ensures var st := entered + (phases + if summary then [Ready] else []) + [f];
            NeverBackwards(st) && (LeavesTerminal(st) <==> summary && f == Failed)
  {
    var st := entered + (phases + if summary then [Ready] else []) + [f];
    var n := |entered| + |phases|;
    assert summary ==> st[n] == Ready && st[n + 1] == f;
    assert forall i :: 0 <= i < n ==> st[i].Rank() <= 4 && !st[i].IsTerminal();
  }

  /** The in-memory status never moves to an earlier stage. */
  lemma StatusMovesForward(plan: Plan, s: Script, trace: seq<Act>, work: seq<Act>)
    requires IsRun(plan, s, trace, work)
    ensures NeverBackwards(Summary(trace).statuses)
  {
    RunSummary(plan, s, trace, work);
    EnteredAscends(plan, s);
    var phases := ReportedParts(plan, s);
    StatusShape(Entered(plan, s), phases, SummaryReported(plan, s), FinalStatus(EndingOf(plan, s)));
  }

  /**
   The in-memory status reads as terminal and is then changed exactly when the
   engine published its summary and the run fails all the same.
   */
  lemma TerminalStatusLeft(plan: Plan, s: Script, trace: seq<Act>, work: seq<Act>)
    requires IsRun(plan, s, trace, work)
    ensures LeavesTerminal(Summary(trace).statuses) <==> SummaryReported(plan, s) && EndingOf(plan, s).EndFailed?
  {
    RunSummary(plan, s, trace, work);
    EnteredAscends(plan, s);
    var phases := ReportedParts(plan, s);
    StatusShape(Entered(plan, s), phases, SummaryReported(plan, s), FinalStatus(EndingOf(plan, s)));
  }

  /** Which endings tell whether a summary was reported. */
  lemma EndingsWithSummary(plan: Plan, s: Script)
    ensures var e := EndingOf(plan, s);
            && (e.EndReady? || e.point.AtNotReady? ==> SummaryReported(plan, s))
            && (e.EndFailed? && e.point.AtReadyTimeout? ==> !SummaryReported(plan, s))
  {
    SummaryComesLast(s.engine, false);
  }

  /**
   The orchestrator announces its end once, but the ready frontend sends the
   summary on the same bus: a second terminal event is sent exactly when the
   engine completed before the token was seen, and so on every run that ends
   ready or not ready.
   */
  lemma EventsOnBus(plan: Plan, s: Script, trace: seq<Act>, work: seq<Act>)
    requires IsRun(plan, s, trace, work)
    ensures var e := EndingOf(plan, s);
            && Summary(trace).bus ==
               (if SummaryReported(plan, s) then [Report(SummaryReport)] else []) + [ClosingEvent(e)]
            && (e.EndReady? || e.point.AtNotReady? ==> |Summary(trace).bus| == 2)
            && (e.EndFailed? && e.point.AtReadyTimeout? ==> |Summary(trace).bus| == 1)
            && (!ReachesReady(plan, s) ==> |Summary(trace).bus| == 1)
  {
    assert Summary(trace).bus ==
           (if SummaryReported(plan, s) then [Report(SummaryReport)] else []) + [ClosingEvent(EndingOf(plan, s))] by {
      RunSummary(plan, s, trace, work);
      var _ := ReportedParts(plan, s);
    }
    EndingsWithSummary(plan, s);
  }

  /** A local session whose engine completes in one step with an image that did not build. */
  const UNBUILT := Script(None, true, true, false, true, true, i => true, true, true, true, true,
                          [EngineStep("preflight", [], Completed(false))])

  /** On that run's bus setup completes and then fails, and its status reads ready and then failed. */
  lemma CompleteThenFailed(plan: Plan, trace: seq<Act>, work: seq<Act>)
    requires plan.kind.Local? && IsRun(plan, UNBUILT, trace, work)
    ensures Summary(trace).bus == [Report(SummaryReport), EmitFailed("ready")]
    ensures Summary(trace).statuses == [RunningReady, RunningReady, Ready, Failed]
  {
    RunSummary(plan, UNBUILT, trace, work);
    var made := [PhaseReport("preflight"), SummaryReport];
    assert MadeReports(plan, UNBUILT) == made;
    assert made[..1] == [PhaseReport("preflight")] && made[..1][..0] == [];
    assert ReportedStatuses(made[..1]) == [RunningReady] && ReportedEvents(made[..1]) == [];
  }

  /** A run that opens its session has merged everything. */
  lemma AllMerged(plan: Plan, s: Script)
    requires plan.Valid() && ReachesOpen(plan, s)
    ensures Merged(plan, s) == plan.mergeRefs
  {
    assert plan.mergeRefs[..|plan.mergeRefs|] == plan.mergeRefs;
  }

  /**
   A run that ends ready merged exactly the refs of its plan in order, never
   deleted its clone, and its token had not fired by the last check point.
   */
  lemma ReadyRun(plan: Plan, s: Script, trace: seq<Act>, work: seq<Act>)
    requires plan.Valid() && IsRun(plan, s, trace, work) && EndingOf(plan, s).EndReady?
    ensures Summary(trace).merged == plan.mergeRefs
    ensures DeleteClone !in trace
    ensures s.fireAt.None? || s.fireAt.value > OpenCheck(plan) + 2
  {
    assert Summary(trace).merged == plan.mergeRefs by {
      RunSummary(plan, s, trace, work);
      AllMerged(plan, s);
    }
    CloneDeletion(plan, s, trace, work);
  }
}
