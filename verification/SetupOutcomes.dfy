/**
 What a setup run ends with, stage by stage, in terms of the plan and of the
 answers of the outside alone: when it may announce a ready session, and what
 it announces when a call is the first to fail
 (src/command/session_setup.rs).
 */
module SetupOutcomes {
  import opened Sequences
  import opened SessionCreate
  import opened SessionSetup
  import opened Wrappers

  // ----- What the outside answers -----

  /** The token has not fired by check point `n`. */
  predicate Unfired(s: Script, n: nat) { s.fireAt.None? || n < s.fireAt.value }

  predicate BranchAnswers(plan: Plan, s: Script) {
    s.originProbeOk && s.branchGitOk && (s.existsOnOrigin ==> plan.baseRef.None?)
  }

  predicate MergeAnswers(plan: Plan, s: Script) {
    s.identityOk && forall i :: 0 <= i < |plan.mergeRefs| ==> s.mergeOk(i)
  }

  /** Every call of the remote-only stages succeeds. */
  predicate RemoteAnswers(plan: Plan, s: Script) {
    && s.cloneOk
    && (plan.branch.Some? ==> BranchAnswers(plan, s))
    && (plan.mergeRefs != [] ==> MergeAnswers(plan, s))
  }

  /** The number of the check point before the session is opened; two more follow. */
  function BeforeOpen(plan: Plan): nat {
    match plan.kind
    case Local => 1
    case Remote => if plan.branch.Some? then 3 else 2
  }

  predicate GoesOn(x: EngineStep) { x.EngineStep? && x.end == NextPhase }

  /** The engine goes through `k` steps and comes to its end in the next. */
  predicate StopsAt(steps: seq<EngineStep>, k: nat) {
    k < |steps| && !GoesOn(steps[k]) && forall i :: 0 <= i < k ==> GoesOn(steps[i])
  }

  /** The engine comes to a step that completes with a summary; `ready` says what it found. */
  ghost predicate Summarizes(steps: seq<EngineStep>, ready: bool) {
    exists k: nat :: StopsAt(steps, k) && steps[k].EngineStep? && steps[k].end == Completed(ready)
  }

  ghost predicate Errs(steps: seq<EngineStep>) {
    exists k: nat ::
      StopsAt(steps, k) && (steps[k].Interrupted? || steps[k].end == StepError || steps[k].end == CompletedError)
  }

  /** Nothing comes of the engine before the deadline. */
  ghost predicate Stalls(steps: seq<EngineStep>) {
    forall k: nat :: StopsAt(steps, k) ==> steps[k].EngineStep? && steps[k].end == Hangs
  }

  lemma StopsLater(steps: seq<EngineStep>, k: nat)
    requires steps != [] && GoesOn(steps[0])
    ensures StopsAt(steps, k + 1) <==> StopsAt(steps[1..], k)
  {
    if StopsAt(steps[1..], k) {
      forall i | 0 <= i < k + 1 ensures GoesOn(steps[i]) {
        assert i > 0 ==> steps[1..][i - 1] == steps[i];
      }
    } else if StopsAt(steps, k + 1) {
      forall i | 0 <= i < k ensures GoesOn(steps[1..][i]) {
        assert steps[1..][i] == steps[i + 1];
      }
    }
  }

  lemma {:induction false} ResultAt(steps: seq<EngineStep>, k: nat)
    requires StopsAt(steps, k)
    ensures ResultOf(steps) == ResultOf([steps[k]])
    decreases k
  {
    if k > 0 {
      assert GoesOn(steps[0]);
      StopsLater(steps, k - 1);
      ResultAt(steps[1..], k - 1);
    }
  }

  lemma {:induction false} ReachesEnd(steps: seq<EngineStep>) returns (k: nat)
    ensures k <= |steps| && (forall i :: 0 <= i < k ==> GoesOn(steps[i])) && (k < |steps| ==> StopsAt(steps, k))
    ensures k == |steps| ==> ResultOf(steps).Unfinished?
  {
    if steps == [] || !GoesOn(steps[0]) {
      k := 0;
    } else {
      k := ReachesEnd(steps[1..]);
      assert forall i :: 0 < i < k + 1 ==> steps[i] == steps[1..][i - 1];
      if k < |steps[1..]| {
        StopsLater(steps, k);
      }
      k := k + 1;
    }
  }

  lemma StopsOnce(steps: seq<EngineStep>, i: nat, k: nat)
    requires StopsAt(steps, i) && StopsAt(steps, k)
    ensures i == k
  {
  }

  /** What the engine returns, from its steps. */
  lemma EngineResults(steps: seq<EngineStep>)
    ensures forall ready :: ResultOf(steps) == SummaryReturned(ready) <==> Summarizes(steps, ready)
    ensures ResultOf(steps) == EngineError <==> Errs(steps)
    ensures ResultOf(steps) == Unfinished <==> Stalls(steps)
  {
    var k := ReachesEnd(steps);
    if k < |steps| {
      ResultAt(steps, k);
      forall i: nat | StopsAt(steps, i) ensures i == k {
        StopsOnce(steps, i, k);
      }
    } else {
      assert forall i: nat :: !StopsAt(steps, i);
    }
  }

  // ----- When a run announces a ready session -----

  /** Everything before the session is opened goes well. */
  predicate Prepared(plan: Plan, s: Script) {
    (plan.kind.Remote? ==> RemoteAnswers(plan, s)) && Unfired(s, BeforeOpen(plan))
  }

  predicate OpenAnswers(s: Script) { s.openOk && s.agentOk && s.runtimeOk && s.builtinOk }

  lemma PreparedReaches(plan: Plan, s: Script)
    requires plan.Valid()
    ensures Prepared(plan, s) <==> ReachesOpen(plan, s)
    ensures BeforeOpen(plan) == OpenCheck(plan)
  {
  }

  /** A run that ends in `e`, without what it depended on. */
  ghost predicate EndsIn(plan: Plan, trace: seq<Act>, work: seq<Act>, e: Ending) {
    trace == work + Closing(plan, e) && Working(work)
  }

  lemma RunEndsIn(plan: Plan, s: Script, trace: seq<Act>, work: seq<Act>, e: Ending)
    requires IsRun(plan, s, trace, work) && EndingOf(plan, s) == e
    ensures EndsIn(plan, trace, work, e)
  {
    NoClosingActs(work);
  }

  /** An act that only the closing of a run contains. */
  lemma ActOfClosing(plan: Plan, trace: seq<Act>, work: seq<Act>, e: Ending, a: Act)
    requires EndsIn(plan, trace, work, e) && !IsWorking(a)
    ensures a in trace <==> a in Closing(plan, e)
  {
    var c := Closing(plan, e);
    if a in trace {
      var i :| 0 <= i < |trace| && trace[i] == a;
      assert i >= |work| ==> c[i - |work|] == a;
    }
    if a in c {
      var i :| 0 <= i < |c| && c[i] == a;
      assert trace[|work| + i] == a;
    }
  }

  lemma ReadyClosing(plan: Plan, trace: seq<Act>, work: seq<Act>)
    requires EndsIn(plan, trace, work, EndReady)
    ensures EmitComplete in trace && Persist(Ready) in trace && Persist(Failed) !in trace
  {
    ActOfClosing(plan, trace, work, EndReady, EmitComplete);
    ActOfClosing(plan, trace, work, EndReady, Persist(Ready));
    ActOfClosing(plan, trace, work, EndReady, Persist(Failed));
  }

  /** The run announces a failure as `stage` and nothing else, records it, and deletes the clone if `deletes`. */
  ghost predicate FailsAs(trace: seq<Act>, stage: string, deletes: bool) {
    && EmitFailed(stage) in trace && (forall a :: a in trace && a.EmitFailed? ==> a.stage == stage)
    && EmitComplete !in trace && Persist(Failed) in trace && (DeleteClone in trace <==> deletes)
  }

  lemma FailedClosing(plan: Plan, trace: seq<Act>, work: seq<Act>, p: FailPoint)
    requires EndsIn(plan, trace, work, EndFailed(p))
    ensures FailsAs(trace, StageOf(p), plan.kind.Remote? && !IsEarly(p)) && Persist(Ready) !in trace
  {
    var e, stage := EndFailed(p), StageOf(p);
    ActOfClosing(plan, trace, work, e, EmitComplete);
    ActOfClosing(plan, trace, work, e, Persist(Ready));
    ActOfClosing(plan, trace, work, e, Persist(Failed));
    ActOfClosing(plan, trace, work, e, DeleteClone);
    ActOfClosing(plan, trace, work, e, EmitFailed(stage));
    forall a | a in trace && a.EmitFailed? ensures a.stage == stage {
      ActOfClosing(plan, trace, work, e, a);
    }
  }

  lemma ClosingIn(plan: Plan, s: Script, trace: seq<Act>, work: seq<Act>, e: Ending)
    requires IsRun(plan, s, trace, work) && EndingOf(plan, s) == e
    ensures (EmitComplete in trace <==> e.EndReady?) && (Persist(Ready) in trace <==> e.EndReady?)
    ensures Persist(Failed) in trace <==> !e.EndReady?
  {
    RunEndsIn(plan, s, trace, work, e);
    if e.EndReady? {
      ReadyClosing(plan, trace, work);
    } else {
      FailedClosing(plan, trace, work, e.point);
    }
  }

  /**
   A run announces a ready session exactly when every call it makes succeeds,
   the engine returns a ready summary and the token fires at no check point.
   */
  lemma ReadyExactly(plan: Plan, s: Script, trace: seq<Act>, work: seq<Act>)
    requires plan.Valid() && IsRun(plan, s, trace, work)
    ensures EmitComplete in trace <==>
            && (plan.kind.Remote? ==> RemoteAnswers(plan, s))
            && OpenAnswers(s) && Summarizes(s.engine, true) && Unfired(s, BeforeOpen(plan) + 2)
    ensures Persist(Ready) in trace <==> EmitComplete in trace
    ensures Persist(Failed) in trace <==> EmitComplete !in trace
  {
    ClosingIn(plan, s, trace, work, EndingOf(plan, s));
    PreparedReaches(plan, s);
    EngineResults(s.engine);
  }

  /** The engine gets to the end of its phases, and so to a summary, whatever it then returns. */
  ghost predicate GetsToSummary(steps: seq<EngineStep>) {
    exists k: nat ::
      StopsAt(steps, k) && steps[k].EngineStep? && (steps[k].end.Completed? || steps[k].end == CompletedError)
  }

  lemma {:induction false} SummaryReached(steps: seq<EngineStep>)
    ensures Completes(steps) <==> GetsToSummary(steps)
  {
    var k := ReachesEnd(steps);
    if k < |steps| {
      CompletesAt(steps, k);
      forall i: nat | StopsAt(steps, i) ensures i == k {
        StopsOnce(steps, i, k);
      }
    } else {
      NeverCompletes(steps);
      assert forall i: nat :: !StopsAt(steps, i);
    }
  }

  lemma {:induction false} CompletesAt(steps: seq<EngineStep>, k: nat)
    requires StopsAt(steps, k)
    ensures Completes(steps) <==> Completes([steps[k]])
    decreases k
  {
    if k > 0 {
      assert GoesOn(steps[0]);
      StopsLater(steps, k - 1);
      CompletesAt(steps[1..], k - 1);
    }
  }

  lemma {:induction false} NeverCompletes(steps: seq<EngineStep>)
    requires forall i :: 0 <= i < |steps| ==> GoesOn(steps[i])
    ensures !Completes(steps)
  {
    if steps != [] {
      assert GoesOn(steps[0]);
      NeverCompletes(steps[1..]);
    }
  }

  /** When a second terminal event goes out on the bus. */
  lemma SecondEvent(plan: Plan, s: Script, trace: seq<Act>, work: seq<Act>)
    requires plan.Valid() && IsRun(plan, s, trace, work)
    ensures |Summary(trace).bus| == 2 <==>
            Prepared(plan, s) && OpenAnswers(s) && Unfired(s, BeforeOpen(plan) + 1) && GetsToSummary(s.engine)
  {
    EventsOnBus(plan, s, trace, work);
    PreparedReaches(plan, s);
    SummaryReached(s.engine);
  }

  // ----- What a run announces when it fails -----

  lemma FailsAsEnding(plan: Plan, s: Script, trace: seq<Act>, work: seq<Act>, p: FailPoint)
    requires IsRun(plan, s, trace, work) && EndingOf(plan, s) == EndFailed(p)
    ensures FailsAs(trace, StageOf(p), plan.kind.Remote? && !IsEarly(p))
  {
    RunEndsIn(plan, s, trace, work, EndFailed(p));
    FailedClosing(plan, trace, work, p);
  }

  lemma RemoteEndings(plan: Plan, s: Script)
    requires plan.Valid() && plan.kind.Remote? && Unfired(s, 1)
    ensures !s.cloneOk ==> EndingOf(plan, s) == EndFailed(AtClone)
    ensures s.cloneOk && plan.branch.Some? && !BranchAnswers(plan, s) ==> EndingOf(plan, s) == EndFailed(AtBranch)
    ensures s.cloneOk && plan.branch.Some? && BranchAnswers(plan, s) && Unfired(s, 2) && plan.mergeRefs != [] ==>
              !MergeAnswers(plan, s) ==> EndingOf(plan, s) == EndFailed(AtMerge)
  {
  }

  /** The remote stages: the first call that fails is announced, and the clone deleted. */
  lemma RemoteFailures(plan: Plan, s: Script, trace: seq<Act>, work: seq<Act>)
    requires plan.Valid() && plan.kind.Remote? && IsRun(plan, s, trace, work) && Unfired(s, 1)
    ensures !s.cloneOk ==> FailsAs(trace, "clone", true)
    ensures s.cloneOk && plan.branch.Some? && !BranchAnswers(plan, s) ==> FailsAs(trace, "branch", true)
    ensures s.cloneOk && plan.branch.Some? && BranchAnswers(plan, s) && Unfired(s, 2) && plan.mergeRefs != [] ==>
              !MergeAnswers(plan, s) ==> FailsAs(trace, "merging_refs", true)
  {
    RemoteEndings(plan, s);
    var e := EndingOf(plan, s);
    if e.EndFailed? {
      FailsAsEnding(plan, s, trace, work, e.point);
    }
  }

  lemma OpenEndings(plan: Plan, s: Script)
    requires plan.Valid() && Prepared(plan, s)
    ensures !s.openOk ==> EndingOf(plan, s) == EndFailed(AtOpen)
    ensures s.openOk && !s.agentOk ==> EndingOf(plan, s) == EndFailed(AtAgent)
    ensures s.openOk && s.agentOk && !s.runtimeOk ==> EndingOf(plan, s) == EndFailed(AtRuntime)
    ensures s.openOk && s.agentOk && s.runtimeOk && !s.builtinOk ==> EndingOf(plan, s) == EndFailed(AtBuiltin)
  {
    PreparedReaches(plan, s);
  }

  /** From opening the session to having an engine. */
  lemma OpenFailures(plan: Plan, s: Script, trace: seq<Act>, work: seq<Act>)
    requires plan.Valid() && IsRun(plan, s, trace, work) && Prepared(plan, s)
    ensures !s.openOk ==> FailsAs(trace, "session_open", plan.kind.Remote?)
    ensures s.openOk && !s.agentOk ==> FailsAs(trace, "resolve_agent", false)
    ensures s.openOk && s.agentOk && !s.runtimeOk ==> FailsAs(trace, "ready", false)
    ensures s.openOk && s.agentOk && s.runtimeOk && !s.builtinOk ==> FailsAs(trace, "ready", false)
  {
    OpenEndings(plan, s);
    var e := EndingOf(plan, s);
    if e.EndFailed? {
      FailsAsEnding(plan, s, trace, work, e.point);
    }
  }

  lemma EngineEnding(plan: Plan, s: Script)
    requires plan.Valid() && Prepared(plan, s) && OpenAnswers(s) && Unfired(s, BeforeOpen(plan) + 2)
    ensures EndingOf(plan, s) == OutcomeOf(s)
  {
    PreparedReaches(plan, s);
  }

  lemma EngineFailsAs(plan: Plan, s: Script, trace: seq<Act>, work: seq<Act>, p: FailPoint)
    requires plan.Valid() && IsRun(plan, s, trace, work)
    requires Prepared(plan, s) && OpenAnswers(s) && Unfired(s, BeforeOpen(plan) + 2) && OutcomeOf(s) == EndFailed(p)
    ensures FailsAs(trace, StageOf(p), plan.kind.Remote? && !IsEarly(p))
  {
    EngineEnding(plan, s);
    FailsAsEnding(plan, s, trace, work, p);
  }

  lemma EngineOutcome(s: Script, p: FailPoint)
    requires match p
             case AtNotReady => Summarizes(s.engine, false)
             case AtReadyError => Errs(s.engine)
             case AtReadyTimeout => Stalls(s.engine)
             case _ => false
    ensures OutcomeOf(s) == EndFailed(p)
  {
    EngineResults(s.engine);
  }

  /** The engine fails or finds the session not ready, when the token never fires in time. */
  lemma EngineFailures(plan: Plan, s: Script, trace: seq<Act>, work: seq<Act>)
    requires plan.Valid() && IsRun(plan, s, trace, work)
    requires Prepared(plan, s) && OpenAnswers(s) && Unfired(s, BeforeOpen(plan) + 2)
    requires Summarizes(s.engine, false) || Errs(s.engine)
    ensures FailsAs(trace, "ready", plan.kind.Remote?)
  {
    var p := if Errs(s.engine) then AtReadyError else AtNotReady;
    EngineOutcome(s, p);
    EngineFailsAs(plan, s, trace, work, p);
  }

  /** Nothing comes of the engine before the deadline. */
  lemma EngineTimesOut(plan: Plan, s: Script, trace: seq<Act>, work: seq<Act>)
    requires plan.Valid() && IsRun(plan, s, trace, work)
    requires Prepared(plan, s) && OpenAnswers(s) && Unfired(s, BeforeOpen(plan) + 2) && Stalls(s.engine)
    ensures FailsAs(trace, "ready_timeout", plan.kind.Remote?)
  {
    EngineOutcome(s, AtReadyTimeout);
    EngineFailsAs(plan, s, trace, work, AtReadyTimeout);
  }

  /** The check point before which the token fires finds the run still going. */
  predicate CancelledAt(plan: Plan, s: Script, n: nat) {
    s.fireAt == Some(n) &&
    (|| n == 0
     || (n == 1 && plan.kind.Remote?)
     || (n == 2 && plan.kind.Remote? && plan.branch.Some? && s.cloneOk && BranchAnswers(plan, s))
     || (n == BeforeOpen(plan) && (plan.kind.Remote? ==> RemoteAnswers(plan, s)))
     || (BeforeOpen(plan) < n <= BeforeOpen(plan) + 2 && (plan.kind.Remote? ==> RemoteAnswers(plan, s))
         && OpenAnswers(s)))
  }

  /** A cancel is announced as such, and a clone deleted, wherever a check point finds it. */
  lemma Cancellation(plan: Plan, s: Script, trace: seq<Act>, work: seq<Act>, n: nat)
    requires plan.Valid() && IsRun(plan, s, trace, work) && CancelledAt(plan, s, n)
    ensures FailsAs(trace, "cancelled", plan.kind.Remote?)
  {
    FailsAsEnding(plan, s, trace, work, AtCancel);
  }

  // ----- The stages entered and the refs merged -----

  lemma EnteredExactly(plan: Plan, s: Script)
    requires plan.Valid()
    ensures CloningRepository in Entered(plan, s) <==> plan.kind.Remote? && Unfired(s, 0)
    ensures SettingUpBranch in Entered(plan, s) <==>
            plan.kind.Remote? && plan.branch.Some? && Unfired(s, 1) && s.cloneOk
    ensures MergingRefs in Entered(plan, s) <==>
            && plan.kind.Remote? && plan.branch.Some? && plan.mergeRefs != []
            && Unfired(s, 2) && s.cloneOk && BranchAnswers(plan, s)
    ensures RunningReady in Entered(plan, s) <==> Prepared(plan, s)
  {
    PreparedReaches(plan, s);
  }

  /** Which stages the session row goes through. */
  lemma StagesEntered(plan: Plan, s: Script, trace: seq<Act>, work: seq<Act>)
    requires plan.Valid() && IsRun(plan, s, trace, work)
    ensures var rows := Summary(trace).persisted;
            && (CloningRepository in rows <==> plan.kind.Remote? && Unfired(s, 0))
            && (SettingUpBranch in rows <==> plan.kind.Remote? && plan.branch.Some? && Unfired(s, 1) && s.cloneOk)
            && (MergingRefs in rows <==> && plan.kind.Remote? && plan.branch.Some? && plan.mergeRefs != []
                                         && Unfired(s, 2) && s.cloneOk && BranchAnswers(plan, s))
            && (RunningReady in rows <==> Prepared(plan, s))
  {
    RunSummary(plan, s, trace, work);
    EnteredExactly(plan, s);
  }

  /** The refs merged are those before the first that fails, if the run gets to merging at all. */
  lemma RefsMerged(plan: Plan, s: Script, trace: seq<Act>, work: seq<Act>) returns (m: nat)
    requires plan.Valid() && IsRun(plan, s, trace, work)
    ensures m <= |plan.mergeRefs| && Summary(trace).merged == plan.mergeRefs[..m]
    ensures MergingRefs in Summary(trace).persisted && s.identityOk ==>
              (forall i :: 0 <= i < m ==> s.mergeOk(i)) && (m < |plan.mergeRefs| ==> !s.mergeOk(m))
    ensures !(MergingRefs in Summary(trace).persisted && s.identityOk) ==> m == 0
  {
    RunSummary(plan, s, trace, work);
    StagesEntered(plan, s, trace, work);
    m := |Merged(plan, s)|;
  }
}
