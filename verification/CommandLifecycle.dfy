/**
 The command-lifecycle tables of the API database
 (src/data/api_lifecycle_store.rs, src/data/command_status.rs), and the write
 that completes the result of a finished row nobody owns
 (`finalize_unowned_command` in src/command/commands/api_server/queue_worker.rs).

 Every store method is one guarded statement under the connection lock, so a
 concurrent history is a sequence of atomic steps. Steps of workers, enqueuing,
 requeuing and closing a session belong to the environment, which leaves
 terminal rows alone.
 */
module CommandLifecycle {
  import opened Wrappers

  type Id = string
  type Time = string

  const CANCELLED_EXIT_CODE := 130

  datatype CommandStatus = Queued | Pending | Running | Done | Error | Cancelled {
    predicate IsTerminal() { Done? || Error? || Cancelled? }

    predicate IsClaimable() { Queued? || Pending? }
  }

  /** How a command ended, in the terms of its result. */
  datatype Outcome = OutcomeDone | OutcomePaused | OutcomeAborted | OutcomeError | OutcomeCancelled

  /** The fields of a stored result that a later completion reads or fills in; `rest` stands for all others. */
  datatype CommandResult = CommandResult(
    exitCode: Option<int>,
    outcome: Option<Outcome>,
    failureCode: Option<string>,
    outputs: Option<string>,
    setupFailed: bool,
    cancelledAt: Option<Time>,
    rest: string)

  const NO_RESULT := CommandResult(None, None, None, None, false, None, "")

  /** The text of the `result` column, as it reads. */
  datatype Stored = Readable(result: CommandResult) | Unreadable(text: string)

  datatype Row = Row(
    status: CommandStatus,
    exitCode: Option<int>,
    finishedAt: Option<Time>,
    result: Option<Stored>)

  function CancelledRow(finishedAt: Time, cancelledAt: Option<Time>): Row {
    var result := NO_RESULT.(exitCode := Some(CANCELLED_EXIT_CODE), cancelledAt := cancelledAt);
    Row(Cancelled, Some(CANCELLED_EXIT_CODE), Some(finishedAt), Some(Readable(result)))
  }

  function FailedRow(finishedAt: Time, result: Stored): Row {
    Row(Error, Some(1), Some(finishedAt), Some(result))
  }

  datatype Db = Db(
    commands: map<Id, Row>,
    cancellations: map<Id, Time>,
    runs: map<Id, Id>,
    sessions: set<Id>)

  /** A cancelled row, field by field. */
  predicate IsCancelledRow(row: Row, finishedAt: Time, cancelledAt: Option<Time>) {
    && row.status == Cancelled && row.exitCode == Some(130) && row.finishedAt == Some(finishedAt)
    && row.result == Some(Readable(CommandResult(Some(130), None, None, None, false, cancelledAt, "")))
  }

  // ----- The store's steps -----

  datatype Action =
    | CancelIfQueued(id: Id, finishedAt: Time)
    | CancelIfRunning(id: Id, finishedAt: Time, requestedAt: Time)
    | FailIfQueued(id: Id, finishedAt: Time, result: Stored)
    | RequestCancel(id: Id, requestedAt: Time)
    | FinalizeInterrupted(finishedAt: Time)
    | PruneOrphans
    | FinalizeUnowned(id: Id, logged: bool, outputs: string, finishedAt: Time)
    | Environment
    | Purge(ids: set<Id>)

  predicate IsQueued(db: Db, id: Id) { id in db.commands && db.commands[id].status.IsClaimable() }

  predicate IsRunning(db: Db, id: Id) { id in db.commands && db.commands[id].status.Running? }

  predicate IsTerminalRow(db: Db, id: Id) { id in db.commands && db.commands[id].status.IsTerminal() }

  /** A cancel was requested and the row is queued, pending or running. */
  predicate IsInterrupted(db: Db, id: Id) {
    id in db.cancellations && (IsQueued(db, id) || IsRunning(db, id))
  }

  function Interrupted(db: Db): set<Id> {
    set id | id in db.commands && IsInterrupted(db, id)
  }

  /** The interrupted rows of `ids` finalized. */
  function Finalized(db: Db, ids: set<Id>, finishedAt: Time): Db {
    db.(commands := map id | id in db.commands ::
          if id in ids && IsInterrupted(db, id) then CancelledRow(finishedAt, Some(db.cancellations[id]))
          else db.commands[id])
  }

  function Pruned(db: Db): Db {
    db.(cancellations := db.cancellations - (set id | id in db.cancellations && id !in db.commands),
        runs := db.runs - (set s | s in db.runs && s !in db.sessions))
  }

  /** The database after a step of the store, if the step is one of the store's. */
  function StoreStep(db: Db, a: Action): Db {
    match a
    case CancelIfQueued(id, at) =>
      if IsQueued(db, id) then db.(commands := db.commands[id := CancelledRow(at, None)]) else db
    case CancelIfRunning(id, at, requestedAt) =>
      if IsRunning(db, id) then db.(commands := db.commands[id := CancelledRow(at, Some(requestedAt))]) else db
    case FailIfQueued(id, at, result) =>
      if IsQueued(db, id) then db.(commands := db.commands[id := FailedRow(at, result)]) else db
    case RequestCancel(id, at) =>
      if id in db.cancellations then db else db.(cancellations := db.cancellations[id := at])
    case FinalizeInterrupted(at) => Finalized(db, Interrupted(db), at)
    case PruneOrphans => Pruned(db)
    case FinalizeUnowned(_, _, _, _) => db
    case Environment => db
    case Purge(_) => db
  }

  // ----- Completing the result of a finished row -----

  function StatusOf(o: Outcome): CommandStatus {
    match o
    case OutcomeDone => Done
    case OutcomeCancelled => Cancelled
    case OutcomePaused | OutcomeAborted | OutcomeError => Error
  }

  function WireKind(s: CommandStatus): Outcome
    requires s.IsTerminal()
  {
    match s
    case Done => OutcomeDone
    case Error => OutcomeError
    case Cancelled => OutcomeCancelled
  }

  /** An absent or unreadable result counts as an empty one. */
  function ResultOf(row: Row): CommandResult {
    if row.result.Some? && row.result.value.Readable? then row.result.value.result else NO_RESULT
  }

  /** A result with outcome and outputs is complete and never rewritten. */
  predicate IsComplete(r: CommandResult) { r.outcome.Some? && r.outputs.Some? }

  function OrElse<T>(a: Option<T>, b: Option<T>): Option<T> { if a.Some? then a else b }

  function FailureCode(r: CommandResult, outcome: Outcome): Option<string> {
    if r.failureCode.Some? || outcome.OutcomeDone? then r.failureCode
    else if outcome.OutcomeCancelled? then Some("cancelled")
    else if r.setupFailed then Some("setup_failed")
    else Some("internal")
  }

  /** The result of a terminal row with its missing fields filled in. */
  function Completed(row: Row, outputs: string): CommandResult
    requires row.status.IsTerminal()
  {
    var r := ResultOf(row);
    var outcome := if r.outcome.Some? then r.outcome.value else WireKind(row.status);
    r.(exitCode := OrElse(r.exitCode, row.exitCode), outcome := Some(outcome),
       failureCode := FailureCode(r, outcome), outputs := OrElse(r.outputs, Some(outputs)))
  }

  /** The step writes: the row is terminal, its events are not logged and its result is not complete. */
  predicate Rewrites(row: Row, logged: bool) { row.status.IsTerminal() && !logged && !IsComplete(ResultOf(row)) }

  /**
   A row after `finalize_unowned_command`. Status and exit code are taken from
   the completed result and not from the row; `complete_command` keeps a finish
   time that is set. The step reads and writes in two statements; see
   `ReadIsCurrent`.
   */
  function Finished(row: Row, logged: bool, outputs: string, finishedAt: Time): Row {
    if !Rewrites(row, logged) then row
    else
      var c := Completed(row, outputs);
      Row(StatusOf(c.outcome.value), OrElse(c.exitCode, Some(0)), OrElse(row.finishedAt, Some(finishedAt)),
          Some(Readable(c)))
  }

  /** What the result says of status and exit code is what the row says, where both speak. */
  predicate Agrees(row: Row) {
    var r := ResultOf(row);
    && (r.outcome.Some? ==> StatusOf(r.outcome.value) == row.status)
    && (r.exitCode.Some? && row.exitCode.Some? ==> r.exitCode == row.exitCode)
  }

  /** Status kept; exit code and finish time kept once set. */
  predicate Settles(row: Row, later: Row) {
    && later.status == row.status
    && (row.exitCode.Some? ==> later.exitCode == row.exitCode)
    && (row.finishedAt.Some? ==> later.finishedAt == row.finishedAt)
  }

  /** Completing the result keeps a terminal row settled exactly when its result agrees with it. */
  lemma FinishedSettles(row: Row, logged: bool, outputs: string, finishedAt: Time)
    requires Rewrites(row, logged)
    ensures var later := Finished(row, logged, outputs, finishedAt);
            && later.status.IsTerminal() && later.exitCode.Some? && later.finishedAt.Some? && Agrees(later)
            && (Settles(row, later) <==> Agrees(row))
  {
  }

  /** `later` is `row` with what its result lacked filled in; nothing it had is changed. */
  ghost predicate IsFilledIn(row: Row, outputs: string, later: Row, r: CommandResult, c: CommandResult) {
    && later.result == Some(Readable(c))
    && (row.result == Some(Readable(r)) || (r == NO_RESULT && forall x :: row.result != Some(Readable(x))))
    && (r.outcome.Some? ==> c.outcome == r.outcome) && (r.failureCode.Some? ==> c.failureCode == r.failureCode)
    && (r.outputs.Some? ==> c.outputs == r.outputs) && (r.outputs.None? ==> c.outputs == Some(outputs))
    && c.exitCode == (if r.exitCode.Some? then r.exitCode else row.exitCode)
    && c.setupFailed == r.setupFailed && c.cancelledAt == r.cancelledAt && c.rest == r.rest
  }

  /** Which failure is filled in, and what the row says for each way to end. */
  predicate EndsAs(row: Row, r: CommandResult, later: Row, c: CommandResult) {
    && (r.outcome.None? ==> later.status == row.status)
    && (later.status == Done <==> c.outcome == Some(OutcomeDone))
    && (later.status == Cancelled <==> c.outcome == Some(OutcomeCancelled))
    && (later.status == Error <==> c.outcome in {Some(OutcomePaused), Some(OutcomeAborted), Some(OutcomeError)})
    && (r.failureCode.None? ==>
          c.failureCode == if later.status == Done then None
                           else if later.status == Cancelled then Some("cancelled")
                           else Some(if r.setupFailed then "setup_failed" else "internal"))
    && later.exitCode == (if c.exitCode.Some? then c.exitCode else Some(0))
  }

  /**
   What completing a row does: nothing unless the row is finished, its end not
   yet logged and its result short of an outcome or of outputs; then the
   missing fields are filled in and the row follows its result.
   */
  lemma CompletionFillsIn(row: Row, logged: bool, outputs: string, finishedAt: Time)
    returns (r: CommandResult, c: CommandResult)
    ensures var later := Finished(row, logged, outputs, finishedAt);
            if row.status in {Done, Error, Cancelled} && !logged && (r.outcome.None? || r.outputs.None?) then
              && IsFilledIn(row, outputs, later, r, c) && EndsAs(row, r, later, c)
              && later.finishedAt == (if row.finishedAt.Some? then row.finishedAt else Some(finishedAt))
            else later == row
    ensures row.result == Some(Readable(r)) || (r == NO_RESULT && forall x :: row.result != Some(Readable(x)))
  {
    r := ResultOf(row);
    c := if row.status.IsTerminal() then Completed(row, outputs) else r;
  }

  /** A completed result is never completed again. */
  lemma FinishedOnce(row: Row, logged: bool, outputs: string, finishedAt: Time, later: bool, more: string, at: Time)
    requires Rewrites(row, logged)
    ensures var done := Finished(row, logged, outputs, finishedAt); Finished(done, later, more, at) == done
  {
  }

  /** A queued command cancelled because its session closes: no exit code and no result. */
  function ClosedRow(finishedAt: Time): Row { Row(Cancelled, None, Some(finishedAt), None) }

  /** Such a row is completed with exit code 0, not the code of a cancelled command. */
  lemma ClosedRowExitsZero(at: Time, outputs: string, finishedAt: Time)
    ensures var row := Finished(ClosedRow(at), false, outputs, finishedAt);
            row.status.Cancelled? && row.exitCode == Some(0) && row.exitCode != Some(CANCELLED_EXIT_CODE)
  {
  }

  /** A cancelled row ends up with the cancelled exit code exactly when its row or its result already carries it. */
  lemma CancelledExit(row: Row, outputs: string, finishedAt: Time)
    requires row.status.Cancelled? && Rewrites(row, false) && Agrees(row)
    ensures Finished(row, false, outputs, finishedAt).exitCode == Some(CANCELLED_EXIT_CODE) <==>
            row.exitCode == Some(CANCELLED_EXIT_CODE)
            || (row.exitCode.None? && ResultOf(row).exitCode == Some(CANCELLED_EXIT_CODE))
  {
  }

  // ----- Steps of everybody else -----

  /** The environment may do anything but rewrite or delete a terminal row or touch the markers. */
  ghost predicate EnvironmentStep(db: Db, db': Db) {
    && db'.cancellations == db.cancellations
    && forall id :: IsTerminalRow(db, id) ==> id in db'.commands && db'.commands[id] == db.commands[id]
  }

  ghost predicate Next(db: Db, a: Action, db': Db) {
    match a
    case FinalizeUnowned(id, logged, outputs, at) =>
      db' == if id !in db.commands then db
             else db.(commands := db.commands[id := Finished(db.commands[id], logged, outputs, at)])
    case Environment => EnvironmentStep(db, db')
    case Purge(ids) => db'.commands == db.commands - ids && db'.cancellations == db.cancellations
    case _ => db' == StoreStep(db, a)
  }

  // ----- Who finalizes a command -----

  /** The step is a store update that takes effect on `id`. */
  predicate Wins(db: Db, a: Action, id: Id) {
    match a
    case CancelIfQueued(i, _) => i == id && IsQueued(db, id)
    case CancelIfRunning(i, _, _) => i == id && IsRunning(db, id)
    case FailIfQueued(i, _, _) => i == id && IsQueued(db, id)
    case FinalizeInterrupted(_) => IsInterrupted(db, id)
    case _ => false
  }

  /** A cancelling update; the remaining winner is a failed setup. */
  predicate Cancels(a: Action) { !a.FailIfQueued? }

  /** A winning step makes the row terminal, cancelled rows with exit code 130; other store steps leave it alone. */
  lemma StoreStepFinalizes(db: Db, a: Action, id: Id)
    ensures var db' := StoreStep(db, a);
            if Wins(db, a, id) then
              && !IsTerminalRow(db, id) && IsTerminalRow(db', id)
              && db'.commands[id].finishedAt == Some(a.finishedAt)
              && (Cancels(a) ==> db'.commands[id].status.Cancelled? && db'.commands[id].exitCode == Some(130))
              && (!Cancels(a) ==> db'.commands[id].status.Error? && db'.commands[id].exitCode == Some(1))
            else
              && (id in db'.commands <==> id in db.commands)
              && (id in db.commands ==> db'.commands[id] == db.commands[id])
  {
  }

  /** A history of atomic steps. */
  ghost predicate IsHistory(states: seq<Db>, actions: seq<Action>) {
    && |states| == |actions| + 1
    && forall i :: 0 <= i < |actions| ==> Next(states[i], actions[i], states[i + 1])
  }

  /** No purge removes `id` between the two positions. */
  ghost predicate Kept(actions: seq<Action>, id: Id, from: nat, to: nat)
    requires from <= to <= |actions|
  {
    forall k :: from <= k < to ==> !(actions[k].Purge? && id in actions[k].ids)
  }

  lemma {:induction false} TerminalRowKept(db: Db, a: Action, db': Db, id: Id)
    requires Next(db, a, db') && IsTerminalRow(db, id) && !(a.Purge? && id in a.ids)
    ensures IsTerminalRow(db', id) && !Wins(db, a, id)
    ensures Agrees(db.commands[id]) ==> Agrees(db'.commands[id]) && Settles(db.commands[id], db'.commands[id])
  {
    if a.FinalizeUnowned? {
      if a.id == id && Rewrites(db.commands[id], a.logged) {
        FinishedSettles(db.commands[id], a.logged, a.outputs, a.finishedAt);
      }
    } else if !a.Environment? && !a.Purge? {
      StoreStepFinalizes(db, a, id);
    }
  }

  /**
   Once terminal, a row is terminal for good while it exists, and no later
   update wins it. If its result agrees with it, it keeps its status, and its
   exit code and finish time once set.
   */
  lemma {:induction false} TerminalIsFinal(states: seq<Db>, actions: seq<Action>, id: Id, i: nat, k: nat)
    requires IsHistory(states, actions) && i <= k <= |actions| && Kept(actions, id, i, k)
    requires IsTerminalRow(states[i], id)
    ensures IsTerminalRow(states[k], id)
    ensures k < |actions| ==> !Wins(states[k], actions[k], id)
    ensures Agrees(states[i].commands[id]) ==>
              Agrees(states[k].commands[id]) && Settles(states[i].commands[id], states[k].commands[id])
    decreases k - i
  {
    if i < k {
      TerminalIsFinal(states, actions, id, i, k - 1);
      assert Next(states[k - 1], actions[k - 1], states[k]);
      TerminalRowKept(states[k - 1], actions[k - 1], states[k], id);
    }
  }

  /**
   One winner: in every interleaving, of all the store's updates at most one
   ever finalizes a command. The status, exit code and finish time it wrote
   stay: always for a cancel, and for a failed setup whose result agrees.
   */
  lemma OneWinner(states: seq<Db>, actions: seq<Action>, id: Id, i: nat, k: nat)
    requires IsHistory(states, actions) && i < k <= |actions| && Kept(actions, id, i + 1, k)
    requires Wins(states[i], actions[i], id)
    ensures k < |actions| ==> !Wins(states[k], actions[k], id)
    ensures IsTerminalRow(states[k], id)
    ensures var written, now := StoreStep(states[i], actions[i]).commands[id], states[k].commands[id];
            && (Agrees(written) ==> Settles(written, now))
            && (Cancels(actions[i]) ==>
                  && Agrees(written) && now.status.Cancelled? && now.exitCode == Some(CANCELLED_EXIT_CODE)
                  && now.finishedAt == Some(actions[i].finishedAt))
  {
    assert Next(states[i], actions[i], states[i + 1]);
    StoreStepFinalizes(states[i], actions[i], id);
    TerminalIsFinal(states, actions, id, i + 1, k);
  }

  /**
   A terminal row read by `finalize_unowned_command` is still the row when it
   writes, while its lock keeps others of its kind out: so the two statements
   act as one.
   */
  lemma {:induction false} ReadIsCurrent(states: seq<Db>, actions: seq<Action>, id: Id, i: nat, k: nat)
    requires IsHistory(states, actions) && i <= k <= |actions| && Kept(actions, id, i, k)
    requires IsTerminalRow(states[i], id)
    requires forall m :: i <= m < k ==> !(actions[m].FinalizeUnowned? && actions[m].id == id)
    ensures id in states[k].commands && states[k].commands[id] == states[i].commands[id]
    decreases k - i
  {
    if i < k {
      ReadIsCurrent(states, actions, id, i, k - 1);
      var db, a := states[k - 1], actions[k - 1];
      assert Next(db, a, states[k]);
      if !a.FinalizeUnowned? && !a.Environment? && !a.Purge? {
        StoreStepFinalizes(db, a, id);
      }
    }
  }

  // ----- Where agreement comes from -----

  ghost predicate AllAgree(db: Db) {
    forall id :: IsTerminalRow(db, id) ==> Agrees(db.commands[id])
  }

  /**
   What the callers see to: a failed setup comes with a result that agrees, and
   so does every row the environment finishes.
   */
  ghost predicate Truthful(db: Db, a: Action, db': Db) {
    && (a.FailIfQueued? ==> Agrees(FailedRow(a.finishedAt, a.result)))
    && (a.Environment? ==> forall id :: IsTerminalRow(db', id) && !IsTerminalRow(db, id) ==> Agrees(db'.commands[id]))
  }

  /** The result every caller of `fail_if_queued` passes. */
  function SetupFailure(rest: string): (r: Stored)
    ensures forall at :: Agrees(FailedRow(at, r))
  {
    Readable(CommandResult(Some(1), Some(OutcomeError), Some("setup_failed"), None, true, None, rest))
  }

  lemma StepAgrees(db: Db, a: Action, db': Db, id: Id)
    requires AllAgree(db) && Next(db, a, db') && Truthful(db, a, db') && IsTerminalRow(db', id)
    ensures Agrees(db'.commands[id])
  {
    if IsTerminalRow(db, id) {
      if !(a.Purge? && id in a.ids) {
        TerminalRowKept(db, a, db', id);
      }
    } else if !a.FinalizeUnowned? && !a.Environment? && !a.Purge? {
      StoreStepFinalizes(db, a, id);
    }
  }

  /** So in every history with truthful callers the result of every terminal row agrees with it. */
  lemma {:induction false} AgreementKept(states: seq<Db>, actions: seq<Action>, k: nat)
    requires IsHistory(states, actions) && k <= |actions| && AllAgree(states[0])
    requires forall i :: 0 <= i < |actions| ==> Truthful(states[i], actions[i], states[i + 1])
    ensures AllAgree(states[k])
  {
    if k > 0 {
      AgreementKept(states, actions, k - 1);
      assert Next(states[k - 1], actions[k - 1], states[k]);
      forall id | IsTerminalRow(states[k], id) ensures Agrees(states[k].commands[id]) {
        StepAgrees(states[k - 1], actions[k - 1], states[k], id);
      }
    }
  }

  // ----- Crash recovery -----

  /** After finalization no marked row is left unfinished, and repeating it does nothing. */
  lemma FinalizationSettles(db: Db, finishedAt: Time, later: Time)
    ensures var db' := StoreStep(db, FinalizeInterrupted(finishedAt));
            && Interrupted(db') == {}
            && (forall id :: id in db.commands && id !in db.cancellations ==>
                               id in db'.commands && db'.commands[id] == db.commands[id])
            && (forall id :: id in Interrupted(db) ==>
                               db'.commands[id] == CancelledRow(finishedAt, Some(db.cancellations[id])))
            && StoreStep(db', FinalizeInterrupted(later)) == db'
  {
    var db' := StoreStep(db, FinalizeInterrupted(finishedAt));
    assert Interrupted(db') == {};
    assert StoreStep(db', FinalizeInterrupted(later)).commands == db'.commands;
  }

  /** A command finalized at startup is never requeued or claimed afterwards. */
  lemma FinalizedNeverRequeued(states: seq<Db>, actions: seq<Action>, id: Id, i: nat, k: nat)
    requires IsHistory(states, actions) && i < k <= |actions| && Kept(actions, id, i + 1, k)
    requires actions[i].FinalizeInterrupted? && id in states[i].cancellations && id in states[i].commands
    ensures IsTerminalRow(states[k], id)
  {
    assert Next(states[i], actions[i], states[i + 1]);
    StoreStepFinalizes(states[i], actions[i], id);
    TerminalIsFinal(states, actions, id, i + 1, k);
  }

  /** The first recorded request time survives every step while the command exists at each prune. */
  lemma {:induction false} FirstRequestSurvives(states: seq<Db>, actions: seq<Action>, id: Id, i: nat, k: nat)
    requires IsHistory(states, actions) && i <= k <= |actions| && id in states[i].cancellations
    requires forall m :: i <= m < k && actions[m].PruneOrphans? ==> id in states[m].commands
    ensures id in states[k].cancellations && states[k].cancellations[id] == states[i].cancellations[id]
    decreases k - i
  {
    if i < k {
      FirstRequestSurvives(states, actions, id, i, k - 1);
      assert Next(states[k - 1], actions[k - 1], states[k]);
    }
  }

  /**
   A cancel that was requested is carried out: if the row is still unfinished
   at the next recovery, it is cancelled there, and its result tells when the
   cancel was first requested.
   */
  lemma RequestIsHonoured(states: seq<Db>, actions: seq<Action>, id: Id, i: nat, j: nat)
    requires IsHistory(states, actions) && i < j < |actions|
    requires actions[i].RequestCancel? && actions[i].id == id && actions[j].FinalizeInterrupted?
    requires id in states[j].commands && states[j].commands[id].status in {Queued, Pending, Running}
    requires forall m :: i < m < j && actions[m].PruneOrphans? ==> id in states[m].commands
    ensures var first := if id in states[i].cancellations then states[i].cancellations[id] else actions[i].requestedAt;
            && id in states[j + 1].commands
            && IsCancelledRow(states[j + 1].commands[id], actions[j].finishedAt, Some(first))
  {
    assert Next(states[i], actions[i], states[i + 1]);
    FirstRequestSurvives(states, actions, id, i + 1, j);
    assert Next(states[j], actions[j], states[j + 1]);
  }

  // ----- The store -----

  ghost function Elements(ids: seq<Id>): set<Id> { set id | id in ids }

  /** The rows of a query, in some order. */
  method AsList(ids: set<Id>) returns (r: seq<Id>)
    ensures Elements(r) == ids && |r| == |ids|
    ensures forall i, j :: 0 <= i < j < |r| ==> r[i] != r[j]
  {
    r := [];
    var rest := ids;
    while rest != {}
      invariant rest <= ids && Elements(r) == ids - rest && |r| + |rest| == |ids|
      invariant forall i, j :: 0 <= i < j < |r| ==> r[i] != r[j]
      decreases rest
    {
      var id :| id in rest;
      assert id !in Elements(r);
      assert Elements(r + [id]) == Elements(r) + {id};
      r := r + [id];
      rest := rest - {id};
    }
  }

  /** One guarded update of the finalization loop. */
  function UpdatedRow(db: Db, id: Id, finishedAt: Time): Db {
    if IsInterrupted(db, id) then
      db.(commands := db.commands[id := CancelledRow(finishedAt, Some(db.cancellations[id]))])
    else db
  }

  function UpdatedInTurn(db: Db, ids: seq<Id>, finishedAt: Time): Db {
    if ids == [] then db
    else UpdatedRow(UpdatedInTurn(db, ids[..|ids| - 1], finishedAt), ids[|ids| - 1], finishedAt)
  }

  lemma FinalizedOneMore(db: Db, ids: set<Id>, id: Id, finishedAt: Time)
    ensures UpdatedRow(Finalized(db, ids, finishedAt), id, finishedAt) == Finalized(db, ids + {id}, finishedAt)
  {
    assert UpdatedRow(Finalized(db, ids, finishedAt), id, finishedAt).commands ==
           Finalized(db, ids + {id}, finishedAt).commands;
  }

  lemma {:induction false} UpdatedInTurnFinalizes(db: Db, ids: seq<Id>, finishedAt: Time)
    ensures UpdatedInTurn(db, ids, finishedAt) == Finalized(db, Elements(ids), finishedAt)
  {
    if ids == [] {
      assert Finalized(db, {}, finishedAt).commands == db.commands;
    } else {
      var last := |ids| - 1;
      UpdatedInTurnFinalizes(db, ids[..last], finishedAt);
      assert Elements(ids) == Elements(ids[..last]) + {ids[last]};
      FinalizedOneMore(db, Elements(ids[..last]), ids[last], finishedAt);
    }
  }

  /** The rows after finalization, one by one. */
  lemma FinalizedRows(db: Db, ids: seq<Id>, finishedAt: Time)
    requires Elements(ids) == Interrupted(db)
    ensures var after := Finalized(db, Elements(ids), finishedAt);
            && after == db.(commands := after.commands) && after.commands.Keys == db.commands.Keys
            && after == StoreStep(db, FinalizeInterrupted(finishedAt))
    ensures forall id :: id in ids <==> id in db.cancellations && id in db.commands
                                        && db.commands[id].status in {Queued, Pending, Running}
    ensures forall id :: id in ids ==>
                           IsCancelledRow(Finalized(db, Elements(ids), finishedAt).commands[id], finishedAt,
                                          Some(db.cancellations[id]))
    ensures forall id :: id in db.commands && id !in ids ==>
                           Finalized(db, Elements(ids), finishedAt).commands[id] == db.commands[id]
  {
    forall id ensures id in ids <==> id in Interrupted(db) {
      assert id in ids <==> id in Elements(ids);
    }
  }

  lemma RemovedCount<V>(m: map<Id, V>, gone: set<Id>)
    requires gone <= m.Keys
    ensures |m - gone| == |m| - |gone|
  {
    assert (m - gone).Keys == m.Keys - gone;
    assert |m.Keys - gone| == |m.Keys| - |gone|;
    assert |m - gone| == |(m - gone).Keys|;
  }

  class CommandLifecycleStore {
    var commands: map<Id, Row>
    var cancellations: map<Id, Time>
    var runs: map<Id, Id>
    var sessions: set<Id>

    function View(): Db
      reads this
    {
      Db(commands, cancellations, runs, sessions)
    }

    method CancelIfQueued(id: Id, finishedAt: Time) returns (changed: bool)
      modifies this`commands
      ensures changed <==> id in old(commands) && old(commands)[id].status in {Queued, Pending}
      ensures !changed ==> commands == old(commands)
      ensures changed ==> id in commands && commands == old(commands)[id := commands[id]]
                          && IsCancelledRow(commands[id], finishedAt, None)
      ensures View() == StoreStep(old(View()), Action.CancelIfQueued(id, finishedAt))
      ensures changed <==> Wins(old(View()), Action.CancelIfQueued(id, finishedAt), id)
    {
      changed := id in commands && commands[id].status.IsClaimable();
      if changed {
        commands := commands[id := CancelledRow(finishedAt, None)];
      }
    }

    method CancelIfRunning(id: Id, finishedAt: Time, requestedAt: Time) returns (changed: bool)
      modifies this`commands
      ensures changed <==> id in old(commands) && old(commands)[id].status == Running
      ensures !changed ==> commands == old(commands)
      ensures changed ==> id in commands && commands == old(commands)[id := commands[id]]
                          && IsCancelledRow(commands[id], finishedAt, Some(requestedAt))
      ensures View() == StoreStep(old(View()), Action.CancelIfRunning(id, finishedAt, requestedAt))
      ensures changed <==> Wins(old(View()), Action.CancelIfRunning(id, finishedAt, requestedAt), id)
    {
      changed := id in commands && commands[id].status.Running?;
      if changed {
        commands := commands[id := CancelledRow(finishedAt, Some(requestedAt))];
      }
    }

    method FailIfQueued(id: Id, finishedAt: Time, result: Stored) returns (changed: bool)
      modifies this`commands
      ensures changed <==> id in old(commands) && old(commands)[id].status in {Queued, Pending}
      ensures commands == if changed then old(commands)[id := Row(Error, Some(1), Some(finishedAt), Some(result))]
                          else old(commands)
      ensures View() == StoreStep(old(View()), Action.FailIfQueued(id, finishedAt, result))
      ensures changed <==> Wins(old(View()), Action.FailIfQueued(id, finishedAt, result), id)
    {
      changed := id in commands && commands[id].status.IsClaimable();
      if changed {
        commands := commands[id := FailedRow(finishedAt, result)];
      }
    }

    method RequestCancel(id: Id, requestedAt: Time)
      modifies this`cancellations
      ensures id in cancellations
      ensures cancellations[id] == if id in old(cancellations) then old(cancellations)[id] else requestedAt
      ensures forall i :: i != id ==> (i in cancellations <==> i in old(cancellations))
      ensures forall i :: i != id && i in cancellations ==> cancellations[i] == old(cancellations)[i]
      ensures View() == StoreStep(old(View()), Action.RequestCancel(id, requestedAt))
    {
      if id !in cancellations {
        cancellations := cancellations[id := requestedAt];
      }
    }

    /** Selects the interrupted rows, then updates them one statement at a time. */
    method FinalizeInterruptedCancellations(finishedAt: Time) returns (ids: seq<Id>)
      modifies this`commands
      ensures commands.Keys == old(commands).Keys
      ensures forall id :: id in ids <==> id in cancellations && id in old(commands)
                                          && old(commands)[id].status in {Queued, Pending, Running}
      ensures forall id :: id in ids ==> IsCancelledRow(commands[id], finishedAt, Some(cancellations[id]))
      ensures forall id :: id in commands && id !in ids ==> commands[id] == old(commands)[id]
      ensures View() == StoreStep(old(View()), FinalizeInterrupted(finishedAt))
      ensures Elements(ids) == Interrupted(old(View())) && |ids| == |Interrupted(old(View()))|
    {
      var db := View();
      ids := AsList(Interrupted(db));
      for i := 0 to |ids|
        invariant View() == UpdatedInTurn(db, ids[..i], finishedAt)
      {
        assert ids[..i + 1][..i] == ids[..i];
        commands := UpdatedRow(View(), ids[i], finishedAt).commands;
      }
      assert ids[..|ids|] == ids;
      UpdatedInTurnFinalizes(db, ids, finishedAt);
      FinalizedRows(db, ids, finishedAt);
    }

    method PruneOrphans() returns (removed: nat)
      modifies this`cancellations, this`runs
      ensures forall id :: id in cancellations <==> id in old(cancellations) && id in commands
      ensures forall id :: id in cancellations ==> cancellations[id] == old(cancellations)[id]
      ensures forall s :: s in runs <==> s in old(runs) && s in sessions
      ensures forall s :: s in runs ==> runs[s] == old(runs)[s]
      ensures View() == StoreStep(old(View()), Action.PruneOrphans)
      ensures removed == |old(cancellations)| - |cancellations| + |old(runs)| - |runs|
    {
      var staleMarkers := set id | id in cancellations && id !in commands;
      var staleRuns := set s | s in runs && s !in sessions;
      removed := |staleMarkers| + |staleRuns|;
      RemovedCount(cancellations, staleMarkers);
      RemovedCount(runs, staleRuns);
      cancellations := cancellations - staleMarkers;
      runs := runs - staleRuns;
    }
  }
}
