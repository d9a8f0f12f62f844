# Verification of awman's workflow, session and command logic

A Dafny model of the decision-making core of awman, with machine-checked proofs of the properties its
documentation and tests promise. `dafny verify dfyconfig.toml` checks the whole project.

Each module follows one source file or component:

- `WorkflowDag`: the step graph of a workflow. Reference check, depth-first cycle search, depth-first topological
  order and the scheduler's choice of ready steps. Dependencies are a last-wins map; the definition order keeps
  repeated names.
- `Stages`: grouping of steps by dependency depth through an in-place relaxation with a bound on its passes.
- `WorkflowState`: the saved progress of a run, as a class updated in place, tied method by method to functions on
  snapshots; rewind, stop point, pruning, and runs of the scheduler over the state.
- `EditDistance`: the two-row edit distance, proved against shortest sequences of single edits, and the ranking of
  suggestions by it.
- `EventReplay`: cursors of the event stream, their text form, and replay of an append-only log to clients that
  reconnect.
- `CommandLifecycle`: the guarded updates of the command table as a transition system with workers, purges, crash
  recovery and the completion of finished rows as further steps.
- `SessionCreate` and `SessionSetup`: validation of a session request into a plan, and the staged setup run for that
  plan with every external call free to fail, the ready engine free to end at any step in any way its loop allows, and
  the cancel token free to fire before any check point. `SetupOutcomes` says what such a run must end with, from the
  answers of the outside alone.
- `ImageTags`: coercion of folder names into the name component grammar of the OCI Distribution Specification
  (section "Pulling manifests").
- `PromptTemplate`: placeholder substitution, including the rewriting loop that need not stop, and
  `SectionReferences`: exactly when that loop stops, through the graph of sections that name each other.
  `MarkdownSections` says what a line, a heading and a section are without those loops.
- `Strings`, `TextFacts`, `Sequences`, `Iteration` and `Wrappers`: the standard-library operations, white space and
  letter case, sequence facts, loops over values and result types the others use.

Imperative code is imperative here: the depth-first searches, the relaxation, the edit-distance rows, the scanners and
the rewriting loops are methods with loop invariants; `WorkflowState`, `CommandLifecycleStore`, `SetupState` and
`SessionSetup` are classes. A parameter the source passes by mutable reference is an in-parameter and an
out-parameter of the method.

## Main results

1. The cycle search errs exactly on cyclic graphs and names a step on a real cycle; the topological order of an
   accepted workflow lists every step once after its dependencies, and is stable: in the definition and, at every
   depth, in the dependency lists.
2. The relaxation settles exactly on acyclic definitions, then holds longest-chain depths; stages and scheduler agree.
3. No accepted workflow deadlocks; a run is stuck exactly when every step is completed, after as many moves as steps
   were missing; a rewound run takes exactly the steps from the rewind point on.
4. The edit distance is the length of a shortest sequence of insertions, deletions and substitutions, hence a metric.
5. A client that reconnects any number of times, cut off anywhere, with entries purged in between, holds the log in
   order, each entry once, without gaps other than purged entries and attempts superseded after a restart; without
   purges, exactly a prefix.
6. At most one store update finalizes a command in any interleaving. The status, exit code and finish time a cancel
   writes stay, although a later step rewrites the result of the finished row; for any other row they stay exactly as
   long as its result agrees with it. A cancel once requested is carried out at the next recovery that finds the
   command unfinished, with the time it was first requested.
7. Every setup run ends ready exactly when every call it makes succeeds, the engine returns a ready summary and the
   token fires at no check point; otherwise it announces the first call that failed. It ends once, enters exactly the
   stages it gets to, moves row and in-memory status only forward, and deletes a remote clone on every failure but
   three. A second terminal event is sent on the session's bus exactly when the ready engine completes before a cancel
   is seen.
8. Every folder name is coerced into the OCI grammar, and names already in it are left alone.
9. A prompt gets, for a section marker, what stands between the first heading of that name and the next heading of
   the first or second level. The section loop stops on every text if every section is short of some character of a
   marker, and the bound is sharp; or if no section can complete one end of a marker. Where all braces a text leads to
   belong to section markers it stops exactly when no section it is led to contains itself, directly or through others.

## Where the code and its documentation differ

- The module comment of `src/command/session_setup.rs` promises that any failure deletes a remote clone. The code
  returns early from three failures without doing so (lines 586-594, 600-607, 629-636). `SessionSetup.CloneDeletion`
  gives the exact condition on plan and outside, `SessionSetup.EarlyFailureKeepsClone` the failing cases.
- A setup run is meant to end once. The ready frontend of the API
  (`src/command/commands/api_server/session_setup.rs:180-186`) writes `ready` into the shared state and sends a
  completion event as soon as the engine reports its summary, before the orchestrator has decided. A run that fails
  after the summary (images not ready, an engine error after completing, a cancel at the last check) therefore goes
  from `ready` to `failed`: `GET /v1/sessions/{id}/status`, which serves the shared state, can read the one and then
  the other. `SessionSetup.TerminalStatusLeft` gives the exact condition, `SessionSetup.CompleteThenFailed` a concrete
  run. On the session's bus two terminal events are sent on every run whose engine completed
  (`SessionSetup.EventsOnBus`); nothing in the repository subscribes to that bus. The orchestrator itself announces
  one end (`SessionSetup.RunSummary`).
- `src/data/command_status.rs:9-11` gives 130 as the exit code of a cancelled row. A queued command cancelled because
  its session closes (`src/data/fs/api_db.rs:1554-1568`) gets no exit code, and completing such a row records 0:
  `CommandLifecycle.ClosedRowExitsZero`, with the exact condition in `CommandLifecycle.CancelledExit`.
- `finalize_unowned_command` takes status and exit code from the stored result and not from the row, so a result that
  disagrees with its row would change a terminal status. `CommandLifecycle.FinishedSettles` gives the exact condition;
  `CommandLifecycle.AgreementKept` shows that no history whose callers tell the truth meets it.
- The section-substitution loop of `src/data/workflow_prompt_template.rs` has no bound:
  `PromptTemplate.SelfReferenceNeverStops` gives work items on which it never stops.

## Model

| member | source | states |
|---|---|---|
| WorkflowDag.LastStepWins | src/data/workflow_dag.rs:26-29 | the dependencies recorded for a name are those of the last step of that name |
| WorkflowDag.ValidateReferences | src/data/workflow_dag.rs:69-82 | succeeds exactly when every dependency names a step; otherwise names the first missing one in definition order |
| WorkflowDag.CycleDfs | src/data/workflow_dag.rs:105-127 | for every graph: terminates; an error names a step on a real cycle; success leaves the stack as it was and only finished nodes that lie on no cycle |
| WorkflowDag.DetectCycle | src/data/workflow_dag.rs:85-103 | succeeds exactly when the last-wins graph is acyclic; an error names a step on a real cycle |
| WorkflowDag.Build | src/data/workflow_dag.rs:22-31 | accepts exactly the definitions whose references resolve and whose graph is acyclic; missing references are reported before cycles |
| WorkflowDag.ReadySteps | src/data/workflow_dag.rs:34-48 | exactly the steps not completed whose dependencies all are |
| WorkflowDag.TopoDfs | src/data/workflow_dag.rs:129-145 | the recursive search with its two mutable collections computes the depth-first walk that `TopoOrderIsStableBelow` and `TopoOrderSorts` determine |
| WorkflowDag.TopologicalOrder | src/data/workflow_dag.rs:51-60 | the loop over roots computes the order those two results are about |
| WorkflowDag.TopoOrderSorts | src/data/workflow_dag.rs:50-60 | for every accepted workflow: each step name exactly once, every dependency before its dependents |
| WorkflowDag.TopoOrderIsStable | src/data/workflow_dag.rs:50-60 | for every k, what the first k definition entries need fills a prefix of the order |
| WorkflowDag.TopoOrderIsStableBelow | src/data/workflow_dag.rs:129-145 | down any path along the dependency lists: what the earlier definition entries and the dependencies passed over on the way need fills a prefix of the order |
| WorkflowDag.SortedDefinitionUnchanged | src/data/workflow_dag.rs:50-60 | the definition order comes back exactly when it is already sorted and without repeats |
| WorkflowDag.NoDeadlock | src/data/workflow_dag.rs:34-48 | for every accepted workflow and completed set: nothing is ready exactly when every step is completed |
| WorkflowDag.RunRespectsDependencies | src/data/workflow_dag.rs:34-48 | a run picks no step twice and none before its dependencies |
| WorkflowDag.RunCompletesEverything | src/data/workflow_dag.rs:34-48 | a run is stuck exactly after as many moves as steps were missing |
| Stages.RelaxStep | src/data/workflow_state.rs:197-205 | in-place relaxation of one step: only that entry changes, never beyond a real chain, and past all its dependencies |
| Stages.RelaxPass | src/data/workflow_state.rs:196-206 | one pass relaxes every step against the entries before the pass and reports exactly whether anything changed |
| Stages.PassCoversMore | src/data/workflow_state.rs:193-206 | after p passes every chain of at most p steps is accounted for, although updates happen in place |
| Stages.LastPassIsQuiet | src/data/workflow_state.rs:193-210 | on an acyclic definition the last pass the bound allows changes nothing |
| Stages.ComputeDepths | src/data/workflow_state.rs:192-210 | leaves through its break exactly on acyclic definitions, repeated names included, and then each depth is the longest dependency chain below its step |
| Stages.StagesGroupByDepth | src/data/workflow_state.rs:212-220 | stages are the groups at exactly the depths that occur, lowest first, each in definition order |
| Stages.GroupStages | src/data/workflow_state.rs:185-221 | on every definition, cyclic ones included, the stages partition the indices; on acyclic ones they are the groups by longest-chain depth; on accepted ones with distinct names each is what the scheduler offers next |
| Stages.StagesAgreeWithScheduler | src/data/workflow_state.rs:176-221 | for every accepted definition with distinct names and every k: with exactly the first k stages completed, the ready steps are the next stage in definition order, and none after the last |
| WorkflowState.StopPoint | src/data/workflow_state.rs:391-407 | none exactly when every step succeeded or was skipped; else the first stopped step, or failing that the first unfinished one |
| WorkflowState.WorkflowState.constructor | src/data/workflow_state.rs:233-274 | a fresh state has every step pending, none completed and nothing else recorded |
| WorkflowState.WorkflowState.SetStatus | src/data/workflow_state.rs:486-495 | records the status given, puts the step in the completed set exactly if it succeeded or was skipped, and touches nothing else |
| WorkflowState.WorkflowState.ResumeStopPoint | src/data/workflow_state.rs:391-407 | the first step in topological order that failed or was cancelled; without one, the first neither succeeded nor skipped |
| WorkflowState.WorkflowState.RewindTo | src/data/workflow_state.rs:420-435 | from the start on every step is pending; before it, steps neither succeeded nor skipped are skipped and the others keep their status; an unknown start changes nothing |
| WorkflowState.WorkflowState.RetainStepsIn | src/data/workflow_state.rs:448-468 | removes every record of exactly the steps the workflow does not define, returns them sorted, and keeps all other records and the order of the other steps |
| WorkflowState.KeepStepsInOrder | src/data/workflow_state.rs:448-468 | the steps kept are exactly those not dropped, in the order they were in |
| WorkflowState.LastStatusStays | src/data/workflow_state.rs:486-495 | in every history the status last set is the one recorded, with its exit code, message or container |
| WorkflowState.StopPointIs | src/data/workflow_state.rs:391-407 | the stop point in terms of the recorded statuses and positions alone |
| WorkflowState.CompleteExactly | src/data/workflow_state.rs:356-367 | complete exactly when no recorded step is pending or running |
| WorkflowState.RewindExactly | src/data/workflow_state.rs:409-435 | a rewind in terms of the recorded statuses and positions alone |
| WorkflowState.RewindStatuses | src/data/workflow_state.rs:409-435 | statuses after a rewind, step by step; steps outside the workflow and all other records are untouched |
| WorkflowState.RewoundStepIsReady | src/data/workflow_state.rs:409-435 | the step rewound to is ready and no earlier step is |
| WorkflowState.RewindResumes | src/data/workflow_state.rs:391-435 | after a rewind to step i: not complete, stop point i, no step failed, cancelled or running, exactly the steps from i on missing, and a second rewind changes nothing |
| WorkflowState.StrandedByOrphans | src/data/workflow_state.rs:437-447 | with nothing ready, the state reads complete exactly when every step outside the workflow is terminal |
| WorkflowState.RetainUnstrands | src/data/workflow_state.rs:437-468 | pruning keeps agreement, surviving statuses and the ready steps; afterwards nothing ready implies complete |
| WorkflowState.AlwaysConsistent | src/data/workflow_state.rs:233-495 | after every sequence of operations the completed set is exactly the steps succeeded or skipped |
| WorkflowState.ScheduleFinishes | src/data/workflow_state.rs:380-383 | a schedule over the state makes no step twice, none before its dependencies, and is stuck exactly after as many moves as steps were missing |
| WorkflowState.StuckScheduleIsComplete | src/data/workflow_state.rs:356-383 | once stuck the state is complete, if it records no step outside the workflow |
| WorkflowState.ResumedRunLength | src/data/workflow_state.rs:409-435 | a run resumed at step i is stuck exactly after the steps from i on |
| EditDistance.Levenshtein | src/data/text.rs:16-37 | the swapped rows give the length of a shortest sequence of single edits |
| EditDistance.NoShorterEdits | src/data/text.rs:28-32 | no sequence of edits is shorter than the recurrence that skips the minimum on equal characters |
| EditDistance.DistIsEditDistance | src/data/text.rs:11-37 | the recurrence is reached and never beaten |
| EditDistance.DistIsMetric | src/data/text.rs:11-37 | zero exactly on equal strings, symmetric, triangle inequality |
| EditDistance.Nearest | src/data/text.rs:43-57 | exactly the candidates within the threshold, nearest first, ties in the order given |
| EditDistance.RankingIsUnique | src/data/text.rs:39-57 | there is only one such ranking |
| EventReplay.ParseAcceptsSpellings | src/data/execution_event.rs:197-207 | accepts exactly two non-empty digit strings around one colon whose values fit |
| EventReplay.ParseInvertsPrint | src/data/execution_event.rs:200-214 | parsing inverts printing for every cursor |
| EventReplay.PrintOfParse | src/data/execution_event.rs:200-214 | printing a parsed cursor removes redundant leading zeros and nothing else |
| EventReplay.ReplayContinues | src/data/execution_event.rs:247-272 | on a purged log, a client whose attempt is kept gets everything it has not seen, nothing twice, and misses exactly what was purged unseen |
| EventReplay.UnknownCursorRestartsAttempt | src/data/execution_event.rs:237-240 | a cursor whose attempt is not kept replays exactly what is kept of the current attempt |
| EventReplay.OnceWithGaps | src/data/execution_event.rs:243-272 | across any number of connections cut off anywhere, with entries purged in between, the client holds the log up to where it stands without the gaps, in order and nothing twice |
| EventReplay.GapsAreExcused | src/data/execution_event.rs:226-262 | every gap was passed over by a connection that delivered later entries: purged by then, or older than the current attempt for a client whose attempt was gone |
| EventReplay.ExactlyOnce | src/data/execution_event.rs:243-272 | without purges the client holds exactly a prefix of the log; all of it once a replay arrives whole |
| CommandLifecycle.StoreStepFinalizes | src/data/api_lifecycle_store.rs:58-88 | an update takes effect only on an unfinished row and makes it terminal, cancelled rows with exit code 130; other rows are untouched |
| CommandLifecycle.FinishedSettles | src/command/commands/api_server/queue_worker.rs:435-511 | completing the result of a terminal row keeps its status, and exit code and finish time once set, exactly when result and row agree; afterwards they agree |
| CommandLifecycle.CompletionFillsIn | src/command/commands/api_server/queue_worker.rs:447-505 | a finished row whose end is not logged and whose result lacks outcome or outputs has what is missing filled in, and the failure named, with all else kept; every other row is untouched |
| CommandLifecycle.FinishedOnce | src/command/commands/api_server/queue_worker.rs:465-470 | a completed result is never completed again |
| CommandLifecycle.ClosedRowExitsZero | src/data/fs/api_db.rs:1554-1568 | a command cancelled by closing its session is completed with exit code 0 |
| CommandLifecycle.CancelledExit | src/data/command_status.rs:9-11 | a completed cancelled row carries 130 exactly when its row or, failing that, its result did before |
| CommandLifecycle.TerminalIsFinal | src/data/command_status.rs:72-105 | in every history a terminal row is terminal while it exists and no update wins it; if its result agrees it keeps its status, and exit code and finish time once set |
| CommandLifecycle.ReadIsCurrent | src/command/commands/api_server/queue_worker.rs:440-452 | while no other completion of the row runs, a terminal row is unchanged between its read and the write, so completion acts as one step |
| CommandLifecycle.AgreementKept | src/command/commands/api_server/queue_worker.rs:279-290 | if failed setups and workers write results that agree with their rows, every terminal row in every state agrees with its result |
| CommandLifecycle.OneWinner | src/data/api_lifecycle_store.rs:55-175 | in every interleaving at most one store update finalizes a command; status, exit code and finish time stay for every cancel, and for a failed setup whose result agrees |
| CommandLifecycle.FinalizationSettles | src/data/api_lifecycle_store.rs:123-156 | afterwards no marked row is unfinished, unmarked rows are untouched, and repeating it changes nothing |
| CommandLifecycle.FinalizedNeverRequeued | src/data/api_lifecycle_store.rs:123-125 | a marked command finalized at startup is terminal in every later state |
| CommandLifecycle.FirstRequestSurvives | src/data/api_lifecycle_store.rs:90-100 | the first recorded request time survives every step, prunes included, while the command exists |
| CommandLifecycle.RequestIsHonoured | src/data/api_lifecycle_store.rs:91-156 | in every history a command whose cancel was requested and that is unfinished at a recovery is cancelled there with code 130, and its result carries the first request time |
| CommandLifecycle.CommandLifecycleStore.CancelIfQueued | src/data/api_lifecycle_store.rs:58-68 | a queued or pending row becomes cancelled with code 130 and the finish time given, and nothing else changes; reports exactly whether it won |
| CommandLifecycle.CommandLifecycleStore.CancelIfRunning | src/data/api_lifecycle_store.rs:73-88 | a running row becomes cancelled with code 130, and its result tells when the cancel was requested; nothing else changes; reports exactly whether it won |
| CommandLifecycle.CommandLifecycleStore.FailIfQueued | src/data/api_lifecycle_store.rs:161-175 | a queued or pending row becomes an error with code 1 and the result given; nothing else changes; reports exactly whether it won |
| CommandLifecycle.CommandLifecycleStore.RequestCancel | src/data/api_lifecycle_store.rs:91-100 | afterwards a request is recorded, with its old time if there was one and the time given otherwise; nothing else changes |
| CommandLifecycle.CommandLifecycleStore.FinalizeInterruptedCancellations | src/data/api_lifecycle_store.rs:126-156 | the loop of updates cancels exactly the unfinished rows with a request, each with the time of its request, and returns each id once |
| CommandLifecycle.CommandLifecycleStore.PruneOrphans | src/data/api_lifecycle_store.rs:243-256 | exactly the markers with a command and the runs with a session remain, unchanged; counts the others |
| SessionCreate.BranchNames | src/command/session_create.rs:456-517 | exactly which names are accepted: allowed characters, no option, non-empty components that are neither hidden nor lock files, no sha, keyword or prefixed ref |
| SessionCreate.ReasonsAreTrue | src/command/session_create.rs:456-517 | the reason given for refusing a name is true of it |
| SessionCreate.RepoFolderIsSafe | src/command/session_create.rs:422-435 | for every URL the clone folder is a single safe path component |
| SessionCreate.RepoFolderOfUrl | src/command/session_create.rs:416-435 | for every URL: the folder characters of its last segment, in order, without the extension and slashes behind it; `repo` if they make no name |
| SessionCreate.RepoFolderKeepsName | src/command/session_create.rs:416-435 | a repository keeps its own name, with or without `.git` |
| SessionCreate.ValidateMergeRefs | src/command/session_create.rs:380-395 | all merge refs trimmed in order, or the first refused one with its reason |
| SessionCreate.ValidateRemote | src/command/session_create.rs:325-411 | accepts exactly the acceptable remote requests; a refusal is about the first field with anything wrong; the plan carries the trimmed fields and satisfies the plan invariant |
| SessionCreate.KindOf | src/command/session_create.rs:266-275 | local and remote are spelled in any case with white space around; a request without a kind is local |
| SessionCreate.Validate | src/command/session_create.rs:266-414 | accepts exactly the acceptable requests of either kind and returns a valid plan; otherwise reports the first problem in order |
| SessionSetup.SetupState.ApplyReadyStep | src/data/session_setup_event.rs:101-110 | replaces the first entry of the step or appends one; every other entry keeps its place and no step is listed twice |
| SessionSetup.SummaryComesLast | src/engine/ready/phases.rs:1009-1021 | the engine reports a summary exactly when it completes undropped, as its last report, and returns one only after reporting it |
| SessionSetup.SessionSetup.CancelledHere | src/command/session_setup.rs:239-245 | a check point ends the run exactly when the token has fired |
| SessionSetup.SessionSetup.MergeRefs | src/command/session_setup.rs:428-468 | merges in order, stops at the first failure, and succeeds exactly when all succeed |
| SessionSetup.SessionSetup.PrepareClone | src/command/session_setup.rs:268-376 | continues exactly when no remote stage fails and no check point fires, with all refs merged; else the run has ended; `SetupOutcomes.RemoteFailures` says how |
| SessionSetup.SessionSetup.FailAndClean | src/command/session_setup.rs:199-235 | marks failed, requests clone deletion, persists failed, saves and finishes, in that order |
| SessionSetup.SessionSetup.FailEarly | src/command/session_setup.rs:586-636 | the early returns: the same without clone deletion |
| SessionSetup.SessionSetup.Conclude | src/command/session_setup.rs:674-727 | announces ready exactly for a summary that is ready, else the matching failure |
| SessionSetup.SessionSetup.Run | src/command/session_setup.rs:474-727 | for every valid plan and behaviour of the outside the run has the shape of `IsRun`: exactly the stages, merges and reports asked for, then one closing for the first applicable cause; row and in-memory status end equal; `SetupOutcomes` says which closing |
| SessionSetup.RunFinishesLast | src/command/session_setup.rs:181-197 | the snapshot is saved once and the frontend told once, last |
| SessionSetup.RunSummary | src/command/session_setup.rs:155-164 | the orchestrator announces its end exactly once; what a whole run writes, sends and merges |
| SessionSetup.RowMovesForward | src/command/session_setup.rs:149-179 | the session row moves strictly forward and ends in the status of the run |
| SessionSetup.StatusMovesForward | src/data/session_setup_event.rs:60-97 | the in-memory status never moves to an earlier stage, reports of the ready frontend included |
| SessionSetup.TerminalStatusLeft | src/command/session_setup.rs:668-727 | the in-memory status reads as terminal and then changes exactly when the engine published its summary and the run fails |
| SessionSetup.EventsOnBus | src/command/commands/api_server/session_setup.rs:180-186 | the terminal events sent on the session's bus: a second one exactly when the engine completes before a cancel is seen, hence on every run that ends ready or not ready, never after a timeout |
| SessionSetup.CompleteThenFailed | src/command/session_setup.rs:674-694 | a concrete run whose status reads ready and then failed, and which sends completion and then failure |
| SessionSetup.CloneDeletion | src/command/session_setup.rs:541-724 | deletion is requested exactly when a remote run fails and did not fail between opening its session and having a ready engine, and before failed is persisted |
| SessionSetup.EarlyFailureKeepsClone | src/command/session_setup.rs:583-636 | each of the three early failures is announced and persisted and keeps the clone |
| SessionSetup.ReadyRun | src/command/session_setup.rs:657-702 | a run ending ready merged exactly the plan's refs in order, never deleted its clone, and the token had not fired by the last check |
| SetupOutcomes.ReadyExactly | src/command/session_setup.rs:474-727 | a run announces and records a ready session exactly when each call the plan asks for succeeds, the engine returns a ready summary and the token fires at no check point; otherwise it records failed |
| SetupOutcomes.RemoteFailures | src/command/session_setup.rs:268-376 | when cloning, the branch or the merges are the first to fail, the run announces just that, records failed and deletes the clone |
| SetupOutcomes.OpenFailures | src/command/session_setup.rs:541-636 | the same for opening the session, the agent, the runtime and the builtin inputs, of which only the first deletes the clone |
| SetupOutcomes.EngineFailures | src/command/session_setup.rs:674-714 | the same for an engine that errs or finds the session not ready |
| SetupOutcomes.EngineTimesOut | src/command/session_setup.rs:715-724 | the same for an engine that never returns, announced as a timeout |
| SetupOutcomes.Cancellation | src/command/session_setup.rs:226-245 | a token fired before any check point the run reaches ends it as cancelled and deletes a clone |
| SetupOutcomes.StagesEntered | src/command/session_setup.rs:268-525 | which stages the session row goes through, from the plan, the calls that succeed and the token alone |
| SetupOutcomes.RefsMerged | src/command/session_setup.rs:428-468 | the refs merged are those before the first that fails, if the run gets to merging |
| SetupOutcomes.SecondEvent | src/command/commands/api_server/session_setup.rs:180-186 | a second terminal event is sent exactly when everything before the engine succeeds, the token has not fired and the engine gets to its summary |
| ImageTags.SanitizeImageName | src/data/image_tags.rs:69-99 | the scan with its two buffers computes the coerced name |
| ImageTags.SanitizedIsComponent | src/data/image_tags.rs:61-99 | for every input: empty or a word of the OCI grammar |
| ImageTags.SanitizedIdentity | src/data/image_tags.rs:65-68 | the identity on the grammar |
| ImageTags.SanitizedIdempotent | src/data/image_tags.rs:69-99 | applying it twice is applying it once |
| ImageTags.SanitizedKeepsAlnums | src/data/image_tags.rs:65-99 | never longer, and keeps the lowered letters and digits in order |
| ImageTags.SanitizedWord | src/data/image_tags.rs:69-99 | a name of letters and digits is lowered |
| ImageTags.SanitizedEdges | src/data/image_tags.rs:69-99 | nothing in front of the first letter or digit or behind the last is kept |
| ImageTags.SanitizedGap | src/data/image_tags.rs:69-99 | the gap between two words becomes itself where the grammar allows it and one hyphen otherwise, disallowed characters counting as hyphens |
| ImageTags.ImageNameIsValid | src/data/image_tags.rs:21-59 | every path, squad workspaces included, gives a valid image name |
| ImageTags.StemIs | src/data/image_tags.rs:46-119 | the slug of a squad workspace, otherwise the coerced folder name, otherwise `repo` |
| PromptTemplate.ExtractSection | src/data/workflow_prompt_template.rs:93-120 | returns what lies between the first heading of that name, of first or second level and up to case, white space and trailing colons, and the next heading of these levels, trimmed; none exactly without such a heading |
| PromptTemplate.LinesExactly | src/data/workflow_prompt_template.rs:95-96 | the lines of a text end at line feeds, which take a carriage return before them along |
| PromptTemplate.SectionExactly | src/data/workflow_prompt_template.rs:93-120 | the section computed from any lines is the one that stands in them |
| PromptTemplate.SectionMeans | src/data/workflow_prompt_template.rs:93-120 | and from any text |
| MarkdownSections.OnlySection | src/data/workflow_prompt_template.rs:90-92 | lines have at most one section of a name |
| PromptTemplate.CountOfSection | src/data/workflow_prompt_template.rs:90-120 | a section has no more of any character than its text |
| PromptTemplate.StopsWithoutMarkers | src/data/workflow_prompt_template.rs:46-50 | the loop stops exactly when no closed section marker is left |
| PromptTemplate.StepDecreases | src/data/workflow_prompt_template.rs:46-64 | when every section has fewer of some character than one marker, every turn lowers the number of that character |
| PromptTemplate.ScarceStops | src/data/workflow_prompt_template.rs:46-64 | then the loop stops on every text, within as many turns as the text has of that character |
| PromptTemplate.HeadingsDecide | src/data/workflow_prompt_template.rs:90-120 | that condition follows from the sections under the headings of the work item |
| PromptTemplate.ContentDecides | src/data/workflow_prompt_template.rs:90-120 | and from the content as a whole |
| PromptTemplate.NoItemStops | src/data/workflow_prompt_template.rs:46-64 | without a work item the loop stops on every text |
| PromptTemplate.UnpairedStops | src/data/workflow_prompt_template.rs:46-64 | the loop stops on every text if no section holds or can complete a pair of closing braces, or none of opening braces |
| PromptTemplate.SubstituteSections | src/data/workflow_prompt_template.rs:46-64 | on every text and work item on which the loop stops, it stops with no closed marker left, after finitely many turns from the input |
| SectionReferences.SectionRendered | src/data/workflow_prompt_template.rs:46-64 | a turn puts the section named, bare or in brackets, in place of the first marker, and nothing if there is none |
| PromptTemplate.SelfReferenceNeverStops | src/data/workflow_prompt_template.rs:46-64 | a section that starts with its own marker is rewritten for ever: the text after any number of turns, and no end |
| PromptTemplate.BoundIsSharp | src/data/workflow_prompt_template.rs:46-64 | sections with exactly as many of each character as a marker needs already let the loop run for ever |
| SectionReferences.TidyConcat | src/data/workflow_prompt_template.rs:46-64 | splicing text whose braces all belong to markers keeps them so, and the markers of both parts in order |
| SectionReferences.NamesHalt | src/data/workflow_prompt_template.rs:46-64 | replacing the first name by those it leads to uses all names up exactly when none leads to a cycle |
| SectionReferences.TidyStops | src/data/workflow_prompt_template.rs:46-64 | where all a text leads to is such text, the loop stops exactly when no section named leads to one that contains itself |
| SectionReferences.TidyItemStops | src/data/workflow_prompt_template.rs:46-64 | a work item of such sections, none of which contains itself, can be rendered into every such text |
| PromptTemplate.ReplaceToken | src/data/workflow_prompt_template.rs:78-88 | the loop computes the leftmost replacement of every occurrence |
| PromptTemplate.ReplaceAllReplaces | src/data/workflow_prompt_template.rs:78-88 | input and output are the same token-free pieces joined by token and value |
| PromptTemplate.PaddedIs | src/data/workflow_prompt_template.rs:31-32 | the padded number is the number behind zeros, at least four characters long |
| PromptTemplate.NumberRendered | src/data/workflow_prompt_template.rs:30-34 | the number token gives way to the padded number, and to nothing without a work item |
| PromptTemplate.BareRendered | src/data/workflow_prompt_template.rs:35-39 | the bare token gives way to the number without padding |
| PromptTemplate.ContentRendered | src/data/workflow_prompt_template.rs:40-44 | the content token gives way to the content |
| PromptTemplate.SubstitutePrompt | src/data/workflow_prompt_template.rs:18-70 | the three tokens and then the section loop; warns exactly when a placeholder is used without a work item |

## Left out

- PromptTemplate.SubstituteSections: called where the source loop comes to an end, since it has no bound of its own. A condition on the input is exact where all braces a text leads to belong to section markers (`SectionReferences.TidyStops`) and sufficient for all others (`PromptTemplate.ScarceStops`, `PromptTemplate.UnpairedStops`), where turns can splice fragments into new markers.
- CommandLifecycle.OneWinner: workers, enqueuing, requeuing and session closing are taken to write only unfinished rows; `complete_command` in `src/data/fs/api_db.rs` has no guard of its own, so for a worker this rests on its owning the running row. The completion of rows nobody owns is modelled.
- CommandLifecycle.TerminalIsFinal: speaks of a row until a purge of its session deletes it.
- SessionSetup.SessionSetup.Run: writes to the session row are taken to succeed; the source ignores their errors. Stage-change events, log lines and the stored ready summary are not traced.
- SessionCreate.Validate: canonicalization and allowlisting of a local workdir and Unicode lower-casing are function parameters.
- SessionSetup.SummaryComesLast: of the ready engine only the order of its reports and how its steps end are modelled, not the image work inside a step.
- WorkflowState: timestamps, identifiers, attempts counters beyond their pruning, and the setup and teardown phases of a workflow.
- Stages: the mapping of stage indices to step names in `WorkflowState::stages`, which only looks names up.
- ImageTags: the per-agent tag, whose agent part is not validated in this file, and the repository hash.
- EventReplay: JSON parsing of log lines and the live part of a stream.
- SQL, serialization, file formats, git, containers, the ready engine and the workflow engine itself.
