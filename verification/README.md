# Verification model of project-governance

The repository installs and runs a governance runtime inside other people's repositories. This project models the
parts of it that carry state, order or arithmetic, and proves what they promise.

| Files | What they model |
|---|---|
| `StartupState.dfy`, `StartupSteps.dfy`, `StartupTrails.dfy`, `StartupTransaction.dfy` | One startup update: journal, runtime pointer, lock file and Git HEAD, written one at a time by a `Worktree` whose ghost `history` records every state that was ever on disk. A crash leaves one of those states. `StartupSteps` has the same update as single actions, and every history is a path of them. |
| `StartupProtocol.dfy`, `StartupSafety.dfy`, `StartupTheorems.dfy` | Every interleaving of readers, task events, updaters, recoverers and enablers with crashes between any two writes; an invariant of all reachable states, and what follows from it. |
| `StartupEntry.dfy` | When each operation of the protocol can begin, and what an event writes, spelled out. |
| `StartupReaders.dfy`, `StartupRuns.dfy` | Which environment a command runs that was let in, and concrete runs: a whole update, conversions, commands beside them, and a late commit. |
| `DependencyOrder.dfy`, `Packs.dfy`, `Configuration.dfy`, `Planning.dfy`, `PackExecution.dfy`, `Execution.dfy` | Replacement rules of check packs, dependency closure, layered order, the plan for a change, and its execution down to the processes of single commands. |
| `DependencyDefects.dfy`, `DependencyRatchet.dfy`, `DependencyFreshness.dfy` | Dependency coordinates and defects, the ratchet over a history of versions, and the freshness gate. |
| `WorkspaceGlobs.dfy` | The compiler from workspace globs to regular expressions. |
| `SourceUnits.dfy` | Measuring source units without their nested units. |
| `KotlinUnits.dfy` | A corollary of that and of `KotlinSource.dfy`: what measuring the types found in a Kotlin text would amount to. The program measures Python and TypeScript extents. |
| `StreamScanning.dfy` | Detector and private-term search over streams read in pieces of any size. |
| `KotlinSource.dfy` | Blanking comments and literals in place, tokens, and extents of declarations. |
| `Dispositions.dfy` | Transitions between recorded maintainability decisions. |
| `ContextDelivery.dfy` | The allowances of one context session across failures and crashes. |
| `TelemetrySchema.dfy`, `Telemetry.dfy` | The projection of events onto stored fields, and the bounded store. |
| `TextOrder.dfy`, `Digests.dfy`, `Results.dfy` | Sorted texts, digests, and results that may be errors. |

Code that changes things step by step is a method, with the class that holds the state where there is one; code made
of expressions is a function. Files, flocks, Git, clocks and processes are values of the model or parameters: a write
can fail without effect, a commit command can create the commit and still report failure, and a running process can
die between any two writes, which releases its locks. Digests are injective, so a digest is the value it was taken of.

`dafny verify dfyconfig.toml` checks everything.

## What the code does not do

These are properties that one might expect and that the code does not have. Each is proved as a concrete case, beside
the exact condition under which the property holds where there is one.

- A command that `runtime_reader` lets in need not run the active runtime. The check compares the resolved `sys.prefix`
  with the resolved pointer path, so for a command started through `.governance/runtime`, as every hook event is
  (`src/project_governance_runtime/assets/tools/governance-startup.py:22-26`), it compares the pointer with itself and
  never refuses. `StartupReaders.ReaderRunsActiveExactlyWhen` gives the condition: a command started from a generation's
  path always runs the active environment; one started through the pointer does exactly when no update or conversion has
  completed since it started, or, if it loaded the candidate of an update under way, exactly when the last that has
  completed led to that candidate. `StartupRuns.StaleReaderAfterUpdate` and `StartupRuns.StaleReaderAfterConversion` are
  runs in which it does not.
- A reader can be inside while the runtime is missing: `runtime_reader` looks at the update journal only, and a stopped
  conversion of a runtime directory leaves `enable.json`. `StartupRuns.ReaderInsideLostRuntime` gives the run;
  `StartupTheorems.ReaderSeesMatchingRuntime` shows that otherwise the active runtime is always the committed lock's.
  `recover` does not repair it (`StartupTheorems.LostRuntimeStaysLost`).
- The commit command of an update runs in a session of its own
  (`src/project_governance_runtime/startup_installation.py:79-94`), so it can outlive a killed updater and make its commit
  after a recovery. That is safe exactly while a journal is there that accepts the commit
  (`StartupTheorems.LateCommitIsSafeExactlyWhen`); `StartupRuns.LateCommitAfterRecovery` is a run in which recovery has
  restored and retired everything before it.
- `_restore` compares the recorded work with the worktree after its writes, not before:
  `StartupTransaction.Worktree.Restore` states that disturbed work makes it fail with lock and pointer already written.
- Reading in pieces can hide a private key, because its label is unbounded and the kept tail is 128 bytes.
  `StreamScanning.EveryCutAgreesExactlyWhen` gives the condition for every content and every detector: all cuts report
  what the content holds exactly when it holds nothing or a match of at most 129 bytes; for a key, a label of at most 101
  bytes (`StreamScanning.LabelLimit`). With the full reads of a buffered stream the condition is
  `StreamScanning.FullReadsReportExactlyWhen`, and `StreamScanning.StraddlingKeyIsMissed` gives a missed key.
- The approval date is not among the fields that an exactly kept waiver must keep, so two accepted edits between valid
  registries can move a review date back: `Dispositions.KeptWaiverCanBeBackdated`, and `Dispositions.ReviewDatesGrow`
  for the condition.
- The sizes of the types of a file need not add up to the lines they cover. `SourceUnits.SizesSumExactlyWhen` gives the
  condition for every list of types: they do exactly when each line that two types share, neither nested in the other,
  is taken by a type nested in one of them. Equal extents break it unless nested types take all their lines
  (`SourceUnits.EqualTypesCountTwice`), and so do two types that meet on one line
  (`SourceUnits.SharedBoundaryCountsTwice`). Such types come from the TypeScript adapter, which measures declarations
  wherever they stand on a line (`src/project_governance_runtime/checker_scripts/typescript-maintainability.cjs:36-37`);
  two Python classes cannot share a line unless one is nested in the other. For types in source order `SourceUnits.SizesExceedUnionBySurplus` bounds
  the excess.

## Model

| member | source | states |
|---|---|---|
| `StartupState.CommittedHead` | src/project_governance_runtime/startup_transaction.py:34-42 | HEAD is accepted exactly when it is the original commit or the one child that changes the lock, only the lock, to the candidate; it counts as committed exactly when it is not the original. |
| `StartupTransaction.Worktree.Activate` | src/project_governance_runtime/startup_installation.py:58-76 | An owned generation becomes active unless the write fails; anything else is refused, a real runtime directory is never replaced, and nothing else on disk changes. |
| `StartupTransaction.Worktree.CompleteReceipt` | src/project_governance_runtime/startup_transaction.py:76-83 | Only the journal's task, and only if its receipt still exists, is bound to the lock now on disk with the outcome. |
| `StartupTransaction.Worktree.CommitLock` | src/project_governance_runtime/startup_git.py:112-132 | HEAD moves, if at all, from the recorded branch, HEAD and work with the candidate lock on disk; success means that HEAD is the one child changing only the lock. A failure report may come with that commit, with another one that hooks made of it, or with none. |
| `StartupTransaction.Worktree.Restore` | src/project_governance_runtime/startup_transaction.py:45-73 | HEAD never moves. A foreign branch, HEAD, lock or pointer is refused with nothing written; otherwise every state passed through is the start, the start with the target lock, or that with the target pointer, and it succeeds exactly when both writes happened and the recorded work is undisturbed. |
| `StartupTransaction.Worktree.SwitchAndCommit` | src/project_governance_runtime/startup_transaction.py:157-180 | Every state on the way is recoverable, but for a commit that hooks made another one, after which nothing more is written; nothing is committed unless the new runtime passed doctor; it ends all new with the journal gone, or in flight. |
| `StartupTransaction.Worktree.ActivateAndCommit` | src/project_governance_runtime/startup_transaction.py:157-194 | From all old: not started and unchanged, completed all new, restored all old, or recoverable; every state ever on disk in between is recoverable or settled, and a commit that hooks made another one is left with its journal; what it wrote, to its end or to such a commit, is a path of the protocol's actions; unless a write fails, an undisturbed update completes exactly when doctor passes and restores otherwise. |
| `StartupTransaction.Worktree.Recover` | src/project_governance_runtime/startup_transaction.py:86-111 | HEAD never moves; a recoverable update stays recoverable at every write, each write a step of the same restoration; a normal return has retired the journal with pointer and lock where Git says; a foreign HEAD stops it before any write, and any other foreign state is left as found; what it writes after taking over the journal is a path of the protocol's actions; unless a write fails, an undisturbed update is always recovered, wherever it was stopped, given that the committed runtime passes doctor. |
| `StartupTransaction.Worktree.Apply` | src/project_governance_runtime/startup_transaction.py:114-154 | Unless a write fails, an update is attempted exactly for an allowed task with an open receipt for this committed lock, an available eligible release, every other open receipt's owner identified and gone, and an owned generation of that release; otherwise only receipts change. |
| `StartupTransaction.ApplyReadyExactlyWhen` | src/project_governance_runtime/startup_transaction.py:114-154 | What an update must find, in full: assessment allowed, nothing interrupted, an open receipt bound to the lock on disk that offers a later release of the same major version, that lock committed, an owned active runtime and an owned installation of exactly that release, at most 4096 receipts, and every other open one of a host that is identified and gone. |
| `StartupTransaction.Worktree.OtherTasks` | src/project_governance_runtime/startup.py:53-70 | Unless a write fails, reserves exactly when no more than 4096 receipts exist and every other open receipt's owner is identified and gone, by closing those receipts; an owner that is unknown or still there refuses it; no other receipt changes. |
| `StartupTransaction.Worktree.ConvertDirectory` | src/project_governance_runtime/startup_integration.py:126-167 | Every state between the first and the last write is a recognizable conversion in flight; success changes the pointer alone. |
| `StartupTransaction.Worktree.RecoverEnable` | src/project_governance_runtime/startup_integration.py:170-191 | Ends a conversion exactly where the pointer is the old directory or the new generation and the lock has not changed; a missing runtime stays interrupted. |
| `StartupTransaction.RestoreFromInFlight` | src/project_governance_runtime/startup_transaction.py:45-73 | Every state an update can leave on its branch is accepted by restoring, and stays such a state at every write of it. |
| `StartupTransaction.RecoveredIsAllOldOrAllNew` | src/project_governance_runtime/startup_transaction.py:86-111 | A finished recovery is all new exactly when the update's commit existed, all old otherwise, never both, and settled. |
| `StartupTransaction.RestoreConverges` | src/project_governance_runtime/startup_transaction.py:86-111 | However many recoveries were stopped, each having rewritten the journal, the next is accepted, aims at the same lock and environment, HEAD has not moved, and once they are reached lock and pointer change no more. |
| `StartupTransaction.TakingOver` | src/project_governance_runtime/startup_transaction.py:98-103 | Rewriting owner and phase in the journal changes neither whether an update is recoverable nor what its recovery does. |
| `StartupSafety.UpdateStepIsSafe` | src/project_governance_runtime/startup_transaction.py:157-194 | Each action of an update or recovery, successful or failing, goes from its point to the next one named in the code and leaves the disk settled or recoverable. |
| `StartupTrails.RestoreFollows` | src/project_governance_runtime/startup_transaction.py:45-73 | What `_restore` wrote, however far it came, and what it returned are those of the actions from its check on, whether an update or a recovery called it. |
| `StartupTrails.RetireFollows` | src/project_governance_runtime/startup_transaction.py:76-83 | Completing the receipt and removing the journal, or either failing, is a path of the same actions for an update and for a recovery. |
| `StartupTheorems.FollowedHistoryIsSafe` | src/project_governance_runtime/startup_transaction.py:86-194 | Each state that a path of these actions has put on disk is settled or recoverable; so is the history of each update and recovery of a worktree, which is such a path. |
| `StartupSafety.InvPreserved` | src/project_governance_runtime/startup_state.py:98-113 | Every action of every process, and every crash, keeps the invariant: disk at rest or recoverable, flocks exclusive, and what each running process knows still true. |
| `StartupSafety.InvHolds` | src/project_governance_runtime/startup_state.py:98-113 | The invariant holds in every state of every run. |
| `StartupTheorems.CrashSafety` | src/project_governance_runtime/startup_transaction.py:157-194 | In every reachable state there is no journal and pointer, lock and committed lock agree, or the journal accounts for each of pointer, lock and HEAD and restoring is accepted, or a conversion's journal accounts for the pointer and the lock. |
| `StartupTheorems.JournalRetiredAsGitDecided` | src/project_governance_runtime/startup_transaction.py:86-111 | A journal disappears only in a settled state: previous runtime and old lock when HEAD is the original commit, and otherwise candidate runtime and lock under the child commit that changes the lock alone. |
| `StartupTheorems.HistoryNeverRewritten` | src/project_governance_runtime/startup_transaction.py:45-73 | Over every run, later HEADs descend from earlier ones. |
| `StartupTheorems.NoReaderDuringChange` | src/project_governance_runtime/runtime_access.py:39-64 | When pointer or lock changes, no ordinary reader is inside before or after the write. |
| `StartupTheorems.ReaderSeesMatchingRuntime` | src/project_governance_runtime/runtime_access.py:39-64 | While a reader is inside there is no journal, the lock on disk is the committed one, and the active runtime is installed from exactly that lock, unless a stopped conversion has renamed it away; what was loaded from a generation's path is the active runtime. |
| `StartupEntry.ReaderEntersExactlyWhen` | src/project_governance_runtime/runtime_access.py:50-58 | A command gets the shared lock exactly when no updater, recoverer or converter holds the exclusive one. |
| `StartupEntry.ReaderIsAdmittedExactlyWhen` | src/project_governance_runtime/runtime_access.py:59-63 | It is let in exactly when there is no journal and, loaded from a generation, it is the active one. |
| `StartupEntry.ReaderJoinsExactlyWhen` | src/project_governance_runtime/runtime_access.py:22-37 | A process joins a transaction exactly with the journal's token, after the switch and while its updater lives. |
| `StartupReaders.ReaderRunsActiveExactlyWhen` | src/project_governance_runtime/runtime_access.py:39-64 | A reader inside that was loaded from a generation's path runs the active environment. One loaded through the pointer does exactly when no switch has completed since it started; or, if it started on the candidate of an update under way, exactly when the last completed switch led to it. |
| `StartupReaders.DecisionHistory` | src/project_governance_runtime/startup_transaction.py:86-194 | Along a run, what a worktree is committed to changes exactly with each completed switch, only to a later release or from a directory to a pointer, and never returns. |
| `StartupReaders.WasLaunched` | src/project_governance_runtime/assets/tools/governance-startup.py:22-26 | Whatever a process has loaded, it loaded at its start; through the pointer, what the pointer led to then. |
| `StartupRuns.StaleReaderAfterUpdate` | src/project_governance_runtime/startup_transaction.py:114-194 | From any bootstrapped worktree with a pointer and an eligible release there is a run of a whole update, from a task's first event to a settled new commit, after which a command started before it through the pointer is let in and runs the previous environment. |
| `StartupRuns.StaleReaderAfterConversion` | src/project_governance_runtime/startup_integration.py:126-167 | The same after a whole conversion of a runtime directory. |
| `StartupTheorems.NoReaderBeforeRecovery` | src/project_governance_runtime/runtime_access.py:39-64 | Between an interruption and the next reader inside there is a step that retired the journal in a settled state. |
| `StartupTheorems.EntryNeedsSettledUpdates` | src/project_governance_runtime/startup.py:73-110 | While a process holds the update's locks no reader is admitted and no event registers, and no event would be let in, whatever runtime it was loaded from; so each must wait. |
| `StartupEntry.EventIsServedExactlyWhen` | src/project_governance_runtime/startup.py:99-110 | A task's event is registered exactly when an ordinary command would be let in now, and otherwise is told to wait; never both. |
| `StartupEntry.RegistersAs` | src/project_governance_runtime/startup.py:113-141 | What a registered event writes, by what was there before: a task keeps the lock it began with and needs approval when the lock is another now; an open one keeps its answer on a prompt or a start; only a first starting event looks for releases; nobody else changes. |
| `StartupEntry.WaitsAs` | src/project_governance_runtime/startup.py:103-110 | An event that must wait leaves an open receipt that says so, bound to the lock it was bound to before, or to none. |
| `StartupTheorems.UpdateReservesRuntime` | src/project_governance_runtime/startup.py:53-70 | While a task's update runs, every other open task was told to wait. |
| `StartupTheorems.UpdateBeginsAtFinalCheck` | src/project_governance_runtime/startup_transaction.py:139-154 | An update begins only with the final check under both locks, which found every other receipt closed or its owner identified and gone, from a settled disk whose branch, HEAD, work, lock and active runtime its journal records. |
| `StartupEntry.ApplyBeginsExactlyWhen` | src/project_governance_runtime/startup_transaction.py:114-138 | The first half of an update can happen exactly when no process updates, recovers or converts, nothing is interrupted, the task holds an open receipt for the lock with a later release of the same major version, is alone, and both runtimes are owned. |
| `StartupEntry.ReadersAreLockedExactlyWhen` | src/project_governance_runtime/startup_transaction.py:138-138 | Readers are excluded exactly when none is inside and nobody else excludes them. |
| `StartupEntry.FinalCheckPassesExactlyWhen` | src/project_governance_runtime/startup_transaction.py:139-154 | With readers excluded the update goes on exactly when receipt, reservation, committed lock, release and active runtime are still what they were. |
| `StartupEntry.ApplyAgreesWithWorktree` | src/project_governance_runtime/startup_transaction.py:114-154 | The protocol's update and `StartupTransaction.Worktree.Apply` begin under the same conditions, but for the number of receipts and the committed lock, which the protocol leaves to the loop and to the final check. |
| `StartupEntry.RecoveryBeginsExactlyWhen` | src/project_governance_runtime/startup_transaction.py:86-92 | Recovery begins exactly when nobody updates, converts, recovers or reads. |
| `StartupEntry.TakesOverExactlyWhen` | src/project_governance_runtime/startup_transaction.py:89-103 | It goes on unless a journal is there and HEAD is neither its original commit nor the child that changes the lock alone. |
| `StartupEntry.ConversionBeginsExactlyWhen` | src/project_governance_runtime/startup_integration.py:126-167 | A runtime directory is converted exactly when nobody is about, nothing is interrupted, and another, owned installation of its lock is ready. |
| `StartupTheorems.WaitingTaskNeverApplies` | src/project_governance_runtime/startup_transaction.py:20-31 | A task whose first receipt was written while waiting keeps no lock digest for ever and so never applies. |
| `StartupTheorems.DiscoveryAtMostOnce` | src/project_governance_runtime/startup.py:113-141 | Over every run each task begins release discovery at most once. |
| `StartupTheorems.LostRuntimeStaysLost` | src/project_governance_runtime/startup_integration.py:170-191 | No action of the protocol brings back a runtime that a stopped conversion renamed away. |
| `StartupRuns.ReaderInsideLostRuntime` | src/project_governance_runtime/runtime_access.py:39-64 | A run in which a reader is inside while the runtime is missing. |
| `StartupTheorems.LateCommitIsSafeExactlyWhen` | src/project_governance_runtime/startup_installation.py:79-94 | A commit made after its updater was killed leaves a worktree at rest exactly when a journal is there that accepts it. |
| `StartupRuns.LateCommitAfterRecovery` | src/project_governance_runtime/startup_git.py:112-132 | An updater is killed at its commit command, a recovery restores all old and retires the journal, and the commit then made leaves a committed lock that is not the one on disk. |
| `DependencyOrder.DependencyClosure` | src/project_governance_runtime/planning.py:67-87 | Returns the least superset of the selection closed under dependencies, with each pack's sorted dependencies, or names a dependency that leaves the candidates. |
| `DependencyOrder.NoClosureWithinCandidates` | src/project_governance_runtime/planning.py:67-87 | When a reachable dependency is no candidate, no closed set of candidates contains the selection. |
| `DependencyOrder.ExecutionOrder` | src/project_governance_runtime/planning.py:90-104 | Fails exactly when the graph has a cycle; otherwise lists each pack once, by the length of its longest dependency chain and then by name. |
| `DependencyOrder.OrderIsTopological` | src/project_governance_runtime/planning.py:90-104 | Every dependency of a pack comes before it in such an order. |
| `DependencyOrder.LayerIsLongestChain` | src/project_governance_runtime/planning.py:90-104 | The layer of a pack is the length of its longest dependency chain. |
| `Configuration.LoadPacks` | src/project_governance_runtime/configuration.py:159-175 | A set of pack documents loads exactly when every document is valid and unique and every transfer of ownership is allowed, unique and not depended on. |
| `Configuration.ClaimReplacements` | src/project_governance_runtime/configuration.py:86-125 | One pack's claims are recorded exactly when it may own them and nobody claimed them before. |
| `Configuration.ReplacementClaims` | src/project_governance_runtime/configuration.py:128-143 | The claims of all packs in order, or a refusal exactly when some claim is not allowed or made twice. |
| `Configuration.ValidateReplacementDependencies` | src/project_governance_runtime/configuration.py:146-156 | Accepted exactly when no pack depends on a replaced one. |
| `Configuration.AcceptedExactlyWhen` | src/project_governance_runtime/configuration.py:86-156 | A set of packs is accepted exactly when each transfer is permitted by what the packs themselves say of name, status, enforcement and dependencies. |
| `Configuration.DocumentsExactlyWhen` | src/project_governance_runtime/configuration.py:57-83 | Documents are valid exactly when each has an id of its own and a command, and takes over nothing twice and nothing without a name. |
| `Configuration.MergedHolds` | src/project_governance_runtime/configuration.py:159-175 | With unique ids, every document's pack is in the merged set under its id. |
| `Planning.ReplacementMap` | src/project_governance_runtime/planning.py:58-64 | Maps each replaced built-in to its one replacement and nothing else. |
| `Planning.ImpactedSelection` | src/project_governance_runtime/planning.py:166-216 | Selects the packs that always run and the unreplaced ones that match a path; blocks for each path that nobody owns and each built-in whose replacement misses a path it matched. |
| `Planning.BuildPlan` | src/project_governance_runtime/planning.py:219-284 | A ready plan has no blocker, is the least closure of its selection, and lists it in topological order; a plan that is not ready has a blocking selection, a dependency outside the candidates, a stage without command, or a cycle. |
| `Planning.ReadyPlanSelects` | src/project_governance_runtime/planning.py:107-284 | A ready plan selects whatever the request calls for, named, unclaimed in the stage, always run, or matching a changed path, and the least closure of that; each selected pack is active at the stage, and a blocking one has a command for it. |
| `Planning.AllModeSelects` | src/project_governance_runtime/planning.py:134-148 | Without named packs, a ready plan of mode All selects a pack exactly when it is active, lists the stage, and no pack takes it over. |
| `Planning.NamedPacksBlock` | src/project_governance_runtime/planning.py:107-131 | Of named packs the blockers name exactly those that do not exist and exactly those that are not active at the stage; a ready plan selects all of them. |
| `Planning.CoverageGapBlocks` | src/project_governance_runtime/planning.py:151-163 | An impacted plan is blocked for a replaced built-in exactly when some changed path matches it and not its replacement. |
| `Planning.UnknownImpactBlocks` | src/project_governance_runtime/planning.py:166-216 | It is blocked for a changed path exactly when nobody owns the path and no such gap explains it. |
| `Planning.NoReplacedBuiltinRuns` | src/project_governance_runtime/planning.py:219-284 | Unless packs are named one by one, a ready plan over loaded packs selects no replaced built-in, not even as a dependency. |
| `Planning.ReplacementNeverWeakens` | src/project_governance_runtime/planning.py:151-216 | In a ready impacted plan, for each changed path and each active built-in matching it, the built-in is selected, or a pack that takes it over is, which matches the same path and is blocking if the built-in is. |
| `Planning.EveryPathIsOwned` | src/project_governance_runtime/planning.py:166-216 | In a ready impacted plan each changed path has a selected owner. |
| `PackExecution.NormalizedFindings` | src/project_governance_runtime/execution_commands.py:235-267 | Texts count as blocking or advisory with the verdict they come with, and records of unknown severity as blocking. |
| `PackExecution.NormalizedCommand` | src/project_governance_runtime/execution_commands.py:132-219 | A command fails exactly when its evidence holds a blocking finding, warns exactly when it holds an advisory one and does not fail, and has a failure kind exactly when it fails; a failed process or a broken envelope fails it. |
| `PackExecution.CleanExactlyWhen` | src/project_governance_runtime/execution_commands.py:132-202 | A command passes or does not apply exactly when its process ended with 0 and a valid envelope that declares no failure and holds only accepted, waived or suppressed records. |
| `PackExecution.OrdinaryExactlyWhen` | src/project_governance_runtime/execution_commands.py:132-219 | Its verdict is trusted exactly when the process ended by itself with 0 or 1 and a valid envelope, and a failure comes with a blocking finding. |
| `PackExecution.VerdictExactlyWhen` | src/project_governance_runtime/execution_commands.py:132-202 | Each of the four verdicts as a condition on exit code, termination and envelope. |
| `PackExecution.FailureKindExactlyWhen` | src/project_governance_runtime/execution_commands.py:205-219 | Which kind of failure is recorded, and that one is exactly when the verdict is failed. |
| `PackExecution.ExecutePack` | src/project_governance_runtime/execution_flow.py:264-356 | The loop over the commands, left at the first failure of a pack that fails fast, gives the evidence of trying them one after the other. |
| `PackExecution.PackTriesInOrder` | src/project_governance_runtime/execution_flow.py:288-306 | The evidence is that of the runnable commands in order: all, or up to the first failure of a pack that fails fast; the reason for ending is that of the last failure among them. |
| `PackExecution.PackPassedExactlyWhen` | src/project_governance_runtime/execution_flow.py:286-324 | A pack passes exactly when some command could run, each that could found the change packet intact before and after it and ended clean, and the evidence manifest, if any, is acceptable. |
| `PackExecution.PackFailedExactlyWhen` | src/project_governance_runtime/execution_flow.py:286-324 | It fails exactly when no command could run, one that could failed, or the manifest is refused. |
| `PackExecution.StopExactlyWhen` | src/project_governance_runtime/execution_flow.py:252-261 | It stops the run exactly when the manifest is refused, or a command that was reached found the packet changed or gave no trusted verdict. |
| `PackExecution.PassedIsTrusted` | src/project_governance_runtime/execution_flow.py:252-261 | A pack that passed never stops the run. |
| `PackExecution.ProcessFailureExactlyWhen` | src/project_governance_runtime/execution_flow.py:288-340 | A pack counts a process failure exactly when, among the commands that it came to, one could run, found the packet intact before it, and ended with another code than 0 or not by itself. |
| `PackExecution.ItemExactlyWhen` | src/project_governance_runtime/execution_flow.py:252-356 | Whether a pack stops the run, fails, or counts a process failure, as conditions on its processes and its manifest alone. |
| `Execution.RunPassesExactlyWhen` | src/project_governance_runtime/execution_flow.py:206-356 | A run passes exactly when in every pack of the order some command could run, every one that could found the packet intact and ended clean, and the manifest is acceptable: a statement about processes alone. |
| `Execution.RunFailsExactlyWhen` | src/project_governance_runtime/execution_flow.py:206-356 | A run fails exactly when a pack that ran stopped it, or failed and is blocking or had a command whose process failed, or a blocking pack was kept from running: of packs that ran, conditions on processes alone. |
| `Execution.ExecutePacks` | src/project_governance_runtime/execution_flow.py:206-249 | The loop's evidence, verdict, termination reason and blocked packs are those of visiting the packs one after the other until a diagnostic stop. |
| `Execution.TerminationIsLastReason` | src/project_governance_runtime/execution_flow.py:238-242 | A run ends for the reason of the last pack that ended early, and is completed when none did. |
| `Execution.EveryPackIsAccountedFor` | src/project_governance_runtime/execution_flow.py:206-249 | Each pack ran, or was blocked, or comes after an early stop, never two of these; an early stop is the last pack's diagnostic stop. |
| `Execution.RunsOnSoundDependencies` | src/project_governance_runtime/execution_flow.py:206-249 | With dependencies first in the order, a pack runs only if each direct dependency ran without failing. |
| `Execution.BlockedByFailures` | src/project_governance_runtime/execution_flow.py:214-229 | A pack is kept from running by exactly those of its direct dependencies that failed or were kept from running, and by at least one. |
| `Execution.PassedMeansAllPassed` | src/project_governance_runtime/execution_flow.py:206-261 | The verdict is "passed" exactly when every pack of the order passed without a diagnostic stop, and then all ran and none was blocked. |
| `Execution.FailedMeansSevere` | src/project_governance_runtime/execution_flow.py:206-261 | The verdict is "failed" exactly when the run was stopped, a pack failed severely, or a blocking pack was kept from running. |
| `Execution.PlannedRunIsSound` | src/project_governance_runtime/planning.py:219-284 | Running the order of a ready plan runs each pack only on sound dependencies. |
| `DependencyDefects.AppendManifestEntries` | src/project_governance_runtime/checker_scripts/dependency_extractors.py:102-136 | Each entry of a manifest group becomes exactly one coordinate, when name and version are exact, or exactly one defect. |
| `DependencyDefects.ReadManifest` | src/project_governance_runtime/checker_scripts/dependency_extractors.py:139-177 | Reading the groups one after the other, then pnpm and the package manager, gives the coordinates and defects of all of them; it fails exactly when a group or pnpm is no object, or pnpm has a dependency-bearing field that is not supported. |
| `DependencyDefects.ManifestExactlyWhen` | src/project_governance_runtime/checker_scripts/dependency_extractors.py:102-177 | For every manifest that can be read: its coordinates are exactly those of entries with an exact name and version and of a pinned package manager, its defects exactly those of the others; and when it can be read. |
| `DependencyDefects.LockExactlyWhen` | src/project_governance_runtime/checker_scripts/dependency_extractors.py:255-340 | For every package lock that can be read: a coordinate for exactly each row with an exact version, an accepted tarball and integrity, of that name, version and kind; a defect for exactly each field that is not; and when it can be read. |
| `DependencyDefects.WorkflowExactlyWhen` | src/project_governance_runtime/checker_scripts/dependency_extractors.py:564-631 | For every workflow without container images: a coordinate for exactly each action pinned to a full commit, a defect for exactly each other action from outside the repository. |
| `DependencyDefects.ExtractedDefectsAreKeyed` | src/project_governance_runtime/checker_scripts/dependency_extractors.py:90-99 | Every extracted defect carries the repair key that its identity determines. |
| `DependencyRatchet.ResolveCandidateChanges` | src/project_governance_runtime/checker_scripts/dependency_runner.py:180-221 | The changes are exactly those of the governed, readable records; the findings exactly unreadable images, and defects that the before-image did not have. |
| `DependencyRatchet.FaultedExactlyWhen` | src/project_governance_runtime/checker_scripts/dependency_runner.py:180-221 | A record is faulted exactly for a side that cannot be read, or for each defect identity that only the after-image has. |
| `DependencyRatchet.NeedsEvidenceExactlyWhen` | src/project_governance_runtime/checker_scripts/dependency_runner.py:166-221 | A coordinate needs evidence exactly when both sides can be read, only the after-image has it, no repaired defect of the same package and field excuses it, and it is not a workspace version. |
| `DependencyRatchet.DefectsNeverGrow` | src/project_governance_runtime/checker_scripts/dependency_runner.py:180-221 | Along any history of accepted versions the set of defect identities never grows. |
| `DependencyRatchet.RepairedKeyNeverReturns` | src/project_governance_runtime/checker_scripts/dependency_runner.py:166-221 | A repair key that disappeared never comes back. |
| `DependencyRatchet.RepairKeyExcusesOnce` | src/project_governance_runtime/checker_scripts/dependency_runner.py:166-221 | Each repair key excuses new coordinates in at most one step of a history. |
| `DependencyRatchet.IntroducedOrExcused` | src/project_governance_runtime/checker_scripts/dependency_runner.py:180-221 | Every coordinate new in the after-image is reported as introduced or excused by a repaired defect. |
| `DependencyFreshness.ValidatePolicy` | src/project_governance_runtime/checker_scripts/dependency_evidence.py:279-303 | The minimum age is at least fourteen days whatever the policy says, and a valid policy has the value it states. |
| `DependencyFreshness.IndexRecords` | src/project_governance_runtime/checker_scripts/dependency_evidence.py:159-189 | A registry is faulty exactly when it is unreadable, has a wrong envelope, or has an invalid or repeated record of a relevant coordinate; what it matches are exactly the relevant coordinates it records. |
| `DependencyFreshness.EvaluateCandidateChanges` | src/project_governance_runtime/checker_scripts/dependency_runner.py:224-275 | Each change has the status its coordinates earn, and exactly the coordinates without any record are reported. |
| `DependencyFreshness.StatusExactlyWhen` | src/project_governance_runtime/checker_scripts/dependency_runner.py:224-275 | Each of the six statuses as a condition on the coordinates of the change and on which of them are recorded and accepted. |
| `DependencyFreshness.Check` | src/project_governance_runtime/checker_scripts/dependency_runner.py:290-316 | The checker passes exactly when policy, time, profile and packet are sound, no record has findings, both registries are sound and every relevant coordinate is recorded. |
| `DependencyFreshness.CleanExactlyWhen` | src/project_governance_runtime/checker_scripts/dependency_runner.py:44-316 | The passing condition in full: a minimum age of at least fourteen days, both registries in order, record by record, nothing faulted, and a record for each coordinate that needs one. |
| `DependencyFreshness.FailClosed` | src/project_governance_runtime/checker_scripts/dependency_runner.py:180-275 | If the checker passes, each coordinate that only the after-image of a governed file has is excused by a repaired defect, local, at least fourteen days old when evaluated, or under a current operator override within the policy's maximum. |
| `DependencyFreshness.FailClosedForLockRows` | src/project_governance_runtime/checker_scripts/dependency_runner.py:180-275 | The same of package-lock rows: a sound row of a coordinate that no sound row had before is not accepted without one of these. |
| `WorkspaceGlobs.CompileParts` | src/project_governance_runtime/checker_scripts/dependency_workspaces.py:28-47 | The expression grown part by part is the concatenation of the parts' expressions. |
| `WorkspaceGlobs.CompilationPreservesMeaning` | src/project_governance_runtime/checker_scripts/dependency_workspaces.py:28-47 | The expression matches a directory exactly when the pattern does segment by segment. |
| `WorkspaceGlobs.GlobMeaning` | src/project_governance_runtime/checker_scripts/dependency_workspaces.py:28-47 | A normalized directory is a member under a pattern exactly when the pattern is accepted and its segments mean the directory's: stars stay inside a segment, hidden segments need an explicit dot, an inner `**` takes any number of segments and a final one at least one. |
| `WorkspaceGlobs.JoinOfSplit` | src/project_governance_runtime/checker_scripts/dependency_workspaces.py:28-47 | Joining what was split at slashes gives the text back. |
| `WorkspaceGlobs.PartedExactlyWhen` | src/project_governance_runtime/checker_scripts/dependency_workspaces.py:28-36 | Which patterns are accepted and with which parts: what is left without a leading `./` and the slashes at its end is not empty or absolute, has no unsupported character and no part that climbs. |
| `SourceUnits.MergedIntervals` | src/project_governance_runtime/checker_scripts/maintainability_source_units.py:153-161 | Sorted, disjoint, not adjacent, and covering the same lines. |
| `SourceUnits.SeparatedIsCanonical` | src/project_governance_runtime/checker_scripts/maintainability_source_units.py:153-161 | There is only one such list for a set of lines, so the order of the input does not matter. |
| `SourceUnits.ExclusiveSegments` | src/project_governance_runtime/checker_scripts/maintainability_source_units.py:164-176 | The segments are exactly the lines of the unit that no excluded extent covers. |
| `SourceUnits.SizeIsCardinality` | src/project_governance_runtime/checker_scripts/maintainability_source_units.py:217-219 | The size of a list of segments is the number of its lines. |
| `SourceUnits.TypeSegments` | src/project_governance_runtime/checker_scripts/maintainability_source_units.py:203-214 | A type's segments are the lines it covers and no type nested in it does. |
| `SourceUnits.InnermostOwns` | src/project_governance_runtime/checker_scripts/maintainability_source_units.py:203-214 | However types overlap, every covered line belongs to some type. |
| `SourceUnits.OwnerIsUnique` | src/project_governance_runtime/checker_scripts/maintainability_source_units.py:203-214 | Among distinct types that are nested or apart it belongs to no other. |
| `SourceUnits.SizesSumToUnion` | src/project_governance_runtime/checker_scripts/maintainability_source_units.py:203-219 | For such types the sizes of all types add up to the number of lines that types cover. |
| `SourceUnits.SizesAreUnionAndSurplus` | src/project_governance_runtime/checker_scripts/maintainability_source_units.py:203-219 | For every list of types the sizes exceed the number of covered lines by exactly the lines that a type owns after an earlier one. |
| `SourceUnits.SizesSumExactlyWhen` | src/project_governance_runtime/checker_scripts/maintainability_source_units.py:203-219 | For every list of types they are equal exactly when each line that two types share, neither nested in the other, is taken by a type nested in one of them. |
| `SourceUnits.EqualTypesCountTwice` | src/project_governance_runtime/checker_scripts/maintainability_source_units.py:203-219 | Among types that are nested, equal or apart they are equal exactly when no extent that occurs twice owns a line. |
| `SourceUnits.SharedBoundaryCountsTwice` | src/project_governance_runtime/checker_scripts/maintainability_source_units.py:203-219 | Two types of more than one line that meet on one line count it twice. |
| `SourceUnits.SizesExceedUnionBySurplus` | src/project_governance_runtime/checker_scripts/maintainability_source_units.py:203-219 | For types in source order the sizes are at least the covered lines, and exceed them by at most one line for each type that starts where an earlier one ends, and the lines of repeated extents. |
| `SourceUnits.Intersects` | src/project_governance_runtime/checker_scripts/maintainability_source_units.py:179-185 | True exactly when some changed line belongs to the segments. |
| `SourceUnits.SizeFindings` | src/project_governance_runtime/checker_scripts/maintainability_source_units.py:222-269 | Exactly the changed units whose own lines exceed the limit are reported, each with its own size. |
| `StreamScanning.StreamDetections` | src/project_governance_runtime/checker_scripts/check-security-policy.py:135-160 | Fails exactly when the stream ends before its declared size; otherwise consumes and digests exactly the declared bytes, reports exactly what some window shows, and for the AWS and GitHub detectors exactly what the whole content contains. |
| `StreamScanning.ChunkedScanIsWholeScan` | src/project_governance_runtime/checker_scripts/check-security-policy.py:135-160 | For every content and every cut: each report is a match of the whole, every match of at most 129 bytes is reported, and for the bounded detectors both agree. |
| `StreamScanning.FoundExactlyWhen` | src/project_governance_runtime/checker_scripts/secret_detectors.py:5-14 | Each detector finds exactly the contents that hold its bytes, which are spelled out for every detector. |
| `StreamScanning.GithubReportedExactlyWhen` | src/project_governance_runtime/checker_scripts/check-security-policy.py:135-160 | Under every cut, a GitHub token is reported exactly when some `ghp_` is followed by 36 alphanumerics. |
| `StreamScanning.AwsReportedExactlyWhen` | src/project_governance_runtime/checker_scripts/check-security-policy.py:135-160 | Under every cut, an AWS secret is reported exactly when the content has its name, closing marks, blanks and a separator, and then the forty characters of a secret. |
| `StreamScanning.EveryCutAgreesExactlyWhen` | src/project_governance_runtime/checker_scripts/check-security-policy.py:135-160 | For every content and detector: it is reported under every cut exactly when it has a match of at most 129 bytes, and so all cuts agree with the whole exactly when there is no match or such a match. |
| `StreamScanning.FullReadsReportExactlyWhen` | src/project_governance_runtime/checker_scripts/check-security-policy.py:144-157 | With full reads of 64 KiB a detector reports exactly when some match begins no more than 128 bytes before the read that brings its last byte. |
| `StreamScanning.BoundedFitsOverlap` | src/project_governance_runtime/checker_scripts/secret_detectors.py:5-14 | All detectors but the private-key one have a longest match, of at most 97 bytes. |
| `StreamScanning.MatchesInPiece` | src/project_governance_runtime/checker_scripts/check-security-policy.py:151-157 | A match depends only on the matched bytes, so searching a window is searching that part of the stream. |
| `StreamScanning.HeaderReported` | src/project_governance_runtime/checker_scripts/secret_detectors.py:6-6 | A key header after blanks is reported exactly when the last read began no later than 128 bytes into it. |
| `StreamScanning.LabelLimit` | src/project_governance_runtime/checker_scripts/secret_detectors.py:6-14 | Such a header is reported under every cut exactly when its label has at most 101 bytes. |
| `StreamScanning.StraddlingKeyIsMissed` | src/project_governance_runtime/checker_scripts/secret_detectors.py:6-14 | With full reads, a key whose label has from 102 bytes to 64 KiB is in the content and not reported when its header begins 129 bytes before the end of the first read. |
| `StreamScanning.StreamLeaks` | scripts/check-publication-clean.py:183-211 | The byte search for private terms reports exactly when the content is not empty and spells some term in any mixture of ASCII cases. |
| `StreamScanning.LeaksExactlyWhen` | scripts/check-publication-clean.py:183-211 | Which means that at some offset every byte of some term stands in one of its ASCII cases. |
| `StreamScanning.NoTermIsMissed` | scripts/check-publication-clean.py:190-207 | With the overlap chosen for the terms, windows show exactly the terms of the whole, whatever the cut. |
| `KotlinSource.BlankNonNewlines` | src/project_governance_runtime/checker_scripts/kotlin_source_parser.py:40-44 | Exactly the characters of the span that are no newlines become blanks, in place. |
| `KotlinSource.Sanitized` | src/project_governance_runtime/checker_scripts/kotlin_source_parser.py:64-81 | Ends on every text with exactly the characters inside comments and literals blanked. |
| `KotlinSource.CleanKeepsPositions` | src/project_governance_runtime/checker_scripts/kotlin_source_parser.py:64-81 | Length and newlines stay, and every character is kept or blanked. |
| `KotlinSource.CleanHasNoOpener` | src/project_governance_runtime/checker_scripts/kotlin_source_parser.py:64-81 | No quote and no comment opener is left. |
| `KotlinSource.CleanFixesExactlyCleanTexts` | src/project_governance_runtime/checker_scripts/kotlin_source_parser.py:64-81 | Exactly the texts without openers are left alone, so sanitizing is idempotent. |
| `KotlinSource.CleanBlanksSpans` | src/project_governance_runtime/checker_scripts/kotlin_source_parser.py:47-81 | Exactly the comments and literals are blanked: a line comment up to its newline, a block comment and a literal up to the first closing mark, or to the end of the text without one. |
| `KotlinSource.SpansAreUnique` | src/project_governance_runtime/checker_scripts/kotlin_source_parser.py:64-81 | No text has two such lists of comments and literals. |
| `KotlinSource.TokensPartition` | src/project_governance_runtime/checker_scripts/kotlin_source_parser.py:84-90 | Tokens are in order, do not overlap, and together hold exactly the characters that are no space. |
| `KotlinSource.TokensAreSource` | src/project_governance_runtime/checker_scripts/kotlin_source_parser.py:84-90 | Each token is the original text at its offset, on its line, and lines never decrease. |
| `KotlinSource.TokensAreWhole` | src/project_governance_runtime/checker_scripts/kotlin_source_parser.py:84-90 | A token is one mark, or a word that no further word character adjoins. |
| `KotlinSource.LineCountsNewlines` | src/project_governance_runtime/checker_scripts/kotlin_source_parser.py:84-90 | A line number is one more than the newlines before the offset. |
| `KotlinSource.BodyExtent` | src/project_governance_runtime/checker_scripts/kotlin_source_parser.py:103-128 | The header ends at the first delimiter, unless a closing brace or keyword comes first; the body ends at the delimiter, or for a block at the first token that closes its brace, or at the last token when there is none. |
| `KotlinSource.BlocksNest` | src/project_governance_runtime/checker_scripts/kotlin_source_parser.py:120-128 | A block that opens inside another closes inside it. |
| `KotlinSource.FunctionNameAndParen` | src/project_governance_runtime/checker_scripts/kotlin_source_parser.py:131-153 | Found exactly when the search outside angle brackets stops at a parenthesis with a name before it; gives that parenthesis and the last such name. |
| `KotlinSource.LastNameIsLast` | src/project_governance_runtime/checker_scripts/kotlin_source_parser.py:131-153 | The name chosen is a name, and no name comes after it before the parenthesis. |
| `KotlinSource.ClosingParenthesis` | src/project_governance_runtime/checker_scripts/kotlin_source_parser.py:156-166 | Finds the first token that closes what the opening one opened, or the last token. |
| `KotlinSource.FunctionDeclaration` | src/project_governance_runtime/checker_scripts/kotlin_source_parser.py:169-189 | The named function at a keyword, if there is one: its line, extent, offset, and a signature that runs to the parenthesis closing its parameters. |
| `KotlinSource.FunctionIsNamed` | src/project_governance_runtime/checker_scripts/kotlin_source_parser.py:131-189 | The keyword declares a function exactly when the search outside angle brackets stops at a parenthesis, with a name before it. |
| `KotlinSource.FunctionRecords` | src/project_governance_runtime/checker_scripts/kotlin_source_parser.py:169-189 | All that is recorded of it: name, lines, offset, signature up to the parenthesis that closes its parameters, extent of the body behind that, and public exactly without a restricting modifier. |
| `KotlinSource.TypeDeclaration` | src/project_governance_runtime/checker_scripts/kotlin_source_parser.py:192-210 | The named type at a keyword, if a name follows it, with its extent. |
| `KotlinSource.TypeExactly` | src/project_governance_runtime/checker_scripts/kotlin_source_parser.py:192-229 | A type is declared exactly at `class`, `interface` or `object` with a name behind it, and all that is recorded of it. |
| `KotlinSource.DeclarationPrefix` | src/project_governance_runtime/checker_scripts/kotlin_source_parser.py:93-100 | Exactly the words between a keyword and the last boundary before it, so a declaration is restricted exactly when a restricting modifier stands there. |
| `KotlinSource.Declarations` | src/project_governance_runtime/checker_scripts/kotlin_source_parser.py:213-229 | The result is every declaration of the blanked text's tokens and nothing else. |
| `KotlinSource.DeclarationsAreLawful` | src/project_governance_runtime/checker_scripts/kotlin_source_parser.py:213-229 | For every text: line <= header end <= end for each declaration, in strictly increasing offsets, with exactly the declarations that some token begins. |
| `KotlinSource.DeclarationIsLawful` | src/project_governance_runtime/checker_scripts/kotlin_source_parser.py:169-210 | A header ends no earlier than its keyword, and a body no earlier than its header. |
| `KotlinSource.TypesNest` | src/project_governance_runtime/checker_scripts/kotlin_source_parser.py:192-210 | Two types are nested or apart as tokens, for every text, balanced or not. |
| `KotlinSource.TypeLinesNest` | src/project_governance_runtime/checker_scripts/kotlin_source_parser.py:192-229 | On lines they are nested or follow one another, sharing at most one line. |
| `Dispositions.ActiveRecords` | src/project_governance_runtime/checker_scripts/maintainability_dispositions.py:165-181 | Exactly the refactoring decisions and the waivers whose expiry is missing, unreadable, today or later. |
| `Dispositions.TransitionCandidates` | src/project_governance_runtime/checker_scripts/maintainability_dispositions.py:241-262 | Exactly the records that continue the old one by renamed identity or by named responsibility. |
| `Dispositions.TransitionFindings` | src/project_governance_runtime/checker_scripts/maintainability_dispositions.py:336-387 | A key is reported exactly when an active record of that key has no sole, valid and proven continuation. |
| `Dispositions.AnsweredExactlyWhen` | src/project_governance_runtime/checker_scripts/maintainability_dispositions.py:241-387 | A record is answered for exactly when one record alone could continue it, and that one is a lawful, proven continuation, each condition by fields and dates. |
| `Dispositions.RefactoringIsNeverDropped` | src/project_governance_runtime/checker_scripts/maintainability_dispositions.py:314-387 | Along any chain of accepted edits a refactoring decision has one descendant in each registry, with its responsibility, until a reviewed acceptance. |
| `Dispositions.WaiversAreNeverLoosened` | src/project_governance_runtime/checker_scripts/maintainability_dispositions.py:265-387 | Along any chain an active waiver stays exact, or is replaced by a record superseding exactly its source with the source analysed, or resolved with the finding gone, until a day after its expiry date. |
| `Dispositions.ReviewDatesGrow` | src/project_governance_runtime/checker_scripts/maintainability_dispositions.py:265-311 | Review dates along such a line never fall exactly when no exactly kept waiver is backdated. |
| `Dispositions.KeptWaiverCanBeBackdated` | src/project_governance_runtime/checker_scripts/maintainability_dispositions.py:269-285 | Two accepted edits between registries that validation accepts, after which the review date of one waiver is earlier. |
| `Dispositions.SampleIsValid` | src/project_governance_runtime/defaults/schemas/quality-disposition.schema.json:14-103 | The records of that case meet the registry's schema and its rules for keys and paths. |
| `ContextDelivery.AllowancesNeverOverspent` | src/project_governance_runtime/context_delivery.py:83-143 | At every moment of every run with failures and crashes, requests sent, texts and bytes delivered are at most what the file records, which is at most the configured maximum; and one revision never names two packets. |
| `ContextDelivery.StepKeepsInv` | src/project_governance_runtime/context_delivery.py:83-143 | Every step of a session, and a crash after any of them, keeps the accounting. |
| `ContextDelivery.Select` | src/project_governance_runtime/semantic_context.py:79-128 | Records the whole pool when preflight passes, the pool can be read and the batch is handed over, nothing otherwise; at most the allowance is recorded and at most what is recorded is sent. |
| `ContextDelivery.Evaluate` | src/project_governance_runtime/jev.py:72-92 | A batch with a credential, a size within its bound and a body that fits is recorded in full whether it is answered, runs into the deadline or breaks; nothing else is recorded, and no more is sent than recorded. |
| `ContextDelivery.RecordedExactlyWhen` | src/project_governance_runtime/semantic_context.py:79-128 | The whole pool is recorded exactly when scoring is on and permitted, the pool is readable, not empty, within its bound and the allowance, and the batch is accepted; otherwise nothing. |
| `ContextDelivery.Work` | src/project_governance_runtime/jev.py:108-150 | The worker sends each payload at most once, and none at all when any payload of the batch holds a secret. |
| `ContextDelivery.Session.PacketFor` | src/project_governance_runtime/context_delivery.py:83-107 | A replay writes nothing and gives the stored packet exactly when it is current with unchanged sources; a resolution changes only the request count: by the whole reservation when it fails, by what was recorded when it ends. |
| `ContextDelivery.AllowanceIsGreatest` | src/project_governance_runtime/context_delivery.py:93-100 | A resolution is given the greatest number of requests that the pool's bound and the session's remaining requests permit. |
| `ContextDelivery.SpentExactlyWhen` | src/project_governance_runtime/context_delivery.py:83-107 | What an event spends: only a prompt to be resolved spends, the whole allowance if its resolution fails and what was recorded if it ends. |
| `ContextDelivery.Session.Submit` | src/project_governance_runtime/context_delivery.py:110-143 | A text is given exactly when the event is admitted, needs one, and has a complete packet with current sources within events and bytes; it is charged before it is given, under a new revision or replayed under its own. A prompt with a current packet changes nothing, and a failing event costs at most requests. |
| `ContextDelivery.UnchangedExactlyWhen` | src/project_governance_runtime/context_delivery.py:110-121 | Exactly a start that neither compacts nor resumes, and a prompt with a retained packet, no refresh requested and the same routing, get nothing. |
| `ContextDelivery.RefreshIsHeard` | src/project_governance_runtime/context_delivery.py:55-121 | A prompt after a refresh request is never passed over. |
| `ContextDelivery.DeliverableExactlyWhen` | src/project_governance_runtime/context_delivery.py:83-143 | A text can be given out exactly when routing is known, events and bytes are left for it, and its packet passed and has every source with the digest it had. |
| `ContextDelivery.AlteredIsWithheld` | src/project_governance_runtime/context_delivery.py:83-107 | None is given out when a source is missing or has another digest. |
| `ContextDelivery.Session.Refresh` | src/project_governance_runtime/context_delivery.py:55-62 | Only the refresh mark changes. |
| `ContextDelivery.Session.End` | src/project_governance_runtime/context_delivery.py:163-166 | The session's file is gone. |
| `ContextDelivery.SessionIsSafe` | src/project_governance_runtime/context_delivery.py:110-143 | Any session object is within its allowances at every moment it went through. |
| `TelemetrySchema.SanitizeEvent` | src/project_governance_runtime/telemetry.py:86-121 | Gathering fields one at a time gives exactly the projection onto the schema of the event's kind, or nothing when a required field is missing. |
| `TelemetrySchema.StartedKeeps` | src/project_governance_runtime/telemetry.py:86-146 | Every field of a stored start, with the value it keeps, and no other field. |
| `TelemetrySchema.TerminalKeeps` | src/project_governance_runtime/telemetry.py:86-146 | Every field of a stored end, among them the slowest packs, the known failure counts and the failed packs. |
| `TelemetrySchema.ReviewKeeps` | src/project_governance_runtime/telemetry.py:99-103 | A review is stored exactly with a run and a known disposition, and holds these two alone. |
| `TelemetrySchema.DecisionKeeps` | src/project_governance_runtime/skill_telemetry.py:15-33 | A skill decision is stored exactly with an identity, a known host, skill, choice and reason; every field it keeps. |
| `TelemetrySchema.BatchKeeps` | src/project_governance_runtime/skill_telemetry.py:15-48 | A test batch is stored exactly with an identity, a known host, skill and outcome; every field it keeps. |
| `TelemetrySchema.SanitizeIsIdempotent` | src/project_governance_runtime/telemetry.py:86-146 | Sanitizing a sanitized event changes nothing, whatever the event was. |
| `TelemetrySchema.PacksKeptTwice` | src/project_governance_runtime/telemetry.py:69-83 | The slowest ten pack summaries, sorted, are kept as they are the second time. |
| `TelemetrySchema.MergedIsSanitized` | src/project_governance_runtime/telemetry.py:217-224 | An older observation overlaid with a newer one of its kind needs no further sanitizing. |
| `Telemetry.BoundedRecords` | src/project_governance_runtime/telemetry.py:186-198 | Of the newest thousand records that fit the file at all, the longest end within the byte ceiling. |
| `Telemetry.ExistingRecords` | src/project_governance_runtime/telemetry.py:149-183 | The newest thousand of the lines in reach, each sanitized again with its time, unusable ones dropped. |
| `Telemetry.AfterNewlineIsEnd` | src/project_governance_runtime/telemetry.py:154-165 | In a file longer than the byte ceiling the lines in reach are the longest end below it. |
| `Telemetry.InReachIsEnd` | src/project_governance_runtime/telemetry.py:149-165 | A file of at most a mebibyte is read whole; of a longer one the longest end below that size. |
| `Telemetry.RereadingChangesNothing` | src/project_governance_runtime/telemetry.py:149-183 | Reading back what the store wrote gives the same records. |
| `Telemetry.Store.Append` | src/project_governance_runtime/telemetry.py:206-245 | From any store it wrote itself: accepted exactly when the event is storable, a review has its run, the record fits, and locking, reading and writing do not fail; then it is last, after the longest end of the others that fits; otherwise nothing changes. Both ceilings, the schema and one observation for each decision are kept. |
| `Telemetry.StampedIsWritten` | src/project_governance_runtime/telemetry.py:234-238 | A sanitized event with a time reads back as it was written. |
| `Telemetry.OthersStay` | src/project_governance_runtime/telemetry.py:217-227 | Records that are not the same observation all stay, in their order. |
| `Telemetry.NewEntry` | src/project_governance_runtime/telemetry.py:234-238 | An event that observes nothing observed before is stored with its own fields and the present time. |
| `Telemetry.RepeatedEntry` | src/project_governance_runtime/telemetry.py:217-227 | An observation made again keeps the time of the first and the fields it does not state again; what it states again replaces them. |

## Left out

- Outside writers during an update: other people commit and work only between updates, and never touch the lock.
- `StartupTheorems.CrashSafety`: the runs have no Git hooks that make the update's commit another one, which
  `StartupTransaction.Worktree.ActivateAndCommit` and `Recover` have, and no commit that outlives its updater, which
  `StartupTheorems.LateCommitIsSafeExactlyWhen` is about.
- `StartupTransaction.Worktree.CommitLock`: hooks that change anything on disk besides HEAD.
- `StartupTransaction.Worktree.ConvertDirectory`: the integration files written before the conversion begins.
- `StartupTheorems.DiscoveryAtMostOnce`: the events of one task do not overlap, because the host delivers the events of
  a session one after the other; with overlapping events of one task two first events could both register.
- `StartupTheorems.NoReaderDuringChange`: processes that join a transaction with its token are inside on purpose while
  it changes things, and are not readers in this claim.
- The protocol takes the loop of `other_tasks` as one step; the loop itself is `StartupTransaction.Worktree.OtherTasks`.
- The update lock that release discovery holds for a moment, the temporary names of atomic writes, and the settings
  and authority digests that `apply` compares again (they are part of the recorded work).
- The bootstrap script's own recovery of a stopped conversion is not part of this model.
- `Planning.ReplacementNeverWeakens`: a replaced built-in that always runs is not carried over by the code on paths
  it does not match, so coverage is claimed for matched paths only.
- `PackExecution.ExecutePack`: which argument list a command resolves to, counts of findings by state, durations and
  output texts; whether a command can run and how its process ends are given for each command, and an executable that
  cannot be started ends the whole run.
- Outputs of a plan that only explain it: selection reasons, omitted packs, replaced packs.
- YAML, JSON, JSON Schema, fnmatch and digest internals; documents are values, and fnmatch is a parameter.
- Maven, Python, pnpm and Yarn files enter the ratchet as sets of coordinates; npm manifests, package locks and workflow
  files are modelled down to their entries.
- `DependencyFreshness.IndexRecords`: whether a record's source address is authoritative is a field of the record.
- `SourceUnits.SizeFindings`: the name and first line of a finding, and the recorded decision that it is judged by.
- `StreamScanning.StreamLeaks`: the decoded-text search for workstation paths and case-folded terms beside the byte
  search; it can only report more.
- `KotlinSource.TokensPartition`: `\w` and `\s` are given classes with the stated minimum of letters and spaces.
- `Dispositions.TransitionFindings`: blank text means ASCII spaces, tabs and line ends; orphaned records and version-1
  migration are separate findings and not modelled.
- `ContextDelivery.Session.Submit`: the number of sessions kept at once, the text of the packet, and the private
  observation file.
- `Telemetry.ExistingRecords`: a last line without its newline, which the store never writes; UUID parsing is a
  parameter whose results are canonical.
- Windows, HTTP, pip, signals, command-line parsing, and the many shallow checkers (prose, commits, formats, names).
