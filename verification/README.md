# OpsFlux: verified models

A Dafny model of the parts of OpsFlux where correctness depends on many steps or many
rows, with proofs of what they guarantee. `dafny verify dfyconfig.toml` checks everything.

| modules | what they model |
|---|---|
| `WorkerPool`, `WorkerHistory`, `WorkerStatus`, `WorkerFaults` | the agent worker pool as a transition system: any number of worker processes over the run and worker tables, any interleaving, failing writes, kills and restarts; what holds over every execution |
| `AgentWorker` | one worker process as a program over the shared tables, interleaved with the others; every statement it runs is an enabled step of the transition system, in the order of the source |
| `MigrationGraph` | Alembic revision histories and the single-head audit |
| `LocaleTree`, `LocalePaths`, `LocaleDict`, `LocaleBackfill` | nested locale dictionaries, dotted paths, the in-place `setp`, the loop that fills English from French, and the coherence check |
| `LocaleScanner`, `LocaleRewriter`, `LocaleLiteral` | the hand-written scanner and string rewriter for TypeScript locale files, and what the emitted literals mean |
| `LocaleCatalog`, `LocaleDigest` | the seeder of the i18n tables, the hash row of each catalogue and the text it is hashed from |
| `WorkflowRuns`, `WorkflowTables` | the ADS, Planner and Voyage workflows, over runs of any length |
| `PermissionRename`, `RbacResolution` | the permission renaming of migration 119, and the permission resolver seen before and after it |
| `WorkflowSlugRename` | the workflow slug renaming of migration 119 |
| `PaxIdentity` | the person backfill of migration 073 and its checks |
| `PhoneDedup` | the phone de-duplication of migration 128 |
| `PaxLoad` | the `daily_pax_load` view |

## How to read the models

A table is a map from primary key to row, or a sequence where rows are only appended. An SQL
statement is a method that computes its result from the table as it was when the statement
started. Where a statement may pick any of several rows (an `UPDATE .. FROM` with several
matches, ties in `ORDER BY created_at`), the model may pick any of them too, and the results
hold for every choice.

In the worker pool one event is one statement, one commit, or one thing that happens to a
process. A write is `Applied`, `Lost` (done, but its acknowledgement was an exception) or
`Refused`. What Docker, the network and the clock do is an argument: a `Turn` says how one
pass of the main loop turns out and what the other processes do in each gap.

Dictionaries of the locale scripts are objects on the heap; a ghost map from path to object
ties them to a tree value. Trees compare without regard to insertion order, so results about
loops over them hold for every order.

## Where the code and its documentation disagree

The model follows the code.

- `scripts/seed_i18n.py` with FORCE: a value is rewritten whatever namespace its row has, since
  rows are unique by key and language only. A hash row goes stale when a later step of the run
  rewrites one of its rows (`LocaleCatalog.ForcedSeedExactly`). That no source key has a row
  under another namespace beforehand is not enough: two namespaces of one run sharing a key
  leave a stale hash even on empty tables (`LocaleCatalog.SharedKeyLeavesStaleHash`). The
  docstring of `alembic/versions/126_i18n_catalog.py` says the same key can live under
  different namespaces; its unique index does not allow it.
- The hash is taken of the lines "key=value" joined by newlines, and values may hold newlines,
  so two catalogues with the same keys can have the same text
  (`LocaleDigest.SameTextOfDifferentRows`), and a rewriting can go unseen
  (`LocaleCatalog.IntrusionUnseen`). When keys hold no newlines, this happens to a catalogue
  exactly when some value holds a newline followed by its own key or the next one and "="
  (`LocaleDigest.TextTellsExactly`, `LocaleCatalog.EveryIntrusionSeenExactly`).
- `scripts/seed_i18n.py`, single-quoted strings: the emitted JSON literal denotes the
  TypeScript string exactly when its only escape is `\'`; any other escape comes out as its
  two source characters (`LocaleLiteral.LiteralMeansTsString`). A string with a control
  character does not read back at all (`LocaleLiteral.LiteralReadsBack`).
- `app/core/rbac.py` documents group overrides as the lowest layer; in restrictive mode a
  group revocation takes away codes that roles and delegations grant
  (`RbacResolution.DocumentedOrderExactly`, `RbacResolution.GroupRevocationTakesARole`).
- `alembic/versions/119_finalize_packlog_permission_namespace.py` renames role, group and user
  rows but not the codes listed in delegations (`RbacResolution.DelegationsAreNotRenamed`,
  `RbacResolution.DelegationLosesACode`).
- `agent-worker/worker.py`: registering again under an old name leaves `current_run_id` set, and
  so does a commit whose acknowledgement is lost; the next claim then loses a run from the books
  (`WorkerHistory.ConservedExactly`, `WorkerFaults.RestartLosesARun`,
  `WorkerFaults.LostCommitLosesARun`). A released run may still be `running`, and a completed
  verdict may become a failed one, exactly as `WorkerStatus.ReleasedRunsExactly`,
  `WorkerStatus.OverturnedExactly` and `AgentWorker.LetGoRunningExactly` say
  (`WorkerFaults.LostReportFailsACompletedRun`, `WorkerFaults.LostLaunchLeavesARunRunning`,
  `WorkerFaults.RefusedCrashRecordLeavesARunRunning`).
- The fill-in loop of the i18n scripts may overwrite an English value that stands where a French
  path needs a dictionary, and leaves a gap where English has a dictionary, a number or a list
  at a French string's path (`LocaleBackfill.EnglishKeptExactly`,
  `LocaleBackfill.SeedingClosesTheGap`; inputs in `LocaleBackfill.EnglishOverwritten` and
  `LocaleBackfill.GapLeft`).
- `getp` and `setp` split a path at every dot, while `walk` does not escape the dots of a key and
  drops an empty first key, so `getp` looks for a walked leaf at its own path exactly when no key
  of the path has a dot and its first key is not empty, unless it is the only one
  (`LocalePaths.LeadsBackExactly`, `LocalePaths.WalkReadsBackExactly`). Otherwise it looks
  elsewhere, where it may find nothing, or another leaf, perhaps of the same value. The shipped
  `apps/main/src/locales/fr/common.json` has dotted keys (`ads.submitted` under
  `notifications.events`), and the loop stores a label for them although English has them
  (`LocaleBackfill.DottedKeyFilledAgain`). The check, which compares names, does not notice; what
  it reports is in `LocaleBackfill.GapClosedExactly` and `LocaleBackfill.SeedingClosesTheGapByName`.
- Nothing in the schema keeps one entity from having two workflow definitions with one slug;
  `WorkflowSlugRename.OneNewPerEntityExactly` says when migration 119 leaves one, and
  `WorkflowSlugRename.TwoOldBecomeTwoNew` is an input for which it does not.

## Model

| member | source | states |
|---|---|---|
| WorkerPool.StepKeepsInv | agent-worker/worker.py:137-178 | every event of every process keeps the pool's invariant: locked runs are pending, a held run is claimed under its holder's row and unreleased, no run is locked or held by two processes, the holder's place fixes the run's status, current_run_id names an unreleased run claimed under that row, and the totals count the released runs |
| WorkerPool.TargetsStayExclusive | agent-worker/worker.py:146-158 | SKIP LOCKED keeps any two processes from locking or holding the same run |
| WorkerPool.PlacesStayAgreed | agent-worker/worker.py:765-782 | although the UPDATEs look only at the id, a run's status always fits the place of the process that holds it |
| WorkerPool.CurrentStaysClaimed | agent-worker/worker.py:172-177 | current_run_id never names a pending or released run, nor one claimed under another row |
| WorkerPool.SumAfter | agent-worker/worker.py:819-825 | the completed totals over all worker rows count the released runs exactly, each once |
| WorkerHistory.ExecInv | agent-worker/worker.py:787-832 | every state reachable by any interleaving, faults and restarts included, satisfies the invariant |
| WorkerHistory.NoRunClaimedTwice | agent-worker/worker.py:137-178 | two claim commits of one history never claim the same run |
| WorkerHistory.NoRunHeldTwice | agent-worker/worker.py:137-178 | once a process commits its claim on a run, no other process locks or holds it at any later moment |
| WorkerHistory.ClaimedEverAfter | agent-worker/worker.py:161-171 | no later step writes 'pending' back or changes the worker a run was claimed under |
| WorkerHistory.DeficitMovesByDrift | agent-worker/worker.py:172-177 | exact book-keeping of every step under any faults: runs that left 'pending' minus completed totals minus current holders grows by one exactly at a claim over a set current_run_id, shrinks by one exactly at a release of a cleared row, and else stays |
| WorkerHistory.AtMostClaimed | agent-worker/worker.py:94-112 | in every reachable state, completed totals plus rows with current_run_id set are at most the runs that left 'pending', with equality if and only if every claimed run is released or is some row's current run |
| WorkerHistory.ConservedExactly | agent-worker/worker.py:161-177 | throughout a history completed totals plus current holders equal the runs that left 'pending' if and only if no claim of the history is committed by a worker whose current_run_id is still set |
| WorkerHistory.Conservation | agent-worker/worker.py:813-825 | when no name registers twice and no commit's acknowledgement is lost, the two are equal |
| WorkerHistory.RowsStayTidy | agent-worker/worker.py:94-112 | when no name registers twice and no commit's acknowledgement is lost, each worker row belongs to one process, and its current_run_id is exactly what that process holds |
| WorkerHistory.StatusStep | agent-worker/worker.py:711-727 | under any faults a step moves a run forward by at most one stage, except that the crash handler may turn a completed run into a failed one |
| WorkerHistory.StatusOnlyAdvances | agent-worker/worker.py:544-782 | when every write succeeds, between any two moments a run only advances along pending, preparing, running, completed or failed, and a verdict is final |
| WorkerHistory.ReleasedRunsAreSettled | agent-worker/worker.py:813-825 | when every write succeeds, a released run is completed, failed or preparing, never running; it is preparing if and only if its launch was never reached |
| WorkerHistory.FaultlessHistory | agent-worker/worker.py:659-727 | when every write succeeds, a run has reached 'running' or beyond if and only if its launch UPDATE was issued, and the crash handler only ever sees running runs |
| WorkerStatus.StatusExactly | agent-worker/worker.py:659-782 | after any history, whatever writes fail, a run has each status if and only if exactly the UPDATEs that lead to it reached the table |
| WorkerStatus.ReleasedRunsExactly | agent-worker/worker.py:813-825 | a released run is still running if and only if its launch reached the table and neither a report nor a crash record did; it is still preparing if and only if its launch did not |
| WorkerStatus.OverturnedExactly | agent-worker/worker.py:757-762 | a completed verdict becomes a failed one if and only if the acknowledgement of a successful report was lost and the crash record of the same process then reached the table |
| WorkerStatus.LetGoForGood | agent-worker/worker.py:819-825 | a claimed run that no process holds any more never changes again |
| WorkerFaults.RestartLosesARun | agent-worker/worker.py:103-107 | a run of kill, restart under the same name and claim after which one claimed run is neither counted nor current |
| WorkerFaults.LostCommitLosesARun | agent-worker/worker.py:801-804 | a run without restarts in which a lost commit acknowledgement makes the worker claim over its current_run_id |
| WorkerFaults.LostReportFailsACompletedRun | agent-worker/worker.py:757-762 | a run in which a completed run becomes failed because the acknowledgement of its report was lost |
| WorkerFaults.LostLaunchLeavesARunRunning | agent-worker/worker.py:668 | a run in which a released run stays 'running' because the acknowledgement of its launch was lost |
| WorkerFaults.RefusedCrashRecordLeavesARunRunning | agent-worker/worker.py:757-762 | a run in which the container fails, the crash record is refused and a released run stays 'running' |
| AgentWorker.Database.SelectOldestPending | agent-worker/worker.py:146-158 | the claiming SELECT returns a run that is pending and that no process has locked, with the earliest created_at among such runs, and nothing only when there is none |
| AgentWorker.Database.RegisterWorker | agent-worker/worker.py:94-112 | registration refreshes the row of that name, leaving current_run_id and the total, or adds one; every other row is unchanged |
| AgentWorker.Database.CommitClaim | agent-worker/worker.py:161-177 | the two UPDATEs of the claim are one Commit step, applied together or not at all: the run becomes preparing under the worker's row, the row busy with that run, and no other run or row changes |
| AgentWorker.Database.SetRunStatus | agent-worker/worker.py:765-782 | each unguarded status UPDATE is the Launch, Report or RecordCrash step of its holder; unless refused it gives that run that status and changes nothing else |
| AgentWorker.Database.ReleaseWorker | agent-worker/worker.py:818-825 | the release UPDATE is the holder's Release step, after which it polls again or shuts down; unless refused the worker's row becomes idle, without a current run and with one more in its total, and nothing else changes |
| AgentWorker.Database.SignOffWorker | agent-worker/worker.py:828-832 | the sign-off is the process's last step; unless refused the worker's row becomes offline with its other columns as they were, and no other row and no run changes |
| AgentWorker.ClaimNextRun | agent-worker/worker.py:137-178 | a claim locks the oldest eligible run and commits or aborts, leaving the worker in setup for that run or back at the poll; None is returned only when no run was eligible |
| AgentWorker.RunContainer | agent-worker/worker.py:544-762 | run_container takes exactly the steps its faults dictate, with the other processes' steps in between, always ends ready to release, and leaves the run with the status its faults dictate |
| AgentWorker.RunAndRelease | agent-worker/worker.py:813-825 | after a claim the run is let go once, with the status its turn dictates and under the worker's row, and nobody holds it; unless the release is refused the row is then idle without a current run; the loop ends exactly when an exit is propagating or the release raised |
| AgentWorker.LetGoRunningExactly | agent-worker/worker.py:668-762 | a run is let go still running if and only if its launch reached the table, and either was not acknowledged or neither a report nor a crash record reached the table |
| AgentWorker.LetGoCompletedExactly | agent-worker/worker.py:668-727 | a run is let go as completed if and only if its launch was acknowledged, its success reached the table and no crash record overwrote it |
| AgentWorker.LetGoFailedExactly | agent-worker/worker.py:668-762 | a run is let go as failed if and only if its launch was acknowledged and its failure reached the table, as a report or as a crash record |
| AgentWorker.LetGoPreparingExactly | agent-worker/worker.py:544-668 | a run is let go as it was claimed if and only if its setup failed or its launch never reached the table |
| AgentWorker.MainPass | agent-worker/worker.py:798-825 | one pass of the main loop claims the oldest pending run nobody had locked and lets it go with the status its turn dictates, under the worker's row, or there was no such run or the commit failed; each step of the worker in it was enabled |
| AgentWorker.MainLoop | agent-worker/worker.py:798-825 | the loop takes its turns in order and stops after the first that ends it; each pass taken claimed what it should, and the run it claimed still has the status its turn dictates when the loop is over |
| AgentWorker.WorkerMain | agent-worker/worker.py:787-832 | the worker goes through its passes in order, each claiming what it should and leaving it with the status its turn dictates, and ends in every case with its row offline unless the sign-off was refused; each of its steps was an enabled step of the pool's transition system, so the results on executions hold of the program |
| MigrationGraph.ParseMigration | scripts/audit_alembic_heads.py:23-53 | of each name the last assignment the parser understands wins, even one that resets it: the revision is a truthy constant, the parents a truthy constant or the truthy constants of a tuple or list; a name never so assigned stays None |
| MigrationGraph.ListedParents | scripts/audit_alembic_heads.py:42-52 | the parents of a tuple or list are those of its elements, in order |
| MigrationGraph.ListedParent | scripts/audit_alembic_heads.py:42-52 | an element is a parent if and only if it is a truthy constant |
| MigrationGraph.Audit | scripts/audit_alembic_heads.py:56-79 | a revision is in the map if and only if some file gives it with a parent list, and has the parents of the last such file; the heads are the revisions that the last file of no revision names as a parent; exit code 0 if and only if there is one |
| MigrationGraph.CollectedLast | scripts/audit_alembic_heads.py:57-61 | of several files with one revision the last one with a parent list gives its parents |
| MigrationGraph.MergedBranches | alembic/versions/097_merge_heads.py:8-9 | two branches joined by a revision that names both leave that revision as the only head |
| MigrationGraph.PathsAreShort | scripts/audit_alembic_heads.py:63-67 | in an acyclic history no path visits a revision twice or is longer than the history |
| MigrationGraph.EveryRevisionReachesAHead | scripts/audit_alembic_heads.py:63-67 | in an acyclic history every revision is a head or an ancestor of one |
| MigrationGraph.SingleHeadCovers | scripts/audit_alembic_heads.py:73-79 | in an acyclic history there is exactly one head if and only if some revision has every revision as itself or an ancestor, and that revision is the head |
| MigrationGraph.SomeHeadExists | scripts/audit_alembic_heads.py:67 | a non-empty acyclic history has a head |
| MigrationGraph.CycleHidesFromTheAudit | scripts/audit_alembic_heads.py:67-79 | acyclicity is needed: a map with a cycle and one head that covers only itself |
| MigrationGraph.AppendedHeads | scripts/audit_alembic_heads.py:4-7 | appending a fresh revision replaces the heads among its parents by itself |
| MigrationGraph.AppendKeepsAcyclic | scripts/audit_alembic_heads.py:63-67 | appending a fresh revision keeps a history acyclic |
| MigrationGraph.AppendCountsHeads | scripts/audit_alembic_heads.py:73-77 | the head count becomes heads minus merged heads plus one, so a fork off non-heads adds one |
| MigrationGraph.MergeLeavesOneHead | alembic/versions/097_merge_heads.py:8-9 | the new revision is the only head if and only if its parents include every old head |
| MigrationGraph.GrownHistory | scripts/audit_alembic_heads.py:56-79 | every history grown by appending is acyclic, and its heads number the revisions added less the heads they merged |
| LocaleTree.GetAfterSet | scripts/i18n_finalize.py:421-439 | what setp stored is read back, and paths neither above nor below read as before |
| LocaleTree.LeavesAfterSet | scripts/i18n_finalize.py:432-439 | setp adds its leaf and destroys exactly the other leaves above or below it |
| LocaleTree.LeavesArePrefixFree | scripts/i18n_finalize.py:412-418 | no leaf path of a tree is a prefix of another |
| LocaleTree.LeavesDetermine | scripts/i18n_finalize.py:412-418 | a tree without empty branches is determined by its leaves |
| LocalePaths.SplitJoin | scripts/i18n_finalize.py:415-433 | splitting undoes joining for dot-free keys |
| LocalePaths.JoinSplit | scripts/i18n_finalize.py:422 | joining undoes splitting on every string |
| LocalePaths.OntoInjective | scripts/i18n_finalize.py:415 | different paths of non-empty, dot-free keys get different dotted names |
| LocalePaths.LeadsBackExactly | scripts/i18n_finalize.py:412-422 | splitting the name walk gives a leaf leads back to the leaf's own path if and only if the path is addressable: no key has a dot, and the first key is not empty unless it is the only one |
| LocalePaths.Walk | scripts/i18n_finalize.py:412-418 | for any tree, walk yields each leaf once, with its value, named by its keys joined as the generator joins them |
| LocalePaths.Flatten | scripts/seed_i18n.py:146-154 | for any dictionary, _flatten has exactly the leaves' names, each with the text of a leaf so named; when every leaf has an addressable path each leaf has its own entry |
| LocalePaths.Getp | scripts/i18n_finalize.py:421-429 | getp returns what the split path leads to, and None for a missing path |
| LocalePaths.WalkedPathsReadBack | scripts/i18n_finalize.py:412-429 | getp looks for a walked leaf at its own path if and only if the path is addressable, and then returns exactly the walked value; walked paths are prefix-free |
| LocalePaths.WalkReadsBackExactly | scripts/i18n_finalize.py:412-429 | getp looks for every leaf of a tree where walk found it if and only if every leaf has an addressable path |
| LocalePaths.FoldStoresAll | scripts/i18n_finalize.py:432-439 | folding setp over pairwise incomparable paths stores exactly those leaves |
| LocalePaths.RebuildInAnyOrder | scripts/i18n_finalize.py:412-439 | folding setp over a tree's walked pairs, in any order, into an empty tree rebuilds the tree without its empty branches if and only if every leaf has an addressable path |
| LocaleDict.SetMakesRoom | scripts/i18n_finalize.py:435-438 | making the dictionaries on the way one by one is the same as storing at the full path |
| LocaleDict.Overwrite | scripts/i18n_finalize.py:439 | assigning one key of one dictionary object in place changes one entry of the tree the objects spell out, and nothing else |
| LocaleDict.Enter | scripts/i18n_finalize.py:436-438 | one round of setp's loop moves into the dictionary at the key, made first where nothing or a value was |
| LocaleDict.Setp | scripts/i18n_finalize.py:432-439 | setp in place turns objects that spell out a tree into objects that spell out the tree with the value stored at the split path, without aliasing |
| LocaleBackfill.GetpObject | scripts/i18n_seed_missing_en.py:26-34 | getp on the mutable dictionary agrees with the tree it spells out |
| LocaleBackfill.FillEntry | scripts/i18n_finalize.py:572-582 | one round stores the proposal made from the path and the French text exactly for a string whose path reads as None, and reports it as unmatched when there is no proposal; nothing else changes |
| LocaleBackfill.FillMissing | scripts/i18n_seed_missing_en.py:57-71 | for any French tree the loop in place ends with the tree the fill is specified to give; when every French leaf has an addressable path, each French string that getp found None for and that has a proposal, made from its name and text, has that proposal in English, English has no other new leaves, the unmatched names are those of the French strings found None for without one, and the count is the number of strings stored |
| LocaleBackfill.FillStoresProposals | scripts/i18n_seed_missing_en.py:63-71 | when every French leaf has an addressable path, the English leaves afterwards are the proposals at the missing French strings and otherwise old leaves |
| LocaleBackfill.LabelsTheName | scripts/i18n_seed_missing_en.py:69-70 | the label stored for a missing French string is made from its dotted name, whatever its text |
| LocaleBackfill.UnmatchedExactly | scripts/i18n_finalize.py:577-580 | a name is reported unmatched if and only if a French string has that name, getp found None there and there is no proposal |
| LocaleBackfill.FarFromFills | scripts/i18n_seed_missing_en.py:67-70 | a path neither above nor below any French string leads where it led before the loop |
| LocaleBackfill.OpenExactly | scripts/i18n_seed_missing_en.py:63-71 | after any number of rounds getp finds None at a path if and only if the last store at, above or below it was above it, or there was none and getp found None before the loop; so the entries the loop stores at are read off the tree before it |
| LocaleBackfill.LeavesAfterFill | scripts/i18n_seed_missing_en.py:64-71 | for any trees, the English leaves after the loop are exactly the values it stored at no path comparable to which it stored later, and the old leaves at, above or below which it stored nothing |
| LocaleBackfill.EnglishKeptExactly | scripts/i18n_seed_missing_en.py:64-71 | for any trees, every earlier English value survives if and only if no English leaf stands above a French string that has a proposal and none at one is null |
| LocaleBackfill.CoveredExactly | scripts/i18n_finalize.py:572-582 | for any trees, a path holds an English string afterwards if and only if it held one or the loop stored one there, and the loop stored nothing below it |
| LocaleBackfill.CoveredWhenSeparate | scripts/i18n_finalize.py:572-582 | when no French name is another one or a dotted beginning of another, a French string has an English one afterwards if and only if it had one, or getp found None and there was a proposal |
| LocaleBackfill.CountsTheMissing | scripts/i18n_seed_missing_en.py:63-73 | for any trees, the count reported is the number of entries the loop stores at; when no French name is another one or a dotted beginning of another, it is the number of French strings with a proposal whose path read as None before the loop |
| LocaleBackfill.CountByCardinality | scripts/i18n_seed_missing_en.py:63-73 | for addressable paths the count of missing entries is the number of French leaves that are strings, read as None and have a proposal |
| LocaleBackfill.CollectKeys | scripts/i18n_check.py:46-59 | for any tree, collect_json_keys returns exactly the names of the string leaves |
| LocaleBackfill.OnlyKeys | scripts/i18n_check.py:83-84 | the check's two differences are exactly the names one tree has and the other has not; when keys are non-empty and dot-free they are empty exactly when every string path of one tree is one of the other |
| LocaleBackfill.SeedingClosesTheGap | scripts/i18n_seed_missing_en.py:57-71 | when every French leaf has an addressable path, after the snake_case fill no French string lacks an English one at its path if and only if getp found a string or None at each of their paths before |
| LocaleBackfill.GapClosedExactly | scripts/i18n_check.py:46-83 | for any trees, the check's "FR keys without EN" is empty after the loop if and only if, for the name of every French string, some path so named held an English string or was stored at, and nothing was stored below it |
| LocaleBackfill.SeedingClosesTheGapByName | scripts/i18n_check.py:46-83 | with dotted keys, as long as no French name is another one or a dotted beginning of another: the check's "FR keys without EN" is empty after the fill if and only if, for every French string, getp found None or an English string of its name is out of the loop's way |
| LocaleBackfill.EnglishOverwritten | scripts/i18n_seed_missing_en.py:41-43 | English has a string where French has a dictionary: the loop stores over it |
| LocaleBackfill.GapLeft | scripts/i18n_seed_missing_en.py:67-68 | English has a dictionary where French has a string: the loop leaves the gap |
| LocaleBackfill.DottedKeyFilledAgain | scripts/i18n_seed_missing_en.py:67-71 | a tree with a dotted key for which the loop stores a label under a name English already has |
| LocaleBackfill.FillKeepsWellKeyed | scripts/i18n_seed_missing_en.py:70 | the filled tree again has non-empty, dot-free keys |
| LocaleScanner.FindObject | scripts/seed_i18n.py:54-84 | the matcher returns the first brace and the first position where the depth outside strings is back to zero, and fails only when there is no such position |
| LocaleScanner.ClosedOutsideStrings | scripts/seed_i18n.py:61-84 | a body found by the matcher ends outside strings |
| LocaleScanner.CutMatchesScanner | scripts/seed_i18n.py:61-81 | any cut of a body into characters outside strings and closed strings has exactly the matcher's in-string intervals |
| LocaleScanner.CleanExactly | scripts/seed_i18n.py:61-81 | the escape-flag scanner stays in a string to its end if and only if every quote of its kind before has an odd number of backslashes before it, and the end an even number |
| LocaleScanner.CutExactly | scripts/seed_i18n.py:61-81 | the scanner's cuts are exactly the cuts into characters that are no quotes and strings that end at their first quote of their kind with an even number of backslashes before it |
| LocaleScanner.ClosesBalanced | scripts/seed_i18n.py:61-84 | in the cut of a body the matcher found, outside strings opening braces outnumber closing ones in every proper beginning, and they are equally many in all |
| LocaleScanner.BalancedCloses | scripts/seed_i18n.py:61-84 | a body with such a cut ends where the matcher stops |
| LocaleRewriter.SkipString | scripts/seed_i18n.py:103-122 | skipping two characters at a backslash stops at the quote at which the escape-flag scanner leaves the string |
| LocaleRewriter.Rewrite | scripts/seed_i18n.py:97-131 | the rewriter ends at the body's length if and only if the body ends outside strings; then its output is one piece for each segment of the body's cut: the segment itself unless it is single-quoted, else a literal that reads back as a JSON string to the inner text; a body without single-quoted strings comes out as it is |
| LocaleRewriter.RewriteObject | scripts/seed_i18n.py:54-131 | the conversion fails only when no body from the first brace to the one that balances it exists; otherwise the output is that body with only its single-quoted strings replaced by literals that read back to their texts, and the rewriter's strings coincide with the matcher's in-string intervals |
| LocaleRewriter.CopiedUnchanged | scripts/seed_i18n.py:97-131 | a body without single-quoted strings comes out equal to itself |
| LocaleLiteral.LiteralReadsBack | scripts/seed_i18n.py:123-126 | read as a JSON string (RFC 8259, section 7) the emitted literal ends at its own last character and denotes the inner text after its \' replacement, if and only if that has no control character |
| LocaleLiteral.ReplacementsEscape | scripts/seed_i18n.py:125 | the two replacements in sequence escape every backslash and double quote exactly once |
| LocaleLiteral.ReplaceLaws | scripts/seed_i18n.py:113-126 | str.replace turns the first occurrence into the replacement, keeps what is before it and goes on with the rest |
| LocaleLiteral.ReplaceNothing | scripts/seed_i18n.py:113-126 | str.replace without an occurrence changes nothing |
| LocaleLiteral.LiteralMeansTsString | scripts/seed_i18n.py:113-127 | the literal denotes the TypeScript string it replaces if and only if the only escape in that is \', for every account of the other escapes |
| LocaleCatalog.RowAfterUpserts | scripts/seed_i18n.py:197-215 | after the inserts of one source, which rows exist, with which value and under which namespace, with and without FORCE |
| LocaleCatalog.LookupIsPair | scripts/seed_i18n.py:197 | a source has a value for a key if and only if it has that pair |
| LocaleCatalog.Tables.SeedLanguage | scripts/seed_i18n.py:189-243 | one language of one namespace: its rows upserted in order, then its meta row set to the hash and number of the rows of its language and namespace as the table now has them; nothing when the source is empty |
| LocaleCatalog.InCatalogue | scripts/seed_i18n.py:217-226 | a key is in the hashed catalogue if and only if the table has a row of that key, language and namespace, with that row's value |
| LocaleCatalog.NamespaceRow | scripts/seed_i18n.py:186-215 | after one namespace a row exists if and only if it did or a source of a registered language has its pair; it keeps its namespace, and without FORCE its value; a new row has the first value offered, and with FORCE every row offered one has the last |
| LocaleCatalog.NamespaceMetas | scripts/seed_i18n.py:187-242 | a catalogue has a meta row after one namespace if and only if it had one, or it is of that namespace and a source of its language, which is registered, is not empty |
| LocaleCatalog.OfferedFirstAndLast | scripts/seed_i18n.py:187-215 | whatever some source offers has a first and a last offer |
| LocaleCatalog.Tables.Seed | scripts/seed_i18n.py:248-272 | for any tables and sources with unique keys: a row exists afterwards if and only if it did or a mobile or app source of a registered language has its pair; a new row is of the mobile namespace if a mobile source offers it and of app otherwise, with the first value offered; with FORCE a row takes the last app offer, or else the last mobile one, and keeps its namespace; a catalogue gains a meta row if and only if a non-empty source of its namespace and registered language exists; and the number returned is that of the pairs of registered sources |
| LocaleDigest.PayloadTells | scripts/seed_i18n.py:226 | two catalogues with the same newline-free keys and the same joined text are the same if in one of them no value holds the separator before its own key or before the next one |
| LocaleDigest.TextTellsExactly | scripts/seed_i18n.py:226 | when keys hold no newlines, no other catalogue with the same keys has the same joined text if and only if no value holds the separator before its own key or before the next one, in key order |
| LocaleDigest.SameTextOfDifferentRows | scripts/seed_i18n.py:226 | two different catalogues with the same keys and the same text |
| LocaleCatalog.OtherCatalogue | scripts/seed_i18n.py:205-213 | a step changes another catalogue if and only if it rewrites one of its rows to a new value under FORCE |
| LocaleCatalog.DisturbsExactly | scripts/seed_i18n.py:226 | the text of another catalogue changes only if one of its rows is rewritten to a new value; and if one is, when the catalogue's text tells its rows before the step or after it |
| LocaleCatalog.EveryIntrusionSeenExactly | scripts/seed_i18n.py:205-226 | for a catalogue whose keys hold no newlines, every forced rewriting of one of its rows by another namespace changes its text if and only if no value holds the separator before its own key or before the next one |
| LocaleCatalog.ClearRunIsReadable | scripts/seed_i18n.py:197-226 | when no key a forced run starts from or is given holds a newline, and no value holds a newline followed by one of them and "=", every catalogue's text tells its rows when the run ends |
| LocaleCatalog.StepConsistentExactly | scripts/seed_i18n.py:217-242 | one step leaves every meta row matching its rows if and only if it changed the text of no other hashed catalogue; the only-if part for a hash function without collisions |
| LocaleCatalog.SeedWithoutForce | scripts/seed_i18n.py:186-272 | without FORCE a whole seed keeps every meta row right, changes no existing row and adds exactly the source keys that had no row in their language |
| LocaleCatalog.SeedWithForce | scripts/seed_i18n.py:186-272 | with FORCE a whole seed keeps every meta row right when no source key has a row under another namespace and no two namespaces of the run share a key |
| LocaleCatalog.ForcedSeedByText | scripts/seed_i18n.py:217-242 | with FORCE a whole seed keeps every meta row right if and only if the text of every hashed catalogue ends as it was when its hash was last taken; the only-if part for a hash function without collisions |
| LocaleCatalog.ForcedSeedExactly | scripts/seed_i18n.py:205-242 | with FORCE a whole seed keeps every meta row right when no row of a hashed catalogue is given a new value after the catalogue's hash was last taken; and when it keeps them right no row of a hashed catalogue was, if the catalogue's text tells its rows as last hashed or at the end, for a hash function without collisions |
| LocaleCatalog.IntrusionUnseen | scripts/seed_i18n.py:226 | two rows whose values hold a newline, rewritten by another namespace without the meta row ceasing to match |
| LocaleCatalog.SharedKeyLeavesStaleHash | alembic/versions/126_i18n_catalog.py:56 | a key shared by two namespaces with different values leaves a stale hash even on empty tables |
| LocaleCatalog.SeedTwice | scripts/seed_i18n.py:210-213 | seeding again without FORCE changes neither table |
| WorkflowRuns.RunIsBounded | alembic/versions/093_sync_workflow_definition_slugs.py:32-90 | a run is no longer than the potential it starts with plus a fixed allowance for each visit to the reset state, less the potential left |
| WorkflowTables.AdsRunLength | alembic/versions/093_sync_workflow_definition_slugs.py:32-58 | an ADS run with k visits to requires_review has at most 9(k+1) transitions |
| WorkflowTables.AdsRunLengthIsReached | alembic/versions/093_sync_workflow_definition_slugs.py:32-58 | for every k some ADS run has exactly that many |
| WorkflowTables.PlannerRunLength | alembic/versions/093_sync_workflow_definition_slugs.py:62-71 | a Planner run with r rejections has at most 3r+4 transitions |
| WorkflowTables.PlannerRunLengthIsReached | alembic/versions/093_sync_workflow_definition_slugs.py:62-71 | for every r some Planner run has exactly that many |
| WorkflowTables.VoyageRunLength | alembic/versions/093_sync_workflow_definition_slugs.py:75-90 | a Voyage run with d delays has at most 4d+5 transitions |
| WorkflowTables.VoyageRunLengthIsReached | alembic/versions/093_sync_workflow_definition_slugs.py:75-90 | for every d some Voyage run has exactly that many |
| WorkflowTables.ApprovalIsPreceded | alembic/versions/093_sync_workflow_definition_slugs.py:43-48 | every entry into approved needs paxlog.ads.approve, and since the latest draft or requires_review the run crossed from pending_compliance to pending_validation with paxlog.compliance.manage |
| WorkflowTables.PastComplianceIsCleared | alembic/versions/093_sync_workflow_definition_slugs.py:43-54 | the same holds of every run that stands at or past pending_validation |
| WorkflowTables.ApprovalsAgainstReviews | alembic/versions/093_sync_workflow_definition_slugs.py:50-57 | visits to approved exceed visits to requires_review by 0 or 1, and by which of the two in every state but cancelled |
| PermissionRename.PermissionTables.UpsertPermission | alembic/versions/119_finalize_packlog_permission_namespace.py:28-42 | afterwards the new code is a packlog permission, named after the code with the given description if new, and otherwise with its old name and non-null description; no other code and no other table changes, and foreign keys resolve |
| PermissionRename.PermissionTables.Upgrade | alembic/versions/119_finalize_packlog_permission_namespace.py:123-126 | no statement of the loop is refused and foreign keys resolve after each; afterwards each old code is gone, each new code is a packlog permission and has every role of either code and the overrides of the old code in place of its own, and nothing about other codes changed |
| PermissionRename.RoundByCode | alembic/versions/119_finalize_packlog_permission_namespace.py:45-78 | one round moves the old code's rows onto the new code, where they win over rows already there, and leaves every other code alone |
| PermissionRename.LoopByCode | alembic/versions/119_finalize_packlog_permission_namespace.py:123-126 | after the loop no permission, role, group or user row names an old code, and each new code has its permission and its own rows overridden by the old code's |
| PermissionRename.CodesMove | alembic/versions/119_finalize_packlog_permission_namespace.py:45-78 | the same told of the tables row by row, for each pair of the map |
| PermissionRename.OtherCodesUntouched | alembic/versions/119_finalize_packlog_permission_namespace.py:45-78 | rows and permissions of codes outside the map are unchanged |
| PermissionRename.RenamingExactly | alembic/versions/119_finalize_packlog_permission_namespace.py:45-78 | the loop is an exact renaming of a code if and only if no role, group or user had a row for the new code without one for the old |
| PermissionRename.MapIsDistinct | alembic/versions/119_finalize_packlog_permission_namespace.py:19-25 | the ten codes of the map are all different |
| PermissionRename.PairsKeepTheirSuffix | alembic/versions/119_finalize_packlog_permission_namespace.py:19-25 | each pair of the map moves one cargo code from travelwiz to packlog |
| RbacResolution.MergeAdditive | app/core/rbac.py:159-184 | in additive mode a code is effective if and only if a user, group, role or delegation grants it, and is credited to the first of these that does |
| RbacResolution.MergeRestrictive | app/core/rbac.py:187-225 | in restrictive mode the last user override of a code decides; without one a code of a role or delegation is effective if and only if no group revokes it, any other if and only if a group grants it, credited to the group, else the role, else the delegation |
| RbacResolution.LastOverrideSays | app/core/rbac.py:219-223 | what the loop over user overrides leaves of a code is its last override in the list |
| RbacResolution.DocumentedOrderExactly | app/core/rbac.py:3-10 | restrictive mode departs from the documented order if and only if the user has no override, some group revokes the code, and a role or a delegation has it |
| RbacResolution.GroupRevocationTakesARole | app/core/rbac.py:204-209 | a member whose role grants a code and whose group revokes it: the code is effective in additive mode and not in restrictive mode |
| RbacResolution.ResolvePermissions | app/core/rbac.py:81-156 | the resolver's answer for a code depends only on the rows naming it and on the user's delegations, and is the additive or the restrictive one as the mode says |
| RbacResolution.RenamedCodesResolveAlike | app/core/rbac.py:81-156 | after an exact renaming every user has the new code through the layer that gave them the old one, in either mode, if their delegations list both codes or neither |
| RbacResolution.OldCodesResolveByDelegation | app/core/rbac.py:127-143 | after the migration an old code is effective only by delegation |
| RbacResolution.OtherCodesResolveAlike | app/core/rbac.py:81-156 | codes outside the map resolve as before for every user in either mode |
| RbacResolution.DelegationsAreNotRenamed | app/core/rbac.py:127-143 | under an exact renaming a user has the new code as they had the old one if and only if their delegations list both codes or neither, or the rows settle the code without delegation |
| RbacResolution.DelegationMattersExactly | app/core/rbac.py:159-225 | being delegated a code makes no difference if and only if the rows settle it: a grant by user, role or group in additive mode; a user override, a role, or group grants without group revocations or the reverse in restrictive mode |
| RbacResolution.DelegationLosesACode | alembic/versions/119_finalize_packlog_permission_namespace.py:45-78 | a user who has the first old code by delegation alone, and does not get the new one |
| WorkflowSlugRename.WorkflowTables.MoveInstances | alembic/versions/119_finalize_packlog_permission_namespace.py:82-97 | instances of a superseded definition move to a new definition of the same entity, and the others stay |
| WorkflowSlugRename.WorkflowTables.DeleteSuperseded | alembic/versions/119_finalize_packlog_permission_namespace.py:98-106 | the DELETE is refused exactly when an instance still names a superseded definition, and otherwise removes just those |
| WorkflowSlugRename.WorkflowTables.MigrateWorkflowSlug | alembic/versions/119_finalize_packlog_permission_namespace.py:81-120 | no statement is refused and references resolve throughout; exactly the old definitions of entities that have a new one are gone, the other old ones have the new slug and the rest are as they were; every instance stays at its definition unless that is gone, and then is at a new definition of the same entity |
| WorkflowSlugRename.RenamingIsComplete | alembic/versions/119_finalize_packlog_permission_namespace.py:98-120 | no definition with the old slug is left |
| WorkflowSlugRename.OneNewPerEntityExactly | alembic/versions/009_add_workflow_columns.py:64-69 | at most one definition per entity has the new slug afterwards if and only if no entity had two new ones, nor two old ones and no new one |
| WorkflowSlugRename.TwoOldBecomeTwoNew | alembic/versions/119_finalize_packlog_permission_namespace.py:107-120 | an entity with two old definitions and no new one, which ends with two new ones |
| PaxIdentity.PaxTables.BackfillUsers | alembic/versions/073_remove_pax_profiles.py:84-90 | the user pass sets the user of exactly the rows whose profile has one |
| PaxIdentity.PaxTables.BackfillContacts | alembic/versions/073_remove_pax_profiles.py:92-102 | the contact pass gives each row that has candidates and no user one of its candidates, and changes nothing else |
| PaxIdentity.PaxTables.Upgrade | alembic/versions/073_remove_pax_profiles.py:84-198 | in every table a row without a profile names nobody, one whose profile has a user names that user, and any other names a contact of the profile's company with its normalised first and last name, or nobody if there is none; the migration goes through if and only if no row names both, only incidents and manifest passengers name nobody, and in the four tables with unique constraints no user or contact occurs twice in one scope |
| PaxIdentity.ExactlyOneWhenResolvable | alembic/versions/073_remove_pax_profiles.py:84-118 | no row has both a user and a contact, and one is set if and only if its profile has a user or a name-and-company match |
| PaxIdentity.XorCheckExactly | alembic/versions/073_remove_pax_profiles.py:167-188 | a table passes its check if and only if it allows rows that name nobody or every row can be resolved |
| PaxIdentity.UniqueUsersExactly | alembic/versions/073_remove_pax_profiles.py:190-198 | the new user constraint holds if and only if no two rows of one scope have profiles with the same user |
| PaxIdentity.UniqueContactsExactly | alembic/versions/073_remove_pax_profiles.py:190-198 | the new contact constraint holds whatever contacts are picked if and only if no two rows of one scope share a candidate |
| PaxIdentity.UniquenessCarriesOver | alembic/versions/073_remove_pax_profiles.py:146-151 | if profile-to-person resolution is injective, the old pax-based uniqueness implies the new uniqueness of users and contacts |
| PhoneDedup.PhoneTable.MergeVerified | alembic/versions/128_phones_unique_constraint.py:34-56 | the first row of each group ends verified if and only if some row of the group was, keeping its date of verification or taking the present one; no other row and no other column changes, and who is first is as before |
| PhoneDedup.PhoneTable.Upgrade | alembic/versions/128_phones_unique_constraint.py:27-81 | for any table the constraint is never refused; exactly the row of each key is left that was created first (a missing time counting as last, equal times by id), verified if and only if some row of its key was, dated as it was or now if it had no date, with its other columns; one row is left for every key |
| PhoneDedup.RowNumberOne | alembic/versions/128_phones_unique_constraint.py:47-71 | the row numbered one by the window is the row LIMIT 1 returns |
| PhoneDedup.MergeKeepsOrder | alembic/versions/128_phones_unique_constraint.py:36-73 | the UPDATE does not change who survives, so both statements pick the same row |
| PhoneDedup.FirstsKept | alembic/versions/128_phones_unique_constraint.py:11-13 | what is left is exactly the oldest row of each key by created_at then id, with the group's verified state |
| PhoneDedup.KeysKept | alembic/versions/128_phones_unique_constraint.py:11-13 | exactly one row is left for every key that existed |
| PhoneDedup.MigratingTwice | alembic/versions/128_phones_unique_constraint.py:34-74 | running the migration again at any later time changes nothing |
| PaxLoad.GroupedRow | alembic/versions/026_dashboard_planner_paxlog_travelwiz_completion.py:249-259 | there is a group exactly for the keys present, holding the sum of quotas and of non-null actuals |
| PaxLoad.RowsAreSums | alembic/versions/026_dashboard_planner_paxlog_travelwiz_completion.py:243-260 | there is one view row for a key if and only if an eligible activity covers that entity, asset and day; it holds the sums over the covering activities |
| PaxLoad.OneActivity | alembic/versions/026_dashboard_planner_paxlog_travelwiz_completion.py:249-259 | the view of one activity has its quota and actual on each day from its start to its end, if it is active and approved, in progress or submitted, and nothing otherwise |
| PaxLoad.ViewsAddUp | alembic/versions/026_dashboard_planner_paxlog_travelwiz_completion.py:244-259 | the view of two lists of activities together has the rows of both; where both have one, quotas add up and so do non-null actuals |
| PaxLoad.TotalByKey | alembic/versions/026_dashboard_planner_paxlog_travelwiz_completion.py:261-264 | the total over the view's rows does not depend on the order they are taken in |
| PaxLoad.PaxDaysAreConserved | alembic/versions/026_dashboard_planner_paxlog_travelwiz_completion.py:243-260 | the total over all view rows is the sum over eligible activities of quota times inclusive duration, zero for missing or reversed dates |

## Left out

- Docker, git, HTTP calls, credentials, token minting and attachments in the worker: their outcome is an argument (success, exception or exit).
- Heartbeats, `NOW()`, durations and other clock columns: nothing modelled here depends on them.
- Status writes by the rest of the backend (awaiting_human, rejected, cancellation, rescue of orphaned runs) and deletion of run rows: that code is not part of this model, so the pool's results hold as long as it leaves claimed runs alone.
- AgentWorker.WorkerMain: the stop signal and the scheduling are a fixed but arbitrary list of turns, so a worker that is never stopped is covered through all its finite prefixes only.
- AgentWorker.ClaimNextRun: claims in creation order up to ties; rows with equal created_at may be claimed in either order.
- WorkerHistory.Conservation: gives sufficient conditions (no name registers twice, no commit's acknowledgement is lost); the exact condition is in WorkerHistory.ConservedExactly.
- WorkerHistory.StatusOnlyAdvances: for histories in which every write succeeds; what holds in all histories is in WorkerStatus.StatusExactly and WorkerStatus.OverturnedExactly.
- The comment stripping, key quoting and trailing-comma passes of `_parse_ts_object` and `json.loads` (scripts/seed_i18n.py:51-52, 133-143): they also run over string contents, so the model stops after the string rewriter.
- LocaleLiteral.LiteralMeansTsString: TypeScript's escapes other than \' are an arbitrary reader that takes at least one character, yields at most one, and beyond its first character sees no quote or backslash.
- SHA-256: an arbitrary function on texts; where a result goes from the hash back to the text it assumes that no two texts share a hash. The database's collation is an arbitrary order that lists each key once.
- LocaleCatalog.StepConsistentExactly: that a changed text changes the hash assumes a hash function without collisions; when a text changes at all is in LocaleCatalog.DisturbsExactly and LocaleCatalog.EveryIntrusionSeenExactly.
- LocaleDigest.TextTellsExactly: for keys that hold no newlines.
- LocaleCatalog.ForcedSeedExactly: the only-if half assumes a hash function without collisions and speaks of the catalogues whose text tells their rows; for the others the exact condition is in LocaleCatalog.ForcedSeedByText.
- LocaleCatalog.SeedWithForce: a sufficient condition on the keys alone; the exact conditions are in LocaleCatalog.ForcedSeedByText and LocaleCatalog.ForcedSeedExactly.
- Reading source files, JSON and the list of registered languages from disk and database: they are arguments.
- Labels and translations (`generate_en_label`, `translate`, `build_training_map`): any function of path and text.
- LocalePaths.OntoInjective: for keys that are non-empty and dot-free; which names lead back to their own path is in LocalePaths.LeadsBackExactly.
- LocaleBackfill.SeedingClosesTheGap: for French trees whose leaves all have addressable paths; any trees are in LocaleBackfill.GapClosedExactly.
- LocaleBackfill.SeedingClosesTheGapByName: for French trees in which no name is another one or a dotted beginning of another, and no name of several parts begins with an empty one; any trees are in LocaleBackfill.GapClosedExactly.
- LocaleBackfill.CoveredWhenSeparate: for French trees in which no name is another one or a dotted beginning of another; any trees are in LocaleBackfill.CoveredExactly.
- The `t()` call coverage and the report of scripts/i18n_check.py: a regular-expression search over sources.
- Labels, roles and comment flags of workflow transitions, the states lists, `_sync_definition` and the entity loop of migration 093: straight-line data.
- The `name` column of workflow definitions in migration 119: written with the slug, read by nothing modelled.
- PaxIdentity.PaxTables.Upgrade: leaves out profile columns copied to users and contacts, tags, attachments and notes (steps 4a, 4b, 4f) and the DDL around them; LOWER(TRIM(..)) is an arbitrary function of a name.
- RbacResolution.ResolvePermissions: takes the query results as lists that agree with the rows code by code; the mode setting, the cache and the delegation dates are arguments.
- Time zones and timestamps in `daily_pax_load`: a date is a day number.
- The remaining migrations, the API application, and the scripts that only diff two sets or edit text.
