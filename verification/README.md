# oc-clean: what a cleanup may delete, and what a swap may lose

`oc-clean` deletes sessions from an OpenCode database and rebuilds the file. This project models the
code that decides what is deleted, deletes it, and replaces the database file, and proves what that
code keeps. `dafny verify dfyconfig.toml` checks everything.

## What is modelled

**The session forest** (`Forest`, `Recursion`, `Ranking`, `Ages`, `Subtrees`, `Retention`). Parent links
have no foreign key, so a parent may be missing and links may form cycles. `Recursion` models the
path-carrying recursive query as the rows it yields; its `char(31)` path strings are sequences of
identifiers. Acyclicity is never assumed by a method: the queries report a cycle exactly when there is one.

**The database** (`Schema`, `Deletion`, `Batches`, `Sweep`, `Orphans`, `Projects`). A database is maps from
identifier to row for the fourteen tables a cleanup can shrink. A `DELETE` removes the rows it names and all
rows whose chain of cascading foreign keys leads to one of them. `Deletion.Connection` is the mutable
connection with its temporary tables. Lock contention, deadlines and SQLite errors are a `World`: which attempts
fail, at which statement, and after which commits the progress callback asks to stop. Every theorem about
a run holds for every `World`, or says which ones it needs.

**The preview and the run** (`Predicates`, `Paths`, `Glob`, `Attribution`, `Selection`, `Impact`, `Agreement`, `Clean`,
`CleanProofs`). The preview and the run select sessions separately, on different tables and in a different
order; `CleanProofs.RunAsPreviewed` says when they agree.

**The swap** (`Disk`, `Swap`, `Signals`). A directory maps names to files and files to bytes; every file
operation may fail, a copy may fail half-way, and another process may replace the database at two hook
points. The directory after every operation is logged, so that safety is stated about every step. `Signals`
is the controller's lock-protected state with a step relation for all interleavings with signal handlers.

**Self-contained parts** (`Gate`, `Civil`, `Sizes`, `Incremental`): the counting semaphore, civil dates, decimal sizes
and the incremental vacuum loop. `Basics` and `Sums` hold identifiers, their order, results and finite sums.

## What the proofs found

* The preview lists dangling sessions by a fixed point, the run deletes them in at most 32 passes. They agree
  exactly when no dangling session outside selection and retention has 32 or more present ancestors
  (`CleanProofs.PreviewIsApplied`). Up to 32 sessions they always agree (`CleanProofs.FewSessionsAgree`); a chain of
  33 is a disagreement (`CleanProofs.ChainRun`).
* `README.md:239` of the program says an interrupt during deletion stops after the current batch. The loop
  over dangling passes does not look at the callback's answer: `SweepProofs.CancellationIgnored` says exactly
  when it goes on committing, `SweepProofs.CancelledChain` is a case with two sessions.
* A sweep that is cut short has deleted parents without their children. The children are roots from then on and
  may push a retained tree out of retention, so that the next run no longer protects it. Retention is the same exactly
  when a full quota of the roots retained before outranks every such child (`CleanProofs.RetentionAfterRun`);
  `CleanProofs.RetentionShifts` is a case with three sessions.
* With `skip_backup` and no hard links no recovery link is made. After the rename the compacted bytes then
  stay in place whatever verification says (`Swap.VacuumInto`), and the error names a backup that does not exist
  (`Swap.OriginalLost`).
* A failed flush after the rename is reported without a rollback, although the documentation says that swap
  failures attempt one. The original is under the recovery link's name only (`Swap.VacuumInto`); `Swap.FlushFails` is
  a case. After a failed verification the original is back in place exactly when a link was made and the five
  operations of the rollback work (`Swap.Settle`).
* During matching, position `i` of the glob matcher does not always mean that the first `i` tokens match:
  before a `*` it also stays marked while the `*` takes characters (`Glob.PositionBeforeStar`). `Glob.MarkMeansMatch`
  says exactly for which positions of which patterns the simpler reading is right.

## Model

| member | source | states |
|---|---|---|
| Recursion.SubtreeExact | src/select/predicates.rs:8-21 | The recursive query terminates on every parent map and yields exactly the paths that walk down parent links and repeat at most their last session |
| Recursion.RowsAreShort | src/select/predicates.rs:11-21 | A row's path is at most one longer than the number of sessions, on any parent map |
| Recursion.RowUnique | src/select/predicates.rs:11-21 | Two unmarked rows with the same root and the same session are the same row |
| Recursion.CycleMarker | src/select/predicates.rs:11-26 | A root has a row with the cycle marker exactly when it lies on a parent cycle |
| Recursion.SubtreeCovers | src/select/subtree.rs:32-49 | The rows of a root off every cycle reach each of its descendants, and nothing else, exactly once |
| Forest.DescendantsLeast | src/select/subtree.rs:10-16 | Expansion is the smallest set closed under children that holds the selection |
| Forest.RootTreesAreWhole | src/select/retention.rs:8-18 | Expanding roots, those with a missing parent included, yields complete trees |
| Forest.AcyclicAfterRemoval | src/clean/selection.rs:47-55 | Deleting a set closed under children leaves the rest acyclic |
| Ages.EffectiveTimeUpdated | src/select/predicates.rs:87-122 | Succeeds exactly when no parent cycle exists, with each session's latest activity anywhere below it; otherwise names the smallest session on a cycle |
| Ages.OlderThan | src/select/predicates.rs:65-85 | Selects exactly the sessions whose effective time is at or before the boundary; fails exactly when the boundary leaves 64 bits or a cycle exists |
| Ages.OlderMeansQuietSubtree | src/select/predicates.rs:58-85 | A session is selected by age exactly when its whole subtree has been inactive |
| Subtrees.Expand | src/select/subtree.rs:16-81 | The chunked expansion succeeds exactly when no selected session lies on a cycle, with all present descendants; a failure names a selected session on a cycle |
| Ranking.NewestSize | src/select/retention.rs:86-97 | Of n roots exactly min(k, n) are among the k newest |
| Ranking.NewestStable | src/select/retention.rs:75-97 | The k newest stay the k newest when others vanish or age |
| Retention.SortRoots | src/select/retention.rs:75-84 | The sort only reorders, by project, then newest first, then greatest identifier first |
| Retention.Scan | src/select/retention.rs:86-97 | The counting scan keeps a root exactly when fewer than k roots of its project precede it |
| Retention.ScanIsKept | src/select/retention.rs:75-97 | On the sorted roots the scan selects exactly the k newest of every project |
| Retention.QuotaPerProject | src/select/retention.rs:86-97 | Every project keeps exactly min(k, n) roots, each newer than all it drops |
| Retention.Compute | src/select/retention.rs:33-100 | The retained set is the kept roots with all their descendants; it fails exactly when some parent cycle exists, even for a quota of zero |
| Retention.RetainedIsWhole | src/select/retention.rs:33-100 | The retained set is a union of complete trees |
| Retention.RetainedExactly | src/select/retention.rs:33-100 | A session is retained exactly when it is at or below a root that fewer than keep_recent roots of its project precede, by later activity anywhere in their trees or, as late, by a greater identifier |
| Retention.TimesFall | src/select/predicates.rs:7-30 | Deleting sessions can only lower the effective times of the others, and leaves those of untouched subtrees alone |
| Retention.RetentionStable | src/delete/orphans.rs:78 | Recomputing retention after a deletion that spares it and is closed under children yields the same set |
| Retention.RetentionSurvives | src/delete/orphans.rs:78 | Recomputing retention after any deletion that spares it yields the same set exactly when every session that lost its parent is outranked by all roots its project retained before, and these use up the quota |
| Schema.ExecuteDelete | src/db/schema.rs:676-768 | Filtering out the doomed rows is the one database that keeps exactly the other rows unchanged |
| Schema.DeleteCompose | src/db/schema.rs:676-768 | Two cascading deletions in a row are one deletion of both seed sets |
| Schema.DeleteKeepsIntegrity | src/db/schema.rs:676-768 | Cascading deletion keeps foreign-key integrity and part attribution |
| Schema.BatchRemoves | src/delete/sessions.rs:194-206 | A batch removes exactly the rows its counting queries count, though parts are counted by session and cascade through messages |
| Schema.ProjectsRemove | src/delete/projects.rs:9-25 | Deleting projects without sessions removes exactly the project-side rows they own |
| Batches.FirstBatchesAreSmallest | src/delete/mod.rs:44-68 | The first n batches take exactly the n times batch-size smallest identifiers |
| Batches.BatchesLeft | src/delete/mod.rs:44-55 | Identifiers are left exactly while fewer than ceil(n / batch size) batches are done |
| Deletion.Connection.Materialize | src/delete/mod.rs:14-42 | The purge table holds exactly the given identifiers |
| Deletion.Connection.BeginBatch | src/delete/mod.rs:44-68 | A batch begins exactly when identifiers are left, with the smallest of them |
| Deletion.Connection.RemoveCompleted | src/delete/mod.rs:70-81 | The completed identifiers leave the purge table |
| Deletion.Connection.AccumulateCounts | src/delete/sessions.rs:287-307 | Adds the rows of each of the ten counted tables whose owner is in the batch |
| Deletion.Connection.RunBatch | src/delete/sessions.rs:185-208 | A failing statement leaves tables, purge table and commits as they were; otherwise exactly the smallest batch and its dependent rows are gone and reported |
| Deletion.Connection.DeleteWithProgress | src/delete/sessions.rs:169-217 | For every world: tables, commit count and report are those of the whole batches that committed before a failure, a cancellation or the end |
| Deletion.BatchRunExactly | src/delete/sessions.rs:169-217 | A run of batches ends at the first failed attempt, after the first callback that says stop, or with the last batch, and with none of these before |
| DeletionProofs.WholeBatchesOnly | src/delete/sessions.rs:169-217 | After n commits exactly the n times batch-size smallest identifiers and their rows are gone, and a returned report counts exactly them |
| DeletionProofs.OneShot | src/delete/sessions.rs:169-217 | Undisturbed, any batch size leaves the tables of one deletion, in ceil(n / batch size) transactions |
| DeletionProofs.StopsAfterBatch | src/delete/sessions.rs:211-213 | A callback that first says stop after batch j, no attempt before it having failed, stops the deletion there |
| DeletionProofs.DeletionEnds | src/delete/sessions.rs:169-217 | A report comes back exactly when every attempt committed; a failure is that of the first attempt that did not commit, or of its checkpoint, and no callback before the end said stop |
| Sweep.DeleteAggregates | src/delete/sessions.rs:219-235 | Deletes event aggregates by the same batches, leaves the sessions alone, and remembers whether the last callback asked to stop |
| Orphans.DanglingExact | src/select/orphans.rs:114-138 | The recursive union finds the sessions with a missing parent and everything below them, on any parent map |
| Orphans.SessionIdExactly | src/select/orphans.rs:140-144 | An aggregate is session-shaped exactly when it is `ses_` and a non-empty run of ASCII letters and digits |
| Orphans.DanglingIsWhole | src/select/orphans.rs:114-138 | Dangling sessions form complete trees |
| Orphans.DanglingAfterRemoval | src/select/orphans.rs:114-138 | Deleting sessions with their descendants makes no session dangling |
| Orphans.AggregatesAfterBatch | src/select/orphans.rs:88-107 | A session deletion takes the event aggregates of its sessions along and orphans none |
| Orphans.CurrentIsLayer | src/delete/orphans.rs:18-25 | When the candidates above depth k are gone, the current candidates are exactly those at depth k |
| Sweep.DanglingPasses | src/delete/orphans.rs:103-131 | For every world the pass loop deletes what the course of its passes says, and reports its passes, rows and bound |
| Sweep.DeleteOrphans | src/delete/orphans.rs:69-132 | Retention is computed again on the current tables; a cycle or a zero batch size changes nothing; otherwise the event phase and the passes follow the course of the sweep, whose ends SweepEnds and EventsCancelled determine |
| SweepProofs.QuietPasses | src/delete/orphans.rs:112-128 | Undisturbed pass k deletes exactly the candidates at depth k |
| SweepProofs.QuietSweep | src/delete/orphans.rs:103-131 | An undisturbed sweep deletes the candidates with fewer than max_passes ancestors, takes min(height, max_passes) passes, and reports the bound exactly when candidates remain |
| SweepProofs.SweepWithin | src/delete/orphans.rs:69-132 | However a sweep fails or is cancelled, it deletes nothing but its aggregates and candidates, and a returned report accounts for exactly what is gone |
| SweepProofs.EventsCancelled | src/delete/orphans.rs:82-101 | A callback that first says stop within the event batches ends the sweep there: no session is deleted, nothing more commits, and the report is returned without a pass |
| SweepProofs.SweepEnds | src/delete/orphans.rs:69-132 | A sweep returns a report exactly when every attempt it made committed; otherwise the error is that of the first attempt that did not |
| SweepProofs.CancelledPassSpares | src/delete/orphans.rs:112-128 | What a cancelled pass did not get to stays, whatever later passes delete |
| SweepProofs.CancellationIgnored | src/delete/orphans.rs:112-128 | After a cancelled pass further batches commit exactly when a pass is left, a deleted session has a child among the candidates and the next attempt does not fail |
| SweepProofs.CancelledChain | src/delete/orphans.rs:112-128 | Two sessions, one below the other: with the default batch size and pass limit the second is deleted although both callbacks say stop |
| SweepProofs.CancelledPair | src/delete/orphans.rs:112-128 | Such a pair is deleted whatever the callbacks answer |
| Glob.ExpandStars | src/select/predicates.rs:421-427 | Marks the position after every marked star, from the front, and nothing else |
| Glob.LiveNext | src/select/predicates.rs:392-415 | How one character moves the positions that stand for matched token prefixes |
| Glob.GlobMatches | src/select/predicates.rs:387-419 | The state-set matcher accepts a value exactly when it splits into one piece per token |
| Glob.PositionBeforeStar | src/select/predicates.rs:394-400 | A marked position before a star does not mean that the tokens before it match |
| Glob.MarkMeansMatch | src/select/predicates.rs:387-427 | A mark means that the tokens before it match, for all prefixes, exactly at the last position, before a token other than a star, or when some earlier token takes no character or only tokens that take every character follow some earlier star |
| Glob.MalformedExactly | src/select/predicates.rs:351-364 | A pattern is malformed exactly when some opening bracket has no closing bracket after it |
| Glob.CollapseKeepsLanguage | src/select/predicates.rs:327-332 | Collapsing runs of stars keeps what a pattern matches |
| Glob.ParseCharacterClass | src/select/predicates.rs:351-385 | Reads the class up to the first closing bracket, its negation and its ranges, and says where the pattern goes on |
| Glob.RangesExact | src/select/predicates.rs:370-380 | The ranges of a class are the bounds of the one way to write its content as single characters and spans, a single character being followed by a hyphen only at the end |
| Glob.WithoutHyphen | src/select/predicates.rs:370-380 | Without a hyphen a class contains exactly the characters of its content |
| Glob.ParseGlob | src/select/predicates.rs:321-349 | Succeeds exactly when every opening bracket is closed; the tokens match exactly the values the text fits: a star any string, a question mark one character, brackets one character they list or, negated, do not list, anything else itself; no run of stars is left |
| Glob.TokensFit | src/select/predicates.rs:321-349 | The tokens from any position on match exactly what the rest of the text means |
| Glob.PrefixFits | src/select/predicates.rs:321-349 | Ordinary characters and a final star select what begins with them; with a final question mark, what is one character longer |
| Paths.NormalForm | src/select/predicates.rs:305-312 | Normalizing twice is normalizing once, and the result ends in a separator only when it is one |
| Paths.TrailingSeparator | src/select/predicates.rs:305-312 | A trailing separator never matters, unless it is the whole path |
| Paths.MatchesPath | src/select/predicates.rs:261-287 | A matcher decides the selection of every stored path |
| Paths.SelectsExactly | src/select/predicates.rs:261-290 | Without `*`, `?` and `[` a path selects its equals up to trailing separators and case; with one of them, what the text of the pattern fits |
| Paths.BelowDirectory | src/select/predicates.rs:261-290 | A directory followed by `/*` selects exactly the paths below it, by `/?` those whose last name is one character |
| Paths.PlainEnd | src/select/predicates.rs:305-312 | Only slashes and backslashes at the end are removed |
| Paths.GlobKeepsSeparator | src/select/predicates.rs:261-287 | Whatever the case folding, as long as it makes no separators, a glob pattern that ends in a separator selects nothing but a path of separators |
| Predicates.Project | src/select/predicates.rs:155-202 | Selects the sessions of projects whose worktree or some directory matches, or of the others; decided per session, and sessions without a project row are in neither |
| Predicates.IntersectCandidateSets | src/select/predicates.rs:220-230 | The result holds exactly the members of every set, and is absent exactly when there is none |
| Predicates.CandidateExactly | src/select/predicates.rs:32-40 | A candidate is a present session that meets each criterion given, on its own row and those below it: the archive epoch set, no update in the subtree after the boundary, at least the bytes below it, a matching directory of its project or, excluding, none |
| Attribution.AccountingAgrees | src/analyze/attribution.rs:8-49 | Aggregating each table and joining gives every session the bytes that joining all rows and aggregating gives |
| Attribution.RowSum | src/analyze/attribution.rs:50-68 | The sum over the query rows of an acyclic root counts every descendant once |
| Attribution.LargerThan | src/select/subtree.rs:90-148 | Refuses diverging part attribution first, then a parent cycle; otherwise exactly the sessions with at least the threshold in payload rows at and below them |
| Attribution.SubtreeBytesExactly | src/analyze/attribution.rs:8-49 | The bytes of a subtree are those of all message, part, context epoch, session message and event rows of its sessions, each row once |
| Attribution.LargeAncestors | src/select/subtree.rs:90-115 | The ancestors of a large session are large |
| Attribution.RootsTotal | src/analyze/attribution.rs:50-68 | Subtree bytes over the forest roots add up to the bytes of all sessions |
| Attribution.ProjectsTotal | src/analyze/attribution.rs:84-87 | Project bytes and the bytes of sessions without a project row add up to the bytes of all sessions |
| Attribution.AgeDistribution | src/analyze/distribution.rs:143-203 | Each bucket has the count and bytes of exactly the sessions in its interval; it fails exactly when a boundary leaves 64 bits |
| Attribution.BucketExactly | src/analyze/distribution.rs:32-49 | A session is in the bucket of its age: below 7, 30, 90, 180 days or older, a boundary belonging to the older bucket |
| Attribution.BucketsFromRows | src/analyze/distribution.rs:178-203 | Fails exactly on a row outside the five buckets or with a negative count; every bucket has its last row, or is empty without one |
| Attribution.BucketsPartition | src/analyze/distribution.rs:32-49 | Every session is in exactly one bucket |
| Attribution.BucketsTotal | src/analyze/distribution.rs:17-49 | Bucket bytes add up to the total of the attribution query |
| Selection.PredicateCandidates | src/clean/selection.rs:17-45 | Fails exactly on a refused selection; otherwise the unretained sessions that meet every criterion given, row by row; with the archived criterion alone exactly the unretained sessions whose archive epoch is set |
| Selection.ExpandCandidates | src/clean/selection.rs:47-55 | The unretained sessions below unretained candidates |
| Selection.DeletedIsChildClosed | src/clean/selection.rs:47-55 | The selection takes every child of a selected session along |
| Impact.SelectionRoots | src/report/impact.rs:622-647 | The candidates whose parent is not a candidate |
| Impact.RootsSuffice | src/report/impact.rs:409-420 | Expanding the unretained selection roots reaches what expanding all unretained candidates reaches |
| Impact.CandidateRoots | src/report/impact.rs:585-620 | The preview finds exactly the sessions that meet every criterion given, row by row |
| Impact.PlanSelection | src/report/impact.rs:409-451 | Succeeds exactly when predicates can be evaluated and no cycle exists; the plan holds the selection and the unretained dangling sessions |
| Impact.ProjectsEmptiedBy | src/report/impact.rs:665-700 | Counting finds exactly the projects all of whose sessions are selected, with old empty ones on request |
| Impact.TableImpact | src/report/impact.rs:716-790 | Counting in chunks of owners gives the rows each table's owner column attributes to all owners |
| Impact.DatabaseImpact | src/report/impact.rs:453-511 | The previewed rows per table, for sessions, projects and orphan aggregates |
| Projects.OwnersOfSessions | src/delete/projects.rs:35-51 | Succeeds exactly when every session exists, with their projects |
| Projects.Prune | src/delete/projects.rs:81-125 | Deletes exactly the empty projects that are affected, or all empty ones on request; a failed transaction changes nothing |
| Projects.PrunedAsPreviewed | src/report/impact.rs:649-700 | The pruned projects are those the preview counted as emptied, with or without old empty projects |
| Agreement.DepthAfterRemoval | src/delete/orphans.rs:112-128 | Sessions outside a deleted selection keep their number of present ancestors |
| Agreement.StraysRemain | src/clean/command.rs:200-216 | The orphan selection on what is left finds the dangling sessions that were neither selected nor retained |
| Agreement.AppliedIsPlanned | src/report/impact.rs:409-451 | The applied sessions are among the planned ones, and equal to them exactly within the pass bound |
| Agreement.NothingNewDangles | src/clean/selection.rs:47-55 | Deleting the selection leaves no session dangling that was not dangling before |
| Clean.AfterSelection | src/clean/command.rs:187-205 | Once the selection is deleted, retention and orphan aggregates are the same and the sweep starts from complete dangling trees |
| Clean.PlannedExactly | src/report/impact.rs:409-451 | A session is planned exactly when it is not retained and is at or below a session that meets the criteria unretained or, on request, one that names an absent parent; aggregates exactly when session-shaped, without a session and asked for |
| Clean.SessionPhase | src/clean/command.rs:187-197 | The phase runs in the batches of its weather; it fails with their error, or as interrupted when a callback or the flag said stop, and otherwise all selected sessions are gone |
| Clean.OrphanPhase | src/clean/command.rs:199-223 | The orphans are selected on the current tables and swept by the course of the weather; it fails with the error of the sweep, or as interrupted exactly when the flag is set or the last callback said stop |
| Clean.Run | src/clean/command.rs:143-235 | One cleanup in every weather: only planned sessions, orphan aggregates and emptied projects disappear; a dry run, a refused selection or an early cancellation changes nothing; no failed attempt, failed prune or cancellation is passed over, a cancelled run prunes nothing, and nothing else makes a confirmed run fail; the error is that of the attempt that failed, or interrupted; success means the reports account for what is gone and count the transactions; an undisturbed run deletes the selection and the strays within the bound |
| CleanProofs.RunAccounts | src/clean/command.rs:143-235 | A run that reports, in any weather: the sessions reported are those gone, each table shrank by the rows reported, and the projects gone are those that lost their last session or, on request, had none |
| CleanProofs.PreviewIsApplied | src/report/impact.rs:409-451 | The sessions an undisturbed run deletes are the previewed ones exactly when it does not sweep or no stray has 32 ancestors or more |
| CleanProofs.FewSessionsAgree | src/report/impact.rs:409-451 | Up to 32 sessions an undisturbed run always deletes what the preview lists |
| CleanProofs.PreviewKept | src/report/impact.rs:453-511 | On a database with integrity an undisturbed run within the bound deletes the previewed sessions, prunes the previewed projects, and shrinks each of the fourteen tables by the previewed rows |
| CleanProofs.RunAsPreviewed | src/clean/command.rs:143-235 | An undisturbed run deletes the sessions its preview lists exactly within the pass bound; within it, with integrity, it prunes the projects listed and shrinks each of the fourteen tables by the rows listed |
| CleanProofs.RowsAsPreviewed | src/report/impact.rs:453-511 | For each table, rows before are rows after plus previewed rows, cascades included |
| CleanProofs.RowsAsReported | src/clean/command.rs:339-349 | For each table a session deletion touches, rows before are rows after plus reported rows, in every run that reports |
| CleanProofs.RunKeepsIntegrity | src/clean/command.rs:237-251 | Every run, however it ends, keeps foreign-key integrity and part attribution |
| CleanProofs.RetainedSurvive | src/select/retention.rs:33-100 | Every run, however it ends, leaves all retained sessions |
| CleanProofs.RetentionAfterRun | src/select/retention.rs:33-100 | Retention is the same after a run, however it ended, exactly when every session that lost its parent is outranked by a full quota of the roots retained before |
| CleanProofs.RetentionShifts | src/delete/orphans.rs:112-128 | Three sessions and a sweep whose second pass fails: the kept root is another one afterwards |
| CleanProofs.NothingOrphanedRemains | src/delete/orphans.rs:69-132 | After an undisturbed sweeping run within the bound no orphan aggregate remains and only retained sessions dangle |
| CleanProofs.ChainRun | src/delete/orphans.rs:112-130 | A chain of dangling sessions is deleted as previewed exactly up to 32 sessions |
| Swap.PrepareSwap | src/reclaim/vacuum_into.rs:354-364 | Refuses, without touching anything, a database that is not the one compacted or whose sidecars hold data; otherwise succeeds exactly when the two removals work, and then no sidecar is left |
| Swap.QuiescentExactly | src/reclaim/vacuum_into.rs:659-673 | The sidecar check passes exactly when neither sidecar holds data |
| Swap.CreateRecoveryLink | src/reclaim/vacuum_into.rs:705-735 | The search for a free backup name ends, at the first number that no file has; a symlink there is refused; the link holds the original bytes under a name that was free; nothing that existed is touched; no link exactly with skip_backup and no hard links |
| Swap.Replace | src/reclaim/vacuum_into.rs:387-406 | The rename puts the compacted file in place; a failed rename leaves the database the original file and removes the recovery link, so that the answer is the rename's error, or a failed rollback exactly when that removal fails too |
| Swap.CriticalSection | src/reclaim/vacuum_into.rs:342-406 | At every step a name of the original is left, also when another process replaces the database after the link was made; failure leaves the database the original file; another process's file is never replaced; with the plain backup name free it swaps exactly when its operations work |
| Swap.Rollback | src/reclaim/vacuum_into.rs:819-846 | Succeeds exactly with a link and five working operations, and then the original is back and the link gone; at every step, also of a failing rollback, the original is reachable; no other file is written |
| Swap.Settle | src/reclaim/vacuum_into.rs:303-338 | The result is determined by the failing operations: a failed flush is returned as it is, with nothing changed; a failed verification restores the original exactly when there is a link and the rollback's operations work, and otherwise names where it is; verified means the compacted database is in place |
| Swap.CleanUp | src/reclaim/vacuum_into.rs:226-232 | Without a failing removal the temporary file and its sidecars are gone; nothing else is touched |
| Swap.Exchange | src/reclaim/vacuum_into.rs:371-406 | A database that is no longer the one compacted is left alone, with the original at the link; otherwise the rename takes place exactly when it works |
| Swap.VacuumInto | src/reclaim/vacuum_into.rs:234-339 | The safety of a whole vacuum under any failures and interference: the original reachable at every logged step until verification passes whenever a link is made, no name touched but its own, sidecars with data and an existing temporary file left alone, no old sidecar beside a swapped database, no temporary file unless its removal fails; exactly which vacuums swap when the backup name is free, and the result of each that does; when only the rename fails, its error, the original in place and no new backup; a swap refused by the signal controller is an interruption with the original in place |
| Swap.FlushFails | src/reclaim/vacuum_into.rs:303-315 | The sixth operation of a vacuum fails: the compacted database stays and only the recovery link has the original |
| Swap.RenameFails | src/reclaim/vacuum_into.rs:387-403 | The rename alone fails: its error is returned, the original is in place and no backup is left |
| Swap.OriginalBack | src/reclaim/vacuum_into.rs:303-338 | Only the verification fails: the original is back under its name and no backup is left |
| Swap.OriginalLost | src/reclaim/vacuum_into.rs:303-338 | No hard links, no backup wanted and a failed verification: no operation fails, the compacted database stays and the error names a backup that does not exist |
| Swap.Repeat | src/reclaim/vacuum_into.rs:705-758 | Any number of vacuums with any timestamps, all equal for instance, each safe: what is under a backup name before or after any of them, left by a success or a failure, is there with the same bytes after all later ones, and every success adds a name of its own |
| Disk.Disk.CopyExclusive | src/reclaim/vacuum_into.rs:775-804 | Never replaces an existing name; a failing copy touches at most the new name |
| Disk.Disk.Copy | src/reclaim/vacuum_into.rs:152-154 | Writes the destination in place; a failing copy leaves it spoilt |
| Signals.SignalController.NoteSignal | src/clean/signal.rs:78-96 | Sets the flag; defers during the swap, interrupts the statement of a reclaim, and otherwise ends the process exactly on the second signal |
| Signals.SignalController.Enter | src/clean/signal.rs:106-115 | Enters the swap exactly when no signal was seen |
| Signals.NoExitAfterEnter | src/clean/signal.rs:48-119 | In every interleaving of a cleanup or a vacuum command, once the swap was entered no handler ends the process |
| Signals.SwapIsQuiet | src/clean/signal.rs:48-119 | During the swap only deferred signals are pending and no statement is interrupted |
| Signals.DeferredIsSeen | src/clean/signal.rs:78-119 | Every signal of the swap is seen as a cancellation at every later moment |
| Signals.EnteredMeansUnsignalled | src/clean/signal.rs:106-115 | The swap is entered exactly when no signal arrived before the attempt |
| Gate.Semaphore.TryAcquire | src/parallel.rs:125-138 | One turn of the acquiring loop is one step: a permit, or waiting |
| Gate.Semaphore.Release | src/parallel.rs:146-155 | Returns the permit and wakes a waiting job if there is one |
| Gate.AtMostPermits | src/parallel.rs:111-156 | In every interleaving free and held permits add up to the permits, so at most as many jobs run as there are cores, and never more than one without any |
| Gate.NeverStuck | src/parallel.rs:111-156 | Until all jobs are done some job can take a step that is no spurious wake-up: no wake-up is lost |
| Gate.RunsEnd | src/parallel.rs:111-156 | A run has at most five steps per job besides those that spurious wake-ups cause |
| Gate.JoinAll | src/clean/command.rs:567-587 | Joining in declaration order yields the first declared failure, or exactly the values of all outcomes in order |
| Civil.CivilIsExact | src/report/format.rs:452-475 | Total on every second; the fields are a valid date whose calendar day count is the day's number, and the time is exact to the minute |
| Civil.CivilInverts | src/report/format.rs:452-475 | Every valid date and time is found again from any second of its minute |
| Civil.CivilMonotone | src/report/format.rs:452-475 | Later seconds never give earlier fields |
| Civil.YearOfEraExact | src/report/format.rs:460-463 | The year found for a day of a four-hundred-year era holds that day |
| Sizes.ParseExact | src/cli/types.rs:115-171 | A number is accepted exactly when it is digits with an optional fraction and a whole number of bytes below two to the 64th, which is the result |
| Sizes.SizeExact | src/cli/types.rs:75-171 | The same for a size with its unit; the earlier checks refuse nothing that the grammar accepts |
| Sizes.MegabytesParseBack | src/cli/types.rs:115-171 | Any byte count printed in megabytes with six decimals parses back to itself, and is refused exactly from two to the 64th on |
| Sizes.GigabytesParseBack | src/cli/types.rs:101-171 | Any byte count printed in gigabytes with nine decimals parses back to itself, and is refused exactly from two to the 64th on |
| Sizes.PlacesExactly | src/cli/types.rs:101-107 | The units are MB with six and GB with nine places, in any case of letters, and no others |
| Basics.TextLessExactly | src/select/retention.rs:75-84 | Identifiers are ordered as in a dictionary: the first difference decides, a prefix comes first |
| Incremental.Store.IncrementalVacuum | src/reclaim/incremental.rs:84-130 | However it ends the totals are those of the freelist at that moment; undisturbed it empties the freelist in ceil(n / batch) calls; it never makes more calls than there were pages, none after a cancellation or failure |

## Left out

- SQLite itself: locking, pragmas, WAL content, query planning and the bytes `VACUUM INTO` writes. Its output is some bytes that pass or fail the checks.
- The wall clock, batch deadlines and lock contention: they are the failing attempts of a `World`.
- The saturating counters of reports (`u64`) and SQLite's 64-bit sums: counts and bytes are unbounded, except in size parsing, epoch boundaries and the incremental vacuum.
- Unicode case folding: a run's folding is a finite table from string to string, empty when paths are case-sensitive.
- The byte columns of the preview and the descriptions of the largest sessions; only the row counts per table are modelled.
- The order and cut-off of the attribution report, its titles and message counts; size selection asks for all sessions.
- The storage sweep, snapshot removal, git garbage collection and directory scans: counters over directory entries.
- Confirmation, headroom checks, phases P15 to P21 other than the vacuum, JSON and human output, progress bars and exit codes.
- Command-line definitions, environment and path discovery, schema tiers and holder scanning; `Duration` parsing, which is a fixed multiplication.
- Descriptor anchoring, `/proc` paths, Windows calls and symlink races of the swap. An identity check compares the file under the database's name; another process acts at the two hook points only, because no code closes the window between the last check and the rename.
- An interfering process that writes into the database file instead of replacing it, and a change at the hook after the rename.
- The string forms of backup names: names are values that differ when timestamp, process or sequence number differ.
- Job bodies, their panics and spinners in the parallel groups: an outcome is a value that belongs to the job.
- Swap.VacuumInto: does not model the checkpoint of the source before it is compacted, nor its refusal when a WAL frame is left: the model starts from the tables `VACUUM INTO` reads.
- Sweep.DeleteOrphans: requires that the raw aggregates belong to no present session, as the selection on the same connection finds them; the source takes them from its caller and does not check.
- Sweep.DanglingPasses: does not model failures of the statements on the candidate table between the passes; such a failure ends the sweep with what had committed.
- Impact.TableImpact: does not model the byte totals, which are sums over the same rows.
- Impact.DatabaseImpact: does not model the byte totals and the largest sessions.
- Gate.JoinAll: does not model the join handles, a job's panic and the holder scan's own handling of failures, because outcomes are given values.
- Paths.GlobKeepsSeparator: requires that folding the case makes no character a separator, which Unicode lower-casing meets.
- The refusal of an SQLite without `octet_length()` by the attribution report: the model starts after that check.
- Clean.Run: does not model the prompt, so a confirmed run and a dry run are the two cases; the sweep's pass limit and the batch size are the program's defaults.
- Deletion.Connection.DeleteWithProgress: does not model failures while the temporary table is filled, when nothing has been deleted, nor a failure of the turn that finds no identifier left, when everything has been deleted.
- Signals.SignalController.NoteSignal: does not model a poisoned lock.
