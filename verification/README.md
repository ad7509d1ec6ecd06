# Verified model of the orchestration and governance core

This project models the stateful protocols and pure algorithms of the data-orchestration platform in Dafny and proves
what they promise. A table is a map or sequence of rows, a transaction an atomic step (or its statements one by one where
interleaving matters), a clock an integer, and a map walked in Go's unspecified order an arbitrary choice. Code that
updates state is a class or a loop proved against a specification function; the theorems are about those functions.

| module | what it models |
|---|---|
| `Graphs`, `Options` | walks, reachability and acyclicity, shared by the graph modules; optional values |
| `Dag` | subgraph collection, `BuildDAG` and Kahn's ordering, up to the plan of a run |
| `Pii` | pii propagation during a run planned by `Dag`, sticky overrides |
| `Lineage` | the recursive lineage queries and the unguarded neighborhood query |
| `LineageEdges` | the temporal edge table, and traversals as of the past |
| `RunQueue` | claim, heartbeat, executor transitions and reaper sweeps, interleaved |
| `Pool` | concurrency tokens, interleaved, and the step executor that uses them |
| `Text`, `Ledger`, `Governance` | the vote ledger, the review state machine over it, and the materialization gate |
| `Calendar`, `Listings`, `Partition`, `Backfill` | calendar and ISO weeks, partition keys and ranges, backfill specs and sensor keys |
| `Lattice`, `Names`, `Schema`, `Canonical` | type widening, schema diff and classification, the hashed canonical form |
| `Audit` | the hash-chained log and its verification |
| `Schedule` | missed-window accounting |
| `Policy`, `PolicyYaml`, `PolicyReads` | layered column policies: writers, tag defaults, the three readers |

Dates follow the Gregorian calendar of ISO 8601:2004 section 3.2.1 and its weeks (sections 3.2.2 and 4.1.4). SHA-256
(section 6.2 of FIPS 180-4) and JCS (section 3.2 of RFC 8785) stay opaque.

## Where the code differs from its documentation

The model follows the code. These differences are proved as exact conditions or shown by a concrete case:

- The vote ledger is text: a comment with a line break can inject token lines. The count is exact if and only if no comment
  does (`Ledger.CountExactIffNothingInjected`), and injected lines can approve a review below its quorum
  (`Governance.TwoVotesMeetQuorumOfThree`).
- `audit_log.seq` is drawn by the database while the hash uses the sentinel's number; a rollback burns an id and `Verify` then
  refuses an untouched log (`Audit.VerifyAcceptsExactly`, `Audit.RolledBackWriteBreaksVerify`).
- A repeated upstream is reported as a cycle (`Dag.BuildDAG`).
- A depth of zero or less still returns depth-1 lineage rows (`Lineage.DepthCap`), and column keys joined by dots can hide a
  reachable column (`Lineage.ColumnTraversalExactly`).
- An auto-approved review has no decision time and can still be decided (`Governance.OpenExactly`).
- `SyncStaticEdges` with no upstreams leaves stale edges active (`LineageEdges.SyncLeavesExactly`), and the first run moves
  `first_seen_at` forward, which changes answers about the past (`LineageEdges.PastChangesExactly`).
- The executor's transitions are not tied to the claim, so a displaced worker can end the run of its successor
  (`RunQueue.FinisherIsClaimant`).
- The scheduler reads its own clock and stores the database's: a window between the two readings of a fire is lost, or counted
  twice if the database's comes first (`Schedule.EveryWindowIsAccounted`).
- `sameSet` counts repetitions, so drift can be reported with nothing missing and nothing extra
  (`LineageEdges.EmptyDriftExactly`).
- Reloading `policies.yaml` is idempotent only if no asset with a policed column carries tags with different masks
  (`PolicyYaml.ReloadIsQuietExactly`).
- Primary-key flags of columns are hashed but never diffed (`Canonical.SameFormExactly`).
- The weekly backfill test is structural and takes some negative years too (`Backfill.GeneratedKeyAcceptedExactly`).
- A monthly fire on a day the previous month lacks gets its own month's key (`Schedule.FireKeysExactly`).

## Model

| member | source | states |
|---|---|---|
| `Dag.Walker.Walk` | internal/runtime/executor.go:675-691 | the recursive walk terminates on every registry; what it newly collects is needed by the asset it starts from and, on success, has all its own upstreams collected; it fails only on an unregistered upstream in the closure |
| `Dag.CollectSubgraph` | internal/runtime/executor.go:668-694 | buildSubgraph collects exactly the target's upstream closure, each asset once, and fails exactly when the closure names an unregistered asset |
| `Dag.BuildDAG` | internal/dag/dag.go:36-62 | succeeds exactly on distinct names, known upstreams, no repeated upstream and an acyclic edge set, and then holds exactly the declared vertices and edges; a repeated upstream is reported as a cycle |
| `Dag.RefusedEdge` | internal/dag/dag.go:47-57 | an edge is refused only if the whole input has a cycle or repeats an upstream |
| `Dag.TopologicalOrder` | internal/dag/dag.go:73-115 | Kahn's loop succeeds exactly on acyclic graphs, whatever order maps are walked in, and then lists each vertex once with every upstream before its dependants |
| `Dag.LeftoverCycle` | internal/dag/dag.go:107-115 | if a vertex is left with a waiting parent when the queue runs dry, the graph has a cycle |
| `Dag.TopologicalIsAcyclic` | internal/dag/dag.go:73-115 | only acyclic graphs have such an order |
| `Dag.TargetComesLast` | internal/runtime/executor.go:201-218 | in an order of the target's closure the target is last |
| `Dag.PlanRun` | internal/runtime/executor.go:176-218 | planning a run succeeds exactly when the closure is registered, repeats no upstream and is acyclic; the order then contains exactly the closure, upstreams first, the target last |
| `Pii.Store.ApplyOverride` | internal/governance/pii_propagator.go:114-222 | writes the override row (add wins over remove, neither keeps the flag) and an audit entry only the first time |
| `Pii.OverrideSetsFlag` | internal/governance/pii_propagator.go:135-141 | after a step the last of a column's overrides that adds or removes the flag decides it: added, also by one that removes as well, it is pii; removed it is not; without any it is pii exactly when it was before |
| `Pii.OverrideSetsFinalFlag` | internal/governance/pii_propagator.go:135-141 | and so it is at the end of any run of steps of different assets |
| `Pii.SetFlagStays` | internal/governance/pii_propagator.go:114-222 | a flag added or removed by override stays so over any later steps that do not override the column |
| `Pii.Store.PropagateUnion` | internal/governance/pii_propagator.go:229-337 | one depth-1 union: gains the flag if some upstream column has it, never touches an override row |
| `Pii.Store.Propagate` | internal/governance/pii_propagator.go:68-108 | overrides first, then unions of the outputs not overridden by this asset |
| `Pii.Store.OutputColumnsFromLineage` | internal/lineage/capture.go:314-339 | the columns the propagator visits: the keys of the reported lineage, empty or not, else of the default one, or the declared columns when it has no key; each once, in name order |
| `Pii.OutputNamesExactly` | internal/lineage/capture.go:314-339 | the names in terms of the report, the default and the declared columns |
| `Pii.Store.CaptureColumns` | internal/lineage/capture.go:173-211 | records the step's column edges and propagates over those columns in the same transaction |
| `Pii.StepEffect` | internal/governance/pii_propagator.go:68-108 | one step as a rule on any column: foreign columns are kept, overridden ones take the override's value, processed ones gain pii exactly when an upstream column has it |
| `Pii.RunComputesClosure` | internal/governance/pii_propagator.go:229-337 | over a whole run in topological order the depth-1 unions compute the transitive closure: every column is pii at the end exactly when it is reached from a seed through un-overridden processed columns |
| `Pii.ProcessedColumnPii` | internal/governance/pii_propagator.go:68-108 | a processed column without override is pii at the end exactly when it was before or such a path of length one or more leads to it |
| `Pii.RunTarget` | internal/runtime/executor.go:176-218 | plan, then capture step by step until one fails: an order exists exactly for plannable registries; what ran is closed under upstreams and complete exactly when nothing the target needs fails; and if column edges come from declared upstreams, a column is pii afterwards, also after a failed run, exactly when it is derived through the steps that ran |
| `Pii.UnionsCloseExactly` | internal/governance/pii_propagator.go:229-337 | for steps of different assets and column edges between assets, the depth-1 unions compute the closure for all tags and overrides if and only if no edge leads from the asset of a step to a column an earlier step puts out |
| `Pii.LaterSourceIsMissed` | internal/governance/pii_propagator.go:229-337 | along such an edge the column misses the flag its source gains by an override in the run |
| `Pii.OverridesAreSticky` | internal/governance/pii_propagator.go:114-222 | over any history an overridden column stays an override row and changes only through a later override of it |
| `Pii.OverridesAuditedOnce` | internal/governance/pii_propagator.go:176-222 | over any history of runs every column ever overridden has exactly one audit entry |
| `Lineage.TraverseExact` | internal/lineage/queries/lineage.sql.go:14-59 | for any key function a node is returned at a depth exactly when a walk of that length, with no key repeated after its second node, leads there within the cap |
| `Lineage.TraverseIsBoundedReachability` | internal/lineage/queries/lineage.sql.go:14-59 | on every edge set, cyclic ones included, a node other than the root is returned exactly when some walk of length at most the cap reaches it, and its least reported depth is the shortest distance |
| `Lineage.AssetsByRows` | internal/lineage/queries/lineage.sql.go:14-59 | in the table's rows: an asset is named exactly when a chain of rows leads there within the cap, each joined to the next, downstream from its source to its target and otherwise back, each not superseded, or as of t seen by t and not ended by t |
| `Lineage.ColumnsByRows` | internal/lineage/queries/lineage.sql.go:104-153 | the same for columns of distinct path keys |
| `Lineage.SupersededRowsAreUnread` | internal/lineage/queries/lineage.sql.go:30-33 | without an as-of time, rows already superseded put into the table change no traversal |
| `Lineage.RootOnlyBySelfLoop` | internal/lineage/queries/lineage.sql.go:52-56 | the root is returned only for a self-loop, at depth 1 |
| `Lineage.AssetKeysInjective` | internal/lineage/queries/lineage.sql.go:14-59 | the asset traversal always meets the condition of the reachability theorem |
| `Lineage.ColumnKeysInjective` | internal/lineage/queries/lineage.sql.go:104-153 | the column traversal meets it when column names contain no dot |
| `Lineage.CollidingKeysHideColumn` | internal/lineage/queries/lineage.sql.go:104-153 | two columns with one path key hide a reachable column, in either direction and as of any time |
| `Lineage.ColumnTraversalExactly` | internal/lineage/queries/lineage.sql.go:104-153 | over a set of columns the traversal names what bounded reachability names, for every edge table, root and depth, if and only if the set has at most two columns or no two of them share a path key |
| `Lineage.NeighborhoodExact` | internal/lineage/neighborhood/neighborhood.go:37-48 | the unguarded neighborhood query reports exactly the walk lengths up to its depth |
| `Lineage.NeighborsByRows` | internal/lineage/neighborhood/neighborhood.go:37-48 | in the table's rows: an asset is reported at a depth exactly when a chain of that many rows not superseded leads there |
| `Lineage.SupersededRowsAreNoNeighbors` | internal/lineage/neighborhood/neighborhood.go:37-48 | and superseded rows change no neighborhood |
| `Lineage.TraversalAgreesWithNeighborhood` | internal/lineage/neighborhood/neighborhood.go:37-48 | before LIMIT the traversal asked for any depth names the non-root assets the neighborhood query names at that depth or at the ceiling of 25, whichever is less |
| `Lineage.QueriesAgreeExactly` | internal/lineage/neighborhood/neighborhood.go:37-48 | asked for one and the same depth, beyond the ceiling too, the two name the same non-root assets exactly when every one reached within that depth is reached within 25 hops |
| `LineageEdges.Writer.SyncStaticEdges` | internal/lineage/capture.go:68-124 | invalid input and self-edges change nothing; an empty upstream list is a no-op; otherwise upsert of every upstream, then retirement of the rest |
| `LineageEdges.FirstRunIsFirstCapture` | internal/lineage/capture.go:213-233 | in every history a row stays unattributed until the first capture of its asset after the sync that declared it, and from then on carries that capture's run and time as its first |
| `LineageEdges.ActiveRowsAreCurrent` | internal/lineage/capture.go:84-124 | in every history an active row carries the hash of the latest accepted sync that declared it, the run of its asset's latest capture once it has a run, and the time of the later of the two |
| `LineageEdges.SyncLeavesExactly` | internal/lineage/capture.go:68-124 | after any history, a successful call leaves exactly the declared upstreams active if and only if it declares some or none was active; a refused call changes nothing and an asset naming itself is never in sync |
| `LineageEdges.StaleUpstreamStays` | internal/lineage/capture.go:73-75 | an asset that stops declaring its only upstream keeps the edge active |
| `LineageEdges.HistoryKeeps` | internal/lineage/capture.go:68-124 | under any sequence of syncs and captures on one clock, the validity intervals of the rows for one edge follow one another |
| `LineageEdges.NeverTwiceVisible` | internal/lineage/queries/lineage.sql.go:30-33 | so no two rows for one edge are visible at one instant |
| `LineageEdges.PastChangesExactly` | internal/lineage/capture.go:219-228 | an operation changes how an existing row looks at an earlier time exactly when it is the first capture of an active, unattributed row that was visible then |
| `LineageEdges.AttributedPastIsFixed` | internal/lineage/capture.go:213-233 | once a row is attributed to a run no later operation changes its visibility at any earlier time |
| `LineageEdges.PastTraversalIsFixed` | internal/lineage/queries/lineage.sql.go:14-59 | a traversal as of a past instant gives the same answer after any operation that is not such a first capture |
| `LineageEdges.TableExactly` | internal/lineage/queries/lineage.sql.go:14-59 | the edges those queries read are exactly the table's rows |
| `LineageEdges.SameSet` | internal/lineage/capture.go:353-368 | sameSet compares upstream lists as multisets |
| `LineageEdges.SetDiff` | internal/lineage/capture.go:371-394 | missing and extra are the sorted set differences |
| `LineageEdges.EmptyDriftExactly` | internal/lineage/capture.go:252-263 | both are empty exactly when the lists name the same upstreams, so drift caused by repetition alone reports neither |
| `RunQueue.RunTable.ClaimNext` | internal/run/claim.go:68-152 | claims an unlocked queued run that is first in line, none exactly when there is none, and changes nothing but that row's state, worker and heartbeat |
| `RunQueue.FirstInLineExactly` | internal/run/priority.go:39-49 | first in line in the row's fields: critical whenever a critical run is queued and unlocked, backfill only if all are, any other text in between, and nothing of its own tier queued earlier |
| `RunQueue.ClaimSelectsFirst` | internal/run/claim.go:79-97 | the claim step of the interleaved model selects a run that is first in line |
| `RunQueue.FinisherIsClaimant` | internal/runtime/executor.go:643-650 | the update asks for the state only: in every interleaving a worker's terminal transition goes through, and finds the run claimed by that worker exactly when no other worker was the last to claim it |
| `RunQueue.DisplacedWorkerFinishes` | internal/runtime/executor.go:643-650 | the history in which a worker whose run was reset and claimed again ends the new claim |
| `RunQueue.HeardRunKeepsClaimant` | internal/run/claim.go:158-165 | while a run is heard of within H < StaleAfter its claim stays with its worker |
| `RunQueue.RunTable.SweepOnce` | internal/run/reaper.go:79-161 | an undisturbed sweep resets exactly the stale runs and counts them |
| `RunQueue.StepMoves` | internal/run/lifecycle.go:19-39 | every way a step of any worker can change one row |
| `RunQueue.EdgesExactly` | internal/run/lifecycle.go:19-39 | the edges of the two transition tables, one by one |
| `RunQueue.HeartbeatExactly` | internal/run/claim.go:158-165 | a heartbeat stamps exactly the in-flight run its worker believes to hold |
| `RunQueue.ExecuteExactly` | internal/runtime/executor.go:643-650 | a worker moves only such a run, from starting to running or from running to its end, and only from the state it thinks the run is in |
| `RunQueue.BeliefsExactly` | internal/run/claim.go:111-130 | a worker comes to believe it holds a run by committing a claim only, and gives that up by stopping or ending it; a sweep keeps its cutoff |
| `RunQueue.SweepExactly` | internal/run/reaper.go:79-143 | an undisturbed sweep resets a run exactly if it is in flight and was last heard of before the instant staleAfter back, keeping its priority and queue time |
| `RunQueue.ReachableInv` | internal/run/reaper.go:79-161 | the row, claim and sweep invariants hold in every state any interleaving reaches |
| `RunQueue.EveryInterleaving` | internal/run/lifecycle.go:19-39 | in every interleaving each change is an edge of the two tables, claimed_by and last_heartbeat are null exactly on queued rows, and a claim never finds its locked row gone from queued |
| `RunQueue.TerminalIsFinal` | internal/run/lifecycle.go:19-39 | terminal rows never change again |
| `RunQueue.ClaimsMinusResets` | internal/run/claim.go:111-130 | over any steps, successful claims minus successful resets is the change in being held |
| `RunQueue.ClaimBalance` | internal/run/claim.go:111-130 | from the empty queue: 0 while queued, 1 otherwise |
| `RunQueue.HeartbeatingRunIsNeverReset` | internal/run/reaper.go:79-143 | a run heard of at most H < StaleAfter ago at all times is never reset, although each sweep fixes its cutoff before it selects and updates |
| `RunQueue.SilentRunIsReset` | internal/run/reaper.go:79-143 | a run in flight and silent for more than StaleAfter when a sweep begins is reset before the sweep ends, whatever concurrent sweeps do, and at most once per claim in between |
| `Pool.CapacityNeverExceeded` | internal/concurrency/pool.go:54-134 | with Acquire split into lock, sum, insert and commit, in every interleaving with releases and any lock-key collisions the committed weight of a tag stays within its non-negative limit |
| `Pool.CommitKeepsInv` | internal/concurrency/pool.go:54-104 | the sum read under the lock is still an upper bound when the transaction commits |
| `Pool.DeleteKeepsInv` | internal/concurrency/pool.go:108-134 | deletions by any release keep every open transaction's bound |
| `Pool.FilterLowersWeight` | internal/concurrency/pool.go:106-134 | deleting rows never raises a tag's sum |
| `Pool.UndisturbedAcquire` | internal/concurrency/pool.go:54-104 | an acquisition no one interferes with leaves one row with its units exactly when they fit beside what is committed, and no trace otherwise |
| `Pool.ReleasesExactly` | internal/concurrency/pool.go:106-134 | which rows a release of one tag, of a run, and of stale rows take out, each with its multiplicity; a lock held under the same key is waited for |
| `Pool.StepRunner.Acquire` | internal/concurrency/pool.go:54-104 | adds one row of this run with its units, at least one, exactly when nothing faults and they fit under the tag's limit, and else none |
| `Pool.StepRunner.Release` | internal/concurrency/pool.go:106-112 | removes exactly this run's rows of the tag |
| `Pool.StepRunner.AcquireAll` | internal/runtime/executor.go:335-383 | all of global, backfill for a backfill run, and each declared resource are held, with their units, exactly when each of them fits without a fault after those before it; on failure every token acquired so far has been released |
| `Pool.RoomAdmits` | internal/runtime/executor.go:335-383 | without faults and with room for all an attempt asks for under every limit, it is admitted |
| `Pool.StepRunner.RunStep` | internal/runtime/executor.go:270-451 | on every exit the run holds no token and other runs' rows are as they left them; behind the gate, which alone answers gated, the outcome is that of the attempt that ends the step, and materialize was called once for each admitted attempt up to it whose mask rules resolve |
| `Pool.AnswerMeans` | internal/runtime/executor.go:270-451 | a step materializes exactly when some allowed attempt is admitted, resolves its mask rules and materializes, none before it failing on its mask rules; it then succeeds or fails with the commit; retries or tokens are exhausted only at the last allowed attempt |
| `Ledger.CountApprovals` | internal/governance/workflow.go:611-622 | the loop counts the lines marked as approvals |
| `Ledger.HasPriorVoteByDecider` | internal/governance/workflow.go:627-640 | the loop finds a line of either token of the decider |
| `Ledger.VoteLineExactly` | internal/governance/workflow.go:345-345 | the line a vote adds, literally |
| `Ledger.CountMarkedExactly` | internal/governance/workflow.go:611-622 | a count is the number of lines whose trimmed text starts with the token |
| `Ledger.AppendCounts` | internal/governance/workflow.go:345-346 | joining, trimming and splitting neither lose nor invent token lines |
| `Ledger.CountIsApprovalsPlusInjected` | internal/governance/workflow.go:611-622 | for any comments the count is the approvals cast plus the approval lines that comments inject after a line break |
| `Ledger.CountExactIffNothingInjected` | internal/governance/workflow.go:611-622 | the count equals the approvals accepted exactly when no comment injects such a line |
| `Ledger.NewlineFreeInjectsNothing` | internal/governance/workflow.go:345-346 | newline-free comments inject nothing |
| `Ledger.PriorVoteExact` | internal/governance/workflow.go:627-640 | a prior vote is found exactly for those who voted or in whose name a comment injects a line |
| `Ledger.LedgerRefinesVotes` | internal/governance/workflow.go:611-640 | with newline-free comments the ledger is exactly the votes cast |
| `Ledger.InjectedLineIsCounted` | internal/governance/workflow.go:611-622 | one vote whose two-line comment is counted as more than one approval |
| `Governance.Check` | internal/governance/auto_approval.go:100-174 | auto-approval exactly when every probe passes, blocked exactly on a hard failure, with the failed checks in order and the first one's reason; else the one soft check that asks for a human |
| `Governance.Workflow.Submit` | internal/governance/workflow.go:104-262 | one review row, one event and one flip of the version, or no change at all |
| `Governance.SubmittedReview` | internal/governance/workflow.go:104-262 | the row an accepted submission leaves: its reviewers, with the privacy team once each when a soft check asks for it, the quorum asked for, or the pool's size for everybody, at least one, and its status |
| `Governance.SubmitRefusedExactly` | internal/governance/workflow.go:191-200 | a submission is refused on insert exactly while the version has an undecided review or the id is taken; a refusal changes nothing |
| `Governance.Workflow.Decide` | internal/governance/workflow.go:285-451 | refuses decided reviews, the submitter and repeat voters; otherwise appends the vote and, at quorum or on rejection, decides the review and flips the version |
| `Governance.ReassignmentsDecideNothing` | internal/governance/workflow.go:461-517 | in every run, reviews, ledgers, decisions, versions and log are what they would be without any reassignment, up to the pools: the quorum was fixed at submission |
| `Governance.RunKeepsInv` | internal/governance/workflow.go:285-451 | the invariant relating reviews, ledger, versions and event log in every reachable state |
| `Governance.ApprovedReviewVotes` | internal/governance/workflow.go:285-451 | for any comments an approved review's votes are approvals of pairwise distinct deciders, none the submitter, and the last is the first at which the approvals cast and the lines injected before it reach the quorum; so they never exceed it |
| `Governance.ApprovedCarriesQuorum` | internal/governance/workflow.go:285-451 | with newline-free comments it carries exactly its stored quorum of approvals |
| `Governance.ApprovedAsAsked` | internal/governance/workflow.go:644-655 | from the submission itself: with newline-free comments a review asked for q >= 1 is approved with exactly q approvals, one asked for everybody with as many as its pool had roles, or one for an empty pool, any other with one |
| `Governance.TwoVotesMeetQuorumOfThree` | internal/governance/workflow.go:345-376 | the run in which a review asking for three approvals is approved with two, a comment's second line counting as one |
| `Governance.DecidedIsFinal` | internal/governance/workflow.go:285-330 | a decided review's status, decider, ledger and pool never change again |
| `Governance.ActiveIsJustified` | internal/governance/workflow.go:104-262 | a version is active only if its latest flip came from a quorum approval or from an auto-approval with every check passing |
| `Governance.GateNeedsJustification` | internal/runtime/executor.go:284-333 | so with the gate on and its query answered only a justified version is materialized |
| `Governance.GateExactly` | internal/runtime/executor.go:284-333 | the gate lets a version pass exactly if it is off, its query fails, or the version is active |
| `Governance.OpenExactly` | internal/governance/workflow.go:285-330 | a reachable review can still change exactly when it has no decided_at, that is while it is in review or auto-approved |
| `Governance.AutoApprovalStaysOpen` | internal/governance/workflow.go:191-200 | an auto-approved review stays undecided: it blocks resubmission and a later rejection still refuses the version |
| `Calendar.DateRoundTrip` | internal/partition/keygen.go:21-24 | valid dates and days are in bijection |
| `Calendar.CycleForm` | internal/partition/keygen.go:21-24 | the first day of a year follows the 400-year leap cycle |
| `Calendar.IsoYearExactly` | internal/partition/keygen.go:29-32 | the Thursday rule gives week-year y exactly from the Monday of the week of 4 January of y up to the next year's |
| `Calendar.IsoWeekNumber` | internal/partition/keygen.go:29-32 | and numbers those weeks from 1 |
| `Calendar.LongYearsExactly` | internal/partition/keygen.go:26-32 | a year has a 53rd week exactly when it starts on a Thursday, or on a Wednesday in a leap year |
| `Partition.StartOfDayExactly` | internal/partition/keygen.go:57-61 | the day an instant lies in, of 24 hours, before day 0 as well |
| `Partition.IsoWeekStart` | internal/partition/keygen.go:94-102 | the Monday on or before the day |
| `Partition.KeyNamesWindow` | internal/partition/keygen.go:21-32 | two days have one key exactly when they lie in one day, ISO week or month, for all years |
| `Partition.MonthlyKeyReads` | internal/partition/keygen.go:21-24 | a monthly key reads as the year and month of its days |
| `Partition.WeeklyKeyReads` | internal/partition/keygen.go:29-32 | a weekly key reads as the ISO year and week of its days |
| `Partition.DailyKeyReads` | internal/partition/keygen.go:20-21 | a daily key reads as the year, month and day of its day |
| `Partition.KeysBetween` | internal/partition/keygen.go:57-89 | inverted ranges are refused before category strategies; otherwise the keys of the windows from the start's to the end's, in order |
| `Partition.RangeIsExact` | internal/partition/keygen.go:57-89 | the keys are exactly the keys of the days of the range |
| `Partition.RangeIsChronological` | internal/partition/keygen.go:57-89 | each once and in time order |
| `Partition.PrecedingKeyExactly` | internal/schedule/fire.go:187-202 | one day, week or month back names the previous window, but a day's own month when the month before has no day of its number; later days never name earlier windows, and keys are equal exactly when the windows named are |
| `Backfill.ValidateKey` | internal/backfill/spec.go:138-177 | the verdict and error for every strategy, with the scan of declared category keys |
| `Backfill.DayKeysExactly` | internal/backfill/spec.go:143-146 | a daily key is accepted exactly if it is the generated key of a day of the years 0 to 9999, the one it is parsed as |
| `Backfill.MonthKeysExactly` | internal/backfill/spec.go:154-157 | a monthly key exactly if it is the generated key of a day of those years |
| `Backfill.OtherKeysExactly` | internal/backfill/spec.go:147-172 | a weekly key by its length and its -W alone, a category key if declared, not empty, of 128 characters at most and without a slash |
| `Backfill.WeekKeysExactly` | internal/sensor/evaluate.go:454-478 | the sensor takes exactly four digits, -W or -w, and the two digits of 1 to 53 |
| `Backfill.GeneratedKeyAcceptedExactly` | internal/backfill/spec.go:138-177 | a generated daily or monthly key is taken back exactly for years 0 to 9999, a weekly one exactly for week-years 1000 to 9999 and -999 to -100 |
| `Backfill.WeekTextAcceptedExactly` | internal/sensor/evaluate.go:454-478 | the sensor's weekly test takes exactly 1000 to 9999 |
| `Backfill.SensorKeepsKeyExactly` | internal/sensor/evaluate.go:412-450 | a generated key is returned unchanged at every time for those years; outside them only if it is the fallback anyway |
| `Backfill.FallbackIsPreceding` | internal/sensor/evaluate.go:412-450 | whatever text is refused, the fallback is the key of one day, week or month back |
| `Backfill.SensorKeyExactly` | internal/sensor/evaluate.go:412-450 | an acceptable key is kept; a category key not declared becomes the empty key |
| `Backfill.ParsePartitionSpec` | internal/backfill/spec.go:54-83 | the dispatch between range, list and single key, and the limit |
| `Text.TrimExactly` | internal/backfill/spec.go:55-58 | trimming takes white space off both ends, leaves none there, and nothing of a blank text |
| `Text.SplitExactly` | internal/backfill/spec.go:108-108 | the pieces hold no separator and give the text back when joined |
| `Backfill.ParsedKeysAreAccepted` | internal/backfill/spec.go:54-83 | a parsed spec has at least one key and no more than the limit, 3650 unless one is given; a list or single key holds acceptable keys only |
| `Backfill.SpecExactly` | internal/backfill/spec.go:54-83 | which single keys and lists are parsed, and to exactly which keys |
| `Backfill.FirstRefusalDecides` | internal/backfill/spec.go:107-123 | a list with an unacceptable piece is refused with the error of the first one |
| `Backfill.RangeKeysExactly` | internal/backfill/spec.go:89-103 | a parsed range holds exactly the keys of the days between its dates |
| `Backfill.RangeRefusedExactly` | internal/backfill/spec.go:89-103 | it is refused for dates that are none, dates in the wrong order, a category strategy, or too many keys, in this order |
| `Backfill.ListRoundTrip` | internal/backfill/spec.go:107-123 | acceptable keys joined by commas parse back to themselves |
| `Backfill.RangeAndListAgree` | internal/backfill/spec.go:54-83 | a range and the comma list of its keys select the same partitions when the validator takes its years |
| `Lattice.LatticeIsFits` | internal/schema/lattice_postgres.go:36-99 | the branches decide membership of one type family exactly and, inside it, exactly one partial order |
| `Lattice.WideningIsAnOrder` | internal/schema/lattice_postgres.go:36-99 | widening is reflexive and transitive across all families, and mutual exactly for equal types |
| `Lattice.NumbersWiden` | internal/schema/lattice_postgres.go:10-34 | int16 widens to int32 and int64, int32 to int64 and float32 to float64, never the other way |
| `Lattice.TextsWiden` | internal/schema/lattice_postgres.go:36-99 | varchar widens by length and to text, never from text |
| `Lattice.DecimalsWiden` | internal/schema/lattice_postgres.go:36-99 | decimal widens exactly when neither precision nor scale shrinks |
| `Lattice.FamiliesApart` | internal/schema/lattice_postgres.go:36-99 | nothing widens across families |
| `Lattice.VarcharReadsBack` | internal/schema/lattice_postgres.go:103-113 | a printed length parses back unless it overflows 64 bits |
| `Lattice.DecimalReadsBack` | internal/schema/lattice_postgres.go:117-128 | a printed precision and scale parse back, whatever blanks follow the comma |
| `Names.SortedKeys` | internal/schema/diff.go:159-166 | the one sorted listing of a key set, whatever order the map is walked in |
| `Names.LeqExactly` | internal/schema/diff.go:159-166 | the order is the lexicographic one: the shorter or the smaller at the first difference comes first |
| `Schema.Diff` | internal/schema/diff.go:45-156 | additions, drops and attribute changes in name order, then the key change, as specified by name |
| `Schema.DiffRebuilds` | internal/schema/diff.go:45-156 | replaying a diff over prev's columns rebuilds next's types, nullability and defaults, and the comments of kept columns |
| `Schema.DiffEmptyExactly` | internal/schema/diff.go:45-156 | a diff is empty exactly when all compared attributes and the key lists agree |
| `Schema.OnlyCommentsExactly` | internal/schema/diff.go:45-156 | it holds comment changes only exactly when everything else compared agrees |
| `Schema.WrittenKind` | internal/schema/classify.go:22-68 | only a provisional widening is rewritten, exactly when the lattice does not call it one, and the breaking flag follows from the type written |
| `Schema.ClassifyExactly` | internal/schema/classify.go:22-68 | the type written and the breaking flag of any change, from a diff or not; a missing or unknown type is written as a narrowing |
| `Schema.NonBreakingExactly` | internal/schema/classify.go:22-68 | no change is breaking exactly when the key stays and every column survives at least as wide and as nullable |
| `Schema.NonBreakingComposes` | internal/schema/classify.go:22-68 | if no adjacent pair of a history of any length yields a breaking change, the diff from first to last yields none |
| `Canonical.SortByName` | internal/schema/hash.go:51-51 | sorts the columns in place by name, keeping the multiset |
| `Canonical.CanonicalForm` | internal/schema/hash.go:29-57 | the hashed value: columns by name without comments, the key in its own order |
| `Canonical.SameFormExactly` | internal/schema/hash.go:29-69 | with unique names two canonical forms agree exactly when the diff holds comment changes only and the per-column key flags agree |
| `Audit.Connection.WriteEntry` | internal/audit/writer.go:34-90 | lock, insert and sentinel update as steps of one transaction; returns the hashed sequence number |
| `Audit.Connection.ComputeSelfHash` | internal/audit/writer.go:93-130 | the hashed bytes: sequence, previous digest, time, then the remaining fields without separators |
| `Audit.EveryFieldIsHashed` | internal/audit/writer.go:93-130 | entries that differ in one field alone have different bytes; an absent actor and an empty one are the same |
| `Audit.OnlyHolderActs` | internal/audit/writer.go:34-90 | while one transaction holds the sentinel the others' steps change nothing, and only a commit changes rows or sentinel |
| `Audit.EveryRunIsAChain` | internal/audit/writer.go:34-90 | for concurrent writers with arbitrary rollbacks the committed rows are one chain numbered 1..n whose head is the sentinel |
| `Audit.HeadDeterminesRows` | internal/audit/writer.go:17-33 | with an injective hash two non-empty chains with one head have one length and agree in every row's encoding |
| `Audit.Verify` | internal/audit/verify.go:32-126 | accepts exactly an empty range, or one whose rows follow on in id and hash to their stored digests over their predecessors; else the first row that does not tells whether the ids or the digests break, and how many were scanned; an absent predecessor is its own failure |
| `Audit.VerifyAcceptsExactly` | internal/audit/verify.go:32-126 | from id 2 on, a non-empty range is accepted exactly when no id was burned by a rollback up to its last row and every row is read back as hashed |
| `Audit.RolledBackWriteBreaksVerify` | internal/audit/verify.go:32-126 | one rolled-back write followed by two committed ones makes Verify refuse an untouched log |
| `Schedule.ComputeNextAndDetectMiss` | internal/schedule/missed.go:54-96 | terminates and returns the next window after now if none has come since a past last fire or the year-back start, else the greatest window not after now, with missed = windows in (last, now] minus 1 for a row fired before |
| `Schedule.EpochIs1970` | internal/schedule/missed.go:58-61 | the threshold for never having fired is 1 January 1970 |
| `Schedule.YearBeforeExactly` | internal/schedule/missed.go:62-66 | a row never fired is walked from the same time of day on the same date a year earlier, 1 March for 29 February |
| `Schedule.LatestIsUnique` | internal/schedule/missed.go:54-96 | there is one such window |
| `Schedule.ScheduleRow.FireOne` | internal/schedule/fire.go:38-165 | a row not due or a failed transaction changes nothing; a window still ahead only rolls next_fire_at forward; a fire updates all fields |
| `Schedule.EveryWindowIsAccounted` | internal/schedule/fire.go:46-132 | over any sequence of ticks, whatever the two clocks read, fired windows strictly increase, and fired, missed and in-between windows make up all windows from the first fired one to the last fire; so every window is accounted for at every fire if and only if none lies between the now and the NOW() of a fire but the last |
| `Schedule.WindowBetweenClocksIsLost` | internal/schedule/fire.go:119-132 | a window between the two readings is neither fired nor reported: the tick at it only rolls on, and the next fire's count is one short |
| `Schedule.FireKeysExactly` | internal/schedule/fire.go:187-202 | in every history each fire carries the key of the window PrecedingKeyExactly names; keys never go back in time, and two fires share one exactly when they name one window |
| `Schedule.FireKeyExactly` | internal/schedule/fire.go:187-202 | the empty key without a registered asset or declared keys, the first declared key of a category asset, else the key of one day, week or month before |
| `Schedule.DueExactly` | internal/schedule/fire.go:46-60 | an unpaused row that has fired is due once a window has come since both readings, never before one has come since its time, and exactly then if none lies between them |
| `Policy.Store.Apply` | internal/policy/store.go:162-312 | invalid input changes nothing; otherwise the active builder rows of the asset are exactly the declared policies, everything else is untouched, and rows and audit entries written are counted by the differing and dropped columns |
| `Policy.DeclaredRowExactly` | internal/policy/store.go:243-312 | the row a declared column has afterwards, field by field |
| `Policy.ModeSetExactly` | internal/policy/store.go:567-582 | the enforcement mode is set on the column's active rows of every layer, and nothing else changes |
| `Policy.ApplyAgainIsQuiet` | internal/policy/store.go:154-156 | repeating Apply adds no row and no audit entry |
| `Policy.Store.Patch` | internal/policy/store.go:318-426 | replaces the runtime row and returns the override itself as the effective policy |
| `Policy.Store.Delete` | internal/policy/store.go:432-468 | retires the runtime row, or reports it missing and changes nothing |
| `Policy.Store.Resolve` | internal/policy/store.go:484-522 | the first layer with an active row |
| `Policy.DeleteUndoesPatch` | internal/policy/store.go:432-468 | deleting a first override restores the resolution of every column |
| `PolicyYaml.ApplyYAML` | internal/policy/yaml_loader.go:65-219 | carries out the planned loads, tag by tag, and returns the number of rows written |
| `PolicyYaml.LoadedRowExactly` | internal/policy/yaml_loader.go:128-213 | a loaded column carries the tag's mask, kept or written anew with its audit entry |
| `PolicyYaml.LastTagWins` | internal/policy/yaml_loader.go:84-219 | a policed column of an asset with several tags ends with the mask of the tag that comes last by name |
| `PolicyYaml.OthersKeepDefault` | internal/policy/yaml_loader.go:93-219 | columns without an active row, and those of assets without a tag of the configuration, keep the default they had |
| `PolicyYaml.ReloadIsQuietExactly` | internal/policy/yaml_loader.go:58-64 | reloading an unchanged configuration writes nothing exactly when no asset with a policed column carries two tags with different masks |
| `PolicyYaml.TwoMasksReloadWrites` | internal/policy/yaml_loader.go:58-64 | a reachable table on which loading the same configuration twice writes again: a patched column of an asset with two tags of different masks |
| `PolicyYaml.YamlKeepsHigherLayers` | internal/policy/yaml_loader.go:65-219 | a reload never changes the resolution of a column with a runtime or builder row |
| `PolicyYaml.HistoryKeeps` | internal/policy/store.go:162-468 | over any serial sequence of operations there is one active row at most per asset, column and source, retired rows never change and nothing leaves the table or the audit log |
| `PolicyYaml.EffectExactly` | internal/policy/store.go:162-582 | what each operation of a history leaves of any key's active row, and that it leaves all others |
| `PolicyReads.PickedExactly` | internal/policy/store.go:673-692 | the SQL ranking picks the highest layer whose active row is not left to the warehouse |
| `PolicyReads.ExpectedByColumn` | internal/policy/reconciler.go:117-129 | the reconciler's loop keeps a row of highest priority per column |
| `PolicyReads.ExpectedIsResolved` | internal/policy/reconciler.go:117-129 | which is what the resolver resolves |
| `PolicyReads.ReadersAgreeExactly` | internal/policy/store.go:665-759 | ranking and resolver agree on a column exactly when the resolved row is not warehouse-native |
| `PolicyReads.ThreeReadersAgree` | internal/policy/store.go:665-759 | without warehouse-native rows all three implementations of the precedence pick one row for every column |
| `PolicyReads.MaskRulesForAsset` | internal/policy/store.go:665-759 | one rule per column: the picked row's mask, else the pii fallback when no layer has a row |
| `PolicyReads.RuleExactly` | internal/policy/store.go:665-759 | the rule is the hash, redact or partial mask of the picked row, or redact for a pii column without an active row |
| `PolicyReads.PiiUnruledExactly` | internal/policy/store.go:720-759 | a pii column goes without a rule exactly when it has active rows and the warehouse has all of them |
| `PolicyReads.FindDrift` | internal/policy/reconciler.go:98-157 | drift is recorded exactly for resolved masks past the grace period that the warehouse lacks or differs in, and for masks nothing asks for |

## Left out

- Audit.Verify: the starting hash for from = 1 is the moving sentinel, as in the code, but nothing beyond the method's contract is claimed for it; the entry it appends on a mismatch is not modelled.
- Audit.Connection.ComputeSelfHash: bytes, SHA-256 and JCS are abstract; the hash is a function of sequence number, previous digest, time and one run of bytes, so a byte moved from one field to the next is not told apart.
- Audit.VerifyAcceptsExactly: what storing and reading a row does to its time and payload (microsecond timestamps, JSONB text) is an arbitrary function; whether a given driver reads rows back as hashed is not decided.
- Audit.EveryRunIsAChain: the retention job's deletes are not steps, so it speaks of the log before any purge.
- Dag.HeimdalrDag: the DAG library is not part of this model; the class states its documented contract for vertices and edges.
- Pool.StepRunner.RunStep: backoff delays, jitter, log events and the success transaction's contents are left out; the world decides faults, mask resolution, materialization and commit. Deletes by Release do not fail.
- Pool.CapacityNeverExceeded: limits are non-negative, weights are unbounded integers, and lock waiting is a step that is not yet enabled.
- RunQueue.HeartbeatingRunIsNeverReset: how often the heartbeat goroutine runs is the hypothesis; its ticker is not modelled.
- RunQueue.SilentRunIsReset: the sweep meets no database error; a skipped update after an error is not modelled.
- Governance.Check: the probes' queries are parameters; their contents (schema changes, coverage, rules) are not modelled.
- Governance.Workflow.Submit: reviewer resolution yields the role list as a parameter; notifications, events and audit entries other than the decisions are left out.
- Lineage.TraverseExact: results are sets of rows; ORDER BY, LIMIT and paging are left out, as is the edge query between the returned assets.
- Pii.RunTarget: which steps fail is a parameter; the run's state, tokens and retries are those of RunQueue and Pool.
- RunQueue.FinisherIsClaimant: an executor is named by its worker and run, so two claims of one run by one worker are one executor.
- Pii.Store.CaptureColumns: propagated_from is a set, not the sorted JSON list; column edges are never retired, as in the code.
- LineageEdges.FirstRunIsFirstCapture: asset_versions rows and lineage events are left out.
- Schema.DiffRebuilds: a diff does not record the comment of an added column, so the rebuilt view has an empty one there.
- Canonical.CanonicalForm: JSON and the digest are an injective encoding that is not modelled; row-count estimates and capture times are not fields here.
- Schedule.ComputeNextAndDetectMiss: the cron parser is not part of this model; Next is any function with the least-window law, which leaves out expressions that never fire.
- Schedule.EveryWindowIsAccounted: the database's clock reads later than 1970; the scheduler's clock may read anything, and the row may be paused and resumed at any time.
- Lattice.DecimalReadsBack: what decimal widening means for stored values is not claimed; precision and scale are compared one by one, as in the code.
- PolicyYaml.ApplyYAML: the masks are those LoadYAML has validated; YAML parsing and the tag query are parameters.
- Policy.Store.Patch: the sync job enqueued and the actor recorded are left out, as are all row timestamps but last_seen_at.
- Backfill.ValidateKey: text functions work on characters; lengths agree with the code's bytes for ASCII text.
- HTTP, RPC, CLI, web UI, SMTP, webhooks, authentication and role checks: plumbing or libraries.
- Connectors, generated storage code and row scanning: no logic of their own.
- Notification queue, quality rules, freshness and SLA scanners, catalog search: they would only add easy members.
