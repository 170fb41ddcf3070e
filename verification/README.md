# Verified models of the spend platform's core

Dafny models of six parts of the platform whose correctness does not follow from reading any one
function, each with the properties the code and its comments promise of it.

* **The budget ledger.** Writers append to an append-only table of movements guarded by a unique key
  and re-derive a cached balance on the line: read the line, read its movements, then skip or write
  guarded by the version that was read, and retry. Nothing locks the pair, so the model is a machine
  whose steps are single database operations of any number of interleaved callers that may also crash or
  meet write conflicts (`Ledger`, `LedgerProtocol`). On it: each line always shows a prefix of its ledger
  (`LedgerProtocol`), when settled lines agree with the whole ledger (`LedgerQuiescence`,
  `LedgerStaleRun`), how many lost attempts a retry loop can meet (`LedgerRetries`), what is conserved
  (`LedgerConservation`, `LedgerReleases`), the service's own methods with their loops (`LedgerService`),
  and which ledgers and which stale lines the service's whole calls can leave (`LedgerCalls`).
* **The approval chain.** One step asked at a time, quorums, escalation, delegation (`ApprovalChain`,
  `ApprovalSafety`, `Delegations`, `Resolver`), and approvals whose transactions overlap, with
  escalations among them (`ApprovalRaces`).
* **The department tree.** Materialised string paths against parent pointers (`Paths`, `Departments`,
  `Lexicographic`), and calls whose transactions overlap (`DepartmentRaces`).
* **Money and periods.** Splitting an amount by weights, in exact integers and in the 34-digit decimal
  arithmetic the code computes with (`Money`, `Decimal34`); fiscal periods and the periods of a budget
  (`Periods`).
* **The JPEG scrubber.** A segment walk over ITU-T T.81 Annex B markers (`Jpeg`).
* **Two codecs.** UUID version 7 generation, RFC 9562 sections 5.7 and 6.2 (`Ids`), and the comparison
  of decimal strings (`DecimalStrings`, `Powers`).

Code that updates state is modelled by classes and loops, each proved equal to a function of its
inputs and the old state; the properties are then lemmas about those functions, over every input,
every run and every schedule. `dafny verify dfyconfig.toml` checks the whole project.

## Where the code and its own account of itself differ

The models follow the code. For each difference there is a lemma saying exactly when the code keeps the
promise, and one at an input where it does not.

* `materialize` promises that a total read too early never replaces a later one, but its unchanged test
  returns without the version guard. A line can settle on a stale balance exactly when its history ends on
  a balance it showed before (`LedgerStaleRun.AgreementIffEndsAnew`), and calls of the service are enough
  for it, exactly on the histories they can leave at all (`LedgerCalls.ServiceCallsGoStaleExactlyWhen`;
  `LedgerCalls.CommitRacingItsRelease`).
* `release` does not wait for the commitment it gives back. A run conserves committed money exactly when
  every release found its commitment, of the same amount (`LedgerReleases.RunConservesExactlyWhen`;
  `LedgerCalls.ReleaseOvertakesItsCommitment`).
* `act` says that re-reading inside the transaction keeps simultaneous approvers apart. An approval that
  does not complete its step writes nothing another transaction could conflict with. Overlapping approvals
  can leave a chain with nobody who may act and nobody left to escalate to exactly when some step still to
  be decided wants two more of them, or will once it escalates (`ApprovalRaces.StuckExactlyWhen`;
  `ApprovalRaces.TwoApproversStrandAChain`), and can approve a step with too few different people, one of
  them counted twice, exactly when one wants three more, or will (`ApprovalRaces.ShortExactlyWhen`;
  `ApprovalRaces.ApprovedTwiceByOne`).
* `cancel` skips active and waiting steps only, so an escalated step stays open on a cancelled chain
  (`ApprovalSafety.CancelClosesUnlessEscalated`); `queue` lists active steps only, so an escalated one
  is missing from it (`ApprovalSafety.QueueIsActionable`; both at
  `ApprovalSafety.EscalatedStepOutlivesCancel`).
* A step's approvers drop the requester before following delegation and after it; an escalation drops
  the requester only after it, so it can reach the member the requester delegated to
  (`Resolver.EscalationCanReachTheRequestersDelegate`; `Resolver.RequesterHeadsTheDepartment`).
* `assertNoChain` checks the delegations its transaction has read, and nothing makes two creations
  conflict. Delegations chain exactly when two accepted requests that nobody has revoked clash, the later
  decided without having seen the earlier (`Delegations.ChainsExactlyWhenUnseen`;
  `Delegations.TwoAtOnceChain`).
* The department checks look at the rows their transaction has read too, and a move writes its own row and
  the subtree as read. Paths, sibling names and codes stay right exactly when for every commit what it had
  checked still held: the parent's path, the rows below the one moved, the name and the code
  (`DepartmentRaces.OverlappingCallsKeepTheIndexExactlyWhen`). Two roots put under each other at once both
  go through and end up above themselves (`DepartmentRaces.EachUnderTheOther`;
  `DepartmentRaces.TwoRootsMakeACycle`).
* A JPEG cut off before its scan can lose up to three trailing bytes, and stripping it twice can lose
  more than stripping it once (`Jpeg.UnchangedExactlyWhen`, `Jpeg.IdempotentExactlyWhen`;
  `Jpeg.EndOfImageIsLost`). T.81 section B.1.1.2 allows fill bytes before any marker, and the walk does not
  expect them. A metadata segment is still there afterwards exactly when a fill byte stands before it or
  what follows it does not parse (`Jpeg.MetadataSurvivesExactlyWhenFilled`; `Jpeg.FilledApp1Survives`).
* A budget range longer than 240 months or quarters has days in no period
  (`Periods.RangeIsTiledExactlyWhen`), and a spend after midnight on the last day of the range, or of a
  month or quarter it is cut into, meets no line (`Periods.SpendMeetsOneLineExactlyWhen`; both at
  `Periods.DaysWithoutALine`).

## Model

| member | source | states |
|---|---|---|
| LedgerProtocol.LineShowsAPrefixThatNeverShrinks | backend/src/modules/budgets/budget-ledger.service.ts:245-284 | in every interleaving of any callers, crashes included, each line shows the totals of a prefix of its ledger, the prefix and the version never shrink, and an unchanged version means an unchanged line |
| LedgerProtocol.ExecKeeps | backend/src/modules/budgets/budget-ledger.service.ts:241-243 | the invariant behind it: lines cache a recorded prefix, and whatever a caller in flight has read is no newer than the line while its version still matches |
| LedgerProtocol.ExecGrows | backend/src/modules/budgets/budgets.service.ts:274-283 | `allocate` and `materialize` alike only ever append to the ledger, and change a line only with its version |
| LedgerQuiescence.SettledAgrees | backend/src/modules/budgets/budget-ledger.service.ts:245-284 | once nobody has the line left to materialize it equals its full ledger sums, for any callers and schedule, if its balance is then one it had not shown before |
| LedgerQuiescence.SettledAgreesWithoutReleases | backend/src/modules/budgets/budget-ledger.service.ts:245-284 | in particular when amounts are positive and no RELEASE is on the line |
| LedgerQuiescence.AloneRestoresAgreement | backend/src/modules/budgets/budget-ledger.service.ts:238-239 | one undisturbed `materialize` restores agreement from any state, RELEASEs included, touches nothing else, and writes nothing when the line already agrees |
| LedgerStaleRun.AgreementIffEndsAnew | backend/src/modules/budgets/budget-ledger.service.ts:275-275 | for every ledger without allocations, over any lines: quiescent agreement of a line holds of every set of callers and every schedule that leaves it if and only if the line ends on a balance it had not shown before |
| LedgerStaleRun.ReturningBalanceGoesStale | backend/src/modules/budgets/budget-ledger.service.ts:275-282 | for every such ledger that ends on an old balance of a line, a schedule of one worker a movement and two repairs, whole calls or not, after which all have returned and the line is stale |
| LedgerCalls.ReturnedCallsLeaveExactly | backend/src/modules/budgets/budget-ledger.service.ts:447-515 | the ledgers without allocations that calls of the service leave once all have returned: exactly those with positive movements, unique by key, in which every `actualize` that came after its source's commitment has released it |
| LedgerCalls.ServiceCallsGoStaleExactlyWhen | backend/src/modules/budgets/budget-ledger.service.ts:447-515 | and calls of the service, all returned, can leave a line stale exactly with those of them that end on an old balance of the line |
| LedgerCalls.CommitRacingItsRelease | backend/src/modules/budgets/budget-ledger.service.ts:275-282 | the smallest one: a commit and a release of ten, both returned, leave the line at 10 with a ledger sum of 0 |
| LedgerRetries.FortyCallsNeverExhaust | backend/src/modules/budgets/budget-ledger.service.ts:581-604 | with at most 40 calls on a line, `allocate` and the write conflicts a caller meets deriving that line counted with them, no `materialize` of the caller throws, and it loses no more attempts than the version rises and those conflicts come |
| LedgerRetries.FortyOneCallsCanExhaust | backend/src/modules/budgets/budget-ledger.service.ts:52-52 | the bound is tight: a run of 41 calls, without conflicts, in which one throws |
| LedgerProtocol.ConflictsEndACaller | backend/src/modules/budgets/budget-ledger.service.ts:581-604 | each write conflict costs an attempt: forty of them end a caller, fewer leave it to start over |
| LedgerProtocol.CrashIsFinal | backend/src/modules/budgets/budget-ledger.service.ts:286-292 | whatever the scheduler does after a crash, the caller's program stays where the crash left it |
| LedgerConservation.EveryPrefixIsConserved | backend/src/modules/budgets/budget-ledger.service.ts:483-511 | in every run of commits, actualizes and allocations with crashes and replays, every ledger prefix has committed equal to the commitments not yet released, and never negative |
| LedgerReleases.RunConservesExactlyWhen | backend/src/modules/budgets/budget-ledger.service.ts:148-160 | in every run with releases as well, committed equals the commitments not yet released at every prefix exactly when every release found its source's commitment on the line, of just its amount |
| LedgerReleases.ConservedExactlyWhenBacked | backend/src/modules/budgets/budget-ledger.service.ts:260-272 | the same of any ledger with unique keys and positive amounts |
| LedgerCalls.ReleaseOvertakesItsCommitment | backend/src/modules/budgets/budget-ledger.service.ts:148-160 | two whole calls, the release first: between them the line and its ledger show committed below zero |
| LedgerCalls.ServiceRuns | backend/src/modules/budgets/budget-ledger.service.ts:447-559 | workers that make any calls of the service, allocations too, interleaved and crashed: settled lines agree unless the ledger ends on an old balance, and it conserves exactly when every release was backed |
| LedgerCalls.ServiceMeetsTheHypotheses | backend/src/modules/budgets/budget-ledger.service.ts:513-515 | the calls follow every append with a derivation of its line, append only positive movements of their direction, and never an ADJUSTMENT |
| LedgerCalls.ServiceIsDisciplined | backend/src/modules/budgets/budget-ledger.service.ts:109-145 | calls other than release spend positive amounts and release only what is reserved |
| LedgerCalls.ReturnedCallIsRecorded | backend/src/modules/budgets/budget-ledger.service.ts:447-515 | in every interleaving with any other callers, a worker that has returned has recorded each of its calls on every line the call matched |
| LedgerCalls.AllocationServed | backend/src/modules/budgets/budgets.service.ts:247-318 | a worker asking for an allocation on the version it has read leaves the line at the target, one version on |
| LedgerConservation.ExecConserves | backend/src/modules/budgets/budget-ledger.service.ts:293-337 | every run without release calls keeps keys unique, amounts of commitments positive and each release backed by an earlier commitment of its source |
| LedgerReleases.ExecKeepsProper | backend/src/modules/budgets/budget-ledger.service.ts:293-337 | every run, releases included, keeps keys unique and movements positive in their direction |
| LedgerConservation.CommittedIsOutstanding | backend/src/modules/budgets/budget-ledger.service.ts:272-272 | COMMITMENT less RELEASE sums to what is outstanding, commitment by commitment |
| LedgerConservation.NetOfSource | backend/src/modules/budgets/budget-ledger.service.ts:484-489 | one source's net commitment on a line is its whole commitment until released and zero from then on |
| LedgerConservation.CompletedActualizeHoldsNothing | backend/src/modules/budgets/budget-ledger.service.ts:132-145 | a completed `actualize` that follows its source's commitment leaves that source holding nothing, whatever amount settled and however it was interleaved |
| LedgerConservation.AllocationIsExplained | backend/src/modules/budgets/budgets.service.ts:247-318 | a line's allocation is always its starting value plus its signed ADJUSTMENT movements |
| LedgerConservation.AllocateAlone | backend/src/modules/budgets/budgets.service.ts:247-318 | with nobody else about: on the expected version the target, the next version and one ADJUSTMENT of the difference, up or down and none when there is none; on another version a refusal and no change |
| LedgerService.BudgetLedgerService.Append | backend/src/modules/budgets/budget-ledger.service.ts:293-337 | the ledger grows by the movement exactly when its key was absent, and the outcome says which |
| LedgerService.BudgetLedgerService.Materialize | backend/src/modules/budgets/budget-ledger.service.ts:245-284 | the retry loop, with other callers acting between its reads and its write, computes the specified tables and verdict |
| LedgerService.LoopIsTheProtocol | backend/src/modules/budgets/budget-ledger.service.ts:581-595 | that specification is the protocol's own steps for one caller, the fortieth lost write included |
| LedgerService.BudgetLedgerService.ApplyAcrossMatches | backend/src/modules/budgets/budget-ledger.service.ts:447-559 | every matching line in turn appends, releases what the source reserved if it settles, and re-derives, replays included: the old ledger is a prefix of the new, every matching line has a movement of the call's key, the call's own where there was none, an actual has released what its source held there, and nothing else is new |
| LedgerService.BudgetLedgerService.ApplyToLine | backend/src/modules/budgets/budget-ledger.service.ts:472-515 | one line's share of that: the amount released is what was reserved, not what settled |
| LedgerService.BudgetLedgerService.Commit | backend/src/modules/budgets/budget-ledger.service.ts:109-121 | a commitment recorded on every matching line, and nothing else |
| LedgerService.BudgetLedgerService.Actualize | backend/src/modules/budgets/budget-ledger.service.ts:132-145 | an actual recorded on every matching line, a release of what the source had committed there, and nothing else |
| LedgerService.BudgetLedgerService.GiveBack | backend/src/modules/budgets/budget-ledger.service.ts:148-160 | a release recorded on every matching line, and nothing else |
| LedgerService.CrashedThenReplayed | backend/src/modules/budgets/budget-ledger.service.ts:286-292 | dying after any number of operations and replaying leaves the ledger one undisturbed call would have; replaying a finished call changes nothing |
| LedgerService.CallLeavesLinesAgreeing | backend/src/modules/budgets/budget-ledger.service.ts:513-515 | after an undisturbed call, a replay included, every matching line agrees with its ledger, and lines that agreed still do |
| LedgerService.CallRecords | backend/src/modules/budgets/budget-ledger.service.ts:447-515 | the same of the call's operations from any tables: they record every line that matches, for any number of matches, and nothing else |
| LedgerService.CallDerives | backend/src/modules/budgets/budget-ledger.service.ts:513-515 | and derive the lines that match, leaving the other lines and every allocation alone |
| Departments.WithinSubtreeIsAncestry | packages/contracts/src/organization.ts:333-335 | the character prefix test on two paths holds exactly when one department is the other or an ancestor of it by parent pointers |
| Departments.PathEncodesChain | packages/contracts/src/organization.ts:322-324 | every path is the encoding of the parent chain |
| Paths.EncodePrefix | packages/contracts/src/organization.ts:326-335 | one encoded path is a string prefix of another exactly when its chain is a prefix of the other's |
| Paths.SegmentsOfPath | packages/contracts/src/organization.ts:129-132 | splitting a path gives its chain back, and its depth is one less than the chain's length |
| Departments.DepthCountsAncestors | packages/contracts/src/organization.ts:129-132 | going up as many parents as the depth says ends at a root |
| Departments.SubtreesAreContiguous | backend/src/modules/departments/departments.service.ts:80-94 | sorted by path, everything between two members of a subtree is in that subtree |
| Departments.RootOpensItsBlock | backend/src/modules/departments/departments.service.ts:80-94 | and the subtree's root comes before everything below it |
| Departments.NoCycle | backend/src/modules/departments/departments.service.ts:145-232 | no department is reached by going up from itself |
| Departments.DepartmentsService.Create | backend/src/modules/departments/departments.service.ts:107-143 | refuses in the service's order of checks, writing nothing; else adds the one row under its parent's path |
| Departments.DepartmentsService.UpdateDepartment | backend/src/modules/departments/departments.service.ts:145-232 | refuses in order, writing nothing; else what the input sets is as asked and what it leaves is as it was, one version on, the subtree re-pathed if the parent changed, and the rows moved counted |
| Departments.DepartmentsService.RewriteSubtree | backend/src/modules/departments/departments.service.ts:332-360 | the loop rewrites exactly the proper descendants and returns their number |
| Departments.DepartmentsService.SetArchived | backend/src/modules/departments/departments.service.ts:242-319 | archives or restores, or refuses with the first failing check |
| Departments.MoveKeepsTree | backend/src/modules/departments/departments.service.ts:332-360 | after a move every path is again the parent's path and the row's own id |
| Departments.UpdateKeeps | backend/src/modules/departments/departments.service.ts:145-232 | an accepted update keeps paths right and sibling names and codes unique |
| Departments.UpdateDoesAsAsked | backend/src/modules/departments/departments.service.ts:190-211 | after an accepted update, moves and their rewritten subtree included, name, code, head and parent are each what was set, or as before where nothing was, still archived or not as before |
| Departments.UpdateRefusedExactly | backend/src/modules/departments/departments.service.ts:152-188 | each refusal of an update exactly, by the parent and the name the department would have |
| Departments.StaleRefusedExactly | backend/src/modules/departments/departments.service.ts:152-161 | the refusals before those: missing, another version, archived |
| Departments.CreateKeeps | backend/src/modules/departments/departments.service.ts:107-143 | so does a creation, which changes no other row |
| Departments.CreatesExactly | backend/src/modules/departments/departments.service.ts:107-143 | what a creation adds, and each of its refusals exactly |
| Departments.RefusedExactlyWhenCyclic | backend/src/modules/departments/departments.service.ts:363-384 | a move is refused as cyclic exactly when the new parent pointer would put the department above itself |
| Departments.MoveTouchesOnlyItsSubtree | backend/src/modules/departments/departments.service.ts:332-360 | a move changes only the row and the paths of its proper descendants, and returns how many there are |
| Departments.ArchivesExactly | backend/src/modules/departments/departments.service.ts:242-319 | what archiving and restoring change, and each refusal exactly |
| Departments.RunKeepsTheIndex | backend/src/modules/departments/departments.service.ts:107-319 | any sequence of creations, updates and archivings, whatever the memberships at each, keeps the whole index right |
| DepartmentRaces.CommitKeepsExactlyWhen | backend/src/modules/departments/departments.service.ts:152-211 | one commit, decided on rows read earlier, keeps paths, sibling names and codes right exactly when the parent's path, the rows below the one it moves, its name and its code are as it had found them |
| DepartmentRaces.OverlappingCallsKeepTheIndexExactlyWhen | backend/src/modules/departments/departments.service.ts:107-319 | so, over every schedule of overlapping calls, with a write conflict aborting those that would write a row written since they read, the index is right after every commit exactly when that was so of every commit |
| DepartmentRaces.EachUnderTheOther | backend/src/modules/departments/departments.service.ts:163-172 | two roots, each put under the other by transactions that read both as roots: neither conflicts, and each is then above itself |
| DepartmentRaces.TwoRootsMakeACycle | backend/src/modules/departments/departments.service.ts:163-172 | with two departments and nothing else |
| ApprovalChain.ApprovalInstance.constructor | backend/src/modules/approvals/approval.service.ts:88-158 | a chain opens with its first step active and the rest waiting |
| ApprovalChain.ApprovalInstance.Act | backend/src/modules/approvals/approval.service.ts:167-358 | refuses in the service's order; else records the action and settles, waits or advances; ChainsEndAsTheyWereActedOn says how it settles |
| ApprovalChain.ApprovalInstance.OpenNext | backend/src/modules/approvals/approval.service.ts:321-352 | the first later waiting step opens and becomes current, or the chain is approved |
| ApprovalChain.ApprovalInstance.Escalate | backend/src/modules/approvals/approval.service.ts:377-442 | an overdue active step gains the escalation's members it lacked and loses nobody |
| ApprovalChain.ApprovalInstance.Cancel | backend/src/modules/approvals/approval.service.ts:444-474 | a pending chain is cancelled, its active and waiting steps skipped |
| ApprovalSafety.RunIsOk | backend/src/modules/approvals/approval.service.ts:88-474 | the chain invariant holds after every sequence of act, escalate and cancel |
| ApprovalSafety.PendingAsksExactlyOneStep | backend/src/modules/approvals/approval.service.ts:202-231 | a pending chain has exactly one open step, at the current sequence, all before it approved and all after it waiting |
| ApprovalSafety.DecidedIsFinal | backend/src/modules/approvals/approval.service.ts:193-195 | a decided chain never changes again, and one decided by an action has nothing open or waiting |
| ApprovalSafety.ChainsEndAsTheyWereActedOn | backend/src/modules/approvals/approval.service.ts:276-300 | over every run, a chain is refused exactly when some step has a rejection, sent back exactly when one has a return, overridden exactly when one has an override; there is then one such entry, the last on its step, which is rejected, returned or skipped to match, with only approvals before it |
| ApprovalSafety.ActRefusesExactly | backend/src/modules/approvals/approval.service.ts:186-265 | each refusal of an action exactly, an override asking only that the chain be pending |
| ApprovalSafety.AcceptedActionIsRecorded | backend/src/modules/approvals/approval.service.ts:267-279 | an accepted action is recorded on the step that is asked, under its actor's name, and nowhere else, and no approver list or term changes |
| ApprovalSafety.EscalatesExactly | backend/src/modules/approvals/approval.service.ts:377-442 | a step escalates exactly when it is active on a pending chain, due, and somebody new would come in; just those come in, and nothing else changes |
| ApprovalSafety.RunsKeepTheTerms | backend/src/modules/approvals/approval.service.ts:88-158 | over every run, a step keeps the type, quorum, deadline and escalation it was resolved with, and only those its escalation names ever join its approvers |
| ApprovalSafety.CancelClosesUnlessEscalated | backend/src/modules/approvals/approval.service.ts:463-466 | cancelling leaves no step open exactly when the open step has not escalated |
| ApprovalSafety.CanActIsWhatActAccepts | backend/src/modules/approvals/approval.service.ts:633-638 | `canAct` is true exactly when `act` would accept that member's approval, rejection or return |
| ApprovalSafety.QueueIsActionable | backend/src/modules/approvals/approval.service.ts:682-733 | every queue row is actionable; an actionable step is missing exactly when it has escalated |
| ApprovalSafety.EscalatedStepOutlivesCancel | backend/src/modules/approvals/approval.service.ts:444-474 | an overdue step that escalated to one more member: missing from their queue, open to them, and open still after a cancel |
| ApprovalSafety.ApprovedStepsMetTheirRequirement | backend/src/modules/approvals/approval.service.ts:483-498 | a step is approved only with its required number of different eligible approvers; PARALLEL_ALL needs every one, the added ones too |
| ApprovalSafety.GrantedMeansEveryStep | backend/src/modules/approvals/approval.service.ts:331-342 | an approved chain has every step approved |
| ApprovalSafety.PendingHasSomebodyToAct | backend/src/modules/approvals/approval.service.ts:246-265 | with transactions one at a time a pending chain always has an eligible member whose approval is accepted |
| ApprovalSafety.RunsAreBounded | backend/src/modules/approvals/approval.service.ts:301-357 | a measure of approvers, escalation targets and steps bounds how often any run changes the chain |
| ApprovalSafety.UnlistedNeverDecides | backend/src/modules/approvals/approval.service.ts:239-244 | whoever is on no step and no escalation list never records an approval, rejection or return |
| ApprovalRaces.RacesNeverApproveShort | backend/src/modules/approvals/approval.service.ts:294-357 | in every schedule of approvals and escalations in which no member has two approvals under way at once, an approved step has its required number of different eligible approvers |
| ApprovalRaces.ShortExactlyWhen | backend/src/modules/approvals/approval.service.ts:246-265 | over all schedules, one member's own overlapping approvals and escalations included, a step can be approved with too few different people exactly when the current step wants three more or a later one asks for three, at once or when it has escalated |
| ApprovalRaces.SmallStepsAreNeverShort | backend/src/modules/approvals/approval.service.ts:483-498 | so SINGLE, PARALLEL_ANY, a quorum of two and PARALLEL_ALL of two, counting those it may escalate to, are safe in every schedule |
| ApprovalRaces.CommitLandsExactlyWhen | backend/src/modules/approvals/approval.service.ts:294-357 | an approval that is not the last one wanted, as it was read, is recorded whatever has happened since; the last one closes its step, or is lost exactly when the step or the chain has changed |
| ApprovalRaces.ApprovedTwiceByOne | backend/src/modules/approvals/approval.service.ts:246-280 | a PARALLEL_ALL step of three granted by two people, one of them counted twice |
| ApprovalRaces.StuckExactlyWhen | backend/src/modules/approvals/approval.service.ts:301-316 | over all schedules, a chain can be left pending with nothing under way, nobody whose action would be accepted and no escalation to come exactly when the current step wants two more approvals or a later one asks for two, at once or when it has escalated; otherwise no schedule does at any point |
| ApprovalRaces.StuckAllAtOnceExactlyWhen | backend/src/modules/approvals/approval.service.ts:301-316 | the schedule in which everybody reads before anybody commits ends so exactly when the step wanted two more |
| ApprovalRaces.TwoApproversStrandAChain | backend/src/modules/approvals/approval.service.ts:301-316 | two who must both approve do so at once, and the chain waits for nobody |
| Delegations.DelegationService.Create | backend/src/modules/approvals/delegation.service.ts:85-161 | refuses in order; else appends one delegation |
| Delegations.DelegationService.AssertNoChain | backend/src/modules/approvals/delegation.service.ts:242-292 | the overlap filter and its three searches find the specified conflict |
| Delegations.DelegationService.Revoke | backend/src/modules/approvals/delegation.service.ts:170-212 | revokes one delegation, or refuses in order |
| Delegations.RefusedExactlyWhenChaining | backend/src/modules/approvals/delegation.service.ts:242-292 | a delegation is refused exactly when adding it would break the no-chain rule |
| Delegations.RequestRefusedExactly | backend/src/modules/approvals/delegation.service.ts:85-161 | each refusal of a request exactly, those for chaining by the instants at which delegations are in force |
| Delegations.EveryDelegationWasAskedFor | backend/src/modules/approvals/delegation.service.ts:85-212 | over every run, each delegation was requested, as it stands, by its lender or by somebody who may delegate for others, for two different active members of whom the borrower may act; a revoked one was revoked by either |
| Delegations.RevocationRefusedExactly | backend/src/modules/approvals/delegation.service.ts:170-212 | each refusal of a revocation exactly |
| Delegations.DelegationsNeverChain | backend/src/modules/approvals/delegation.service.ts:230-241 | after any run, at every instant, live delegations are a function whose targets are never sources, so one hop equals following them any number of times |
| Delegations.RowOrderDoesNotMatter | backend/src/modules/approvals/approval-resolver.service.ts:230-238 | the resolver's map is the same for every order of the rows |
| Delegations.ChainsExactlyWhenUnseen | backend/src/modules/approvals/delegation.service.ts:107-139 | with creations that overlap, the no-chain rule holds exactly when no two accepted, unrevoked requests clash of which the later was decided without having seen the earlier |
| Delegations.TwoAtOnceChain | backend/src/modules/approvals/delegation.service.ts:242-292 | two creations at once make a chain of two hops |
| Resolver.FindDepartmentHead | backend/src/modules/approvals/approval-resolver.service.ts:309-327 | the bounded walk up the tree names whom the specification names |
| Resolver.NearestHeadIsNearest | backend/src/modules/approvals/approval-resolver.service.ts:309-327 | it names the head of the nearest headed department within reach |
| Resolver.NoHeadWithinReach | backend/src/modules/approvals/approval-resolver.service.ts:309-327 | and nobody when no department within reach has one |
| Resolver.SpecResolvesToItsNames | backend/src/modules/approvals/approval-resolver.service.ts:245-327 | every specification resolves to just whom it means: holders of a role, of the requester's department where it says so, the member at that position of the manager chain, the nearest head within ten departments from so many up, the finance administrators; a workflow is refused |
| Resolver.ResolveEscalation | backend/src/modules/approvals/approval-resolver.service.ts:152-179 | the loops produce the specified escalation list, or none; ResolvedStepIsRight says who is on it |
| Resolver.Resolve | backend/src/modules/approvals/approval-resolver.service.ts:49-132 | the resolved steps in order, or the first failure; ResolvedStepIsRight and FirstFailureIsReported say what they are |
| Resolver.ResolvedStepIsRight | backend/src/modules/approvals/approval-resolver.service.ts:77-110 | a step's approvers are exactly those whom its specifications mean in the organisation, followed by at most one delegation, able to act and not the requester; likewise its escalation |
| Resolver.ResolvedStepIsWellFormed | backend/src/modules/approvals/approval-resolver.service.ts:85-128 | its lists are non-empty and name nobody twice, and its quorum can be met |
| Resolver.ResolvedStepTerms | backend/src/modules/approvals/approval-resolver.service.ts:113-128 | a step keeps its type, is due its hours from now, and asks a quorum of two where there are two |
| Resolver.ResolveFailsExactlyWhen | backend/src/modules/approvals/approval-resolver.service.ts:86-100 | resolving fails exactly when some step names a workflow or has nobody who may approve |
| Resolver.FirstFailureIsReported | backend/src/modules/approvals/approval-resolver.service.ts:86-100 | the failure reported is that of the first step that does not resolve |
| Resolver.ResolvedChainsAreWellFormed | backend/src/modules/approvals/approval-resolver.service.ts:49-132 | what resolves is what the chain invariant needs to start from |
| Resolver.RequesterNeverDecides | backend/src/modules/approvals/approval-resolver.service.ts:61-128 | over whole runs, whatever the specifications, delegations and escalations, the requester is never eligible and never approves, rejects or returns |
| Resolver.EveryApproverWasNamed | backend/src/modules/approvals/approval-resolver.service.ts:77-83 | everybody eligible at any point of a run can act and is meant by a specification, in the organisation's terms, directly or through one delegation |
| Resolver.EscalationCanReachTheRequestersDelegate | backend/src/modules/approvals/approval-resolver.service.ts:137-179 | for every specification, everybody escalated to stands for somebody named other than the requester, exactly unless the requester is named and the member they delegated to, who may not approve the step itself, comes in on that alone |
| Resolver.RequesterHeadsTheDepartment | backend/src/modules/approvals/approval-resolver.service.ts:152-179 | a requester who heads the department: the step escalates to the member they delegated to |
| Money.RoundHalfEvenIsNearest | packages/core/src/money.ts:263-266 | rounding gives the one nearest integer, at a tie the even one |
| Money.MinorUnitsRoundTrip | packages/core/src/money.ts:134-142 | minor units survive the trip through an amount; an amount comes back rounded; rounding is idempotent |
| Money.UnitOfExponent | packages/core/src/money.ts:134-142 | a minor unit is the exponent's number of decimal places below one |
| Money.Allocate | packages/core/src/money.ts:206-255 | refuses no weights, a negative one or all zero; else as many parts as weights, adding up to the rounded whole |
| Money.SharesAddUp | packages/core/src/money.ts:206-255 | the shares sum exactly to the total in minor units, of either sign |
| Money.SharesAreClose | packages/core/src/money.ts:219-233 | each share is within one minor unit of its exact quota |
| Money.ZeroWeightGetsNothing | packages/core/src/money.ts:234-252 | a zero weight gets zero |
| Money.LargerWeightGetsNoLess | packages/core/src/money.ts:234-252 | a larger weight gets no less of a non-negative total and no more of a non-positive one |
| Money.LeftoverGoesInOrder | packages/core/src/money.ts:234-252 | nobody is given more than their exact part, to the unit below, unless everybody heavier, or as heavy and earlier, is too |
| Money.RemainderIsSmall | packages/core/src/money.ts:234-252 | what truncation leaves over is less than one unit per positive weight, on the side of the total, so the remainder loop ends within one pass over them |
| Money.TruncateShares | packages/core/src/money.ts:219-233 | the first loop: every share truncated toward zero, and their sum |
| Money.HandOut | packages/core/src/money.ts:242-252 | the second loop: one more unit to each of the first entries of the order, as many as remain |
| Decimal34.ComputedShareIsExact | packages/core/src/money.ts:23-32 | while total times weight is at most 10^33, multiplying, dividing half-even at 34 digits and truncating gives the exact share |
| Decimal34.QuotientHas34Digits | packages/core/src/money.ts:23-32 | every quotient has at most 34 significant digits and is off by at most half a unit in the last of them |
| Jpeg.StripJpegMetadata | packages/core/src/file-type.ts:155-203 | the loop computes the recursive walk |
| Jpeg.CompleteJpegIsStripped | packages/core/src/file-type.ts:155-203 | of SOI, segments and a scan, exactly the APP1 to APP15 and COM segments go; the rest, and everything from SOS, is byte-identical |
| Jpeg.MarkersOfTheTable | packages/core/src/file-type.ts:171-192 | the markers without a length are TEM, RST0 to RST7, SOI and EOI of T.81 Table B.1, the metadata segments APP1 to APP15 and COM |
| Jpeg.OneFileStripped | packages/core/src/file-type.ts:155-203 | a file with an APP0, an APP1 and a comment, and its bytes without the last two |
| Jpeg.EveryInputIsDescribed | packages/core/src/file-type.ts:161-203 | every input the walk accepts is segments and then a scan or at most three bytes, and the result is what is kept of them |
| Jpeg.IdempotentExactlyWhen | packages/core/src/file-type.ts:161-161 | stripping twice equals stripping once exactly when a scan was reached or what is kept does not end in a marker without a length |
| Jpeg.UnchangedExactlyWhen | packages/core/src/file-type.ts:161-161 | an input is unchanged exactly when it has no metadata and ends with its scan or its last segment |
| Jpeg.EndOfImageIsLost | packages/core/src/file-type.ts:161-161 | an EOI among the last three bytes is dropped, at the first stripping or the second |
| Jpeg.WalkAcceptsExactly | packages/core/src/file-type.ts:155-203 | the walk gives up on exactly what is not segments and then a scan or at most three bytes |
| Jpeg.UnchangedExactlyWhenUnparsed | packages/core/src/file-type.ts:161-200 | after segments with metadata, a file comes back as it was exactly when the rest does not parse |
| Jpeg.MetadataSurvivesExactlyWhenFilled | packages/core/src/file-type.ts:164-190 | behind any segments, a metadata segment is still in the result exactly when fill bytes stand before it or what follows it does not parse |
| Jpeg.FillByteShields | packages/core/src/file-type.ts:164-190 | whatever its size, what a fill byte stands before is kept as it is for 48 kilobytes or more, unless the whole file is |
| Jpeg.FillByteKeepsMetadata | packages/core/src/file-type.ts:164-190 | so with fewer than 48 kilobytes left, a fill byte before any real marker leaves the whole file as it was |
| Jpeg.FilledApp1Survives | packages/core/src/file-type.ts:164-190 | an APP1 segment behind one fill byte |
| Jpeg.StripOnlyDeletes | packages/core/src/file-type.ts:155-203 | on every input the result is a subsequence of it |
| Ids.IdGenerator.GenerateId | packages/core/src/ids.ts:110-146 | advances the counter, waits for the next millisecond when it wraps, and returns the id of the new state |
| Ids.BuildId | packages/core/src/ids.ts:126-145 | writing timestamp, version, counter and variant over random bytes gives the specified layout |
| Ids.TickExactly | packages/core/src/ids.ts:110-125 | the counter runs on through one millisecond from where its draw put it, and starts from a new draw in another, waiting for one when its twelve bits are used up |
| Ids.IdIsVersion7 | packages/core/src/ids.ts:126-145 | an id is four dashes and 32 lower-case digits, with version 7, the counter after it, variant 8, 9, a or b, and the drawn bits in place |
| Ids.IdsStrictlyIncrease | packages/core/src/ids.ts:100-146 | for a non-decreasing clock and any random bytes, later ids are strictly greater strings, counter wrap included |
| Ids.StringsFollowBytes | packages/core/src/ids.ts:58-61 | formatted ids compare as the numbers in their first eight bytes |
| Ids.TimestampComesBack | packages/core/src/ids.ts:161-166 | `idTimestamp` gives back the millisecond of generation |
| Ids.TimestampExactly | packages/core/src/ids.ts:97-166 | a string has a timestamp exactly when it has the form of an id, in either case, and its thirteenth digit is a 7 |
| Ids.CaseDoesNotMatter | packages/core/src/ids.ts:97-166 | upper-case ids give the same timestamp |
| DecimalStrings.CompareIsExact | packages/contracts/src/primitives.ts:194-225 | for all strings the schema accepts, the result is the sign of the exact difference of the amounts their digits spell |
| DecimalStrings.CompareIsTotalPreorder | packages/contracts/src/primitives.ts:194-225 | antisymmetric, transitive, and zero exactly for strings that spell equal amounts |
| DecimalStrings.MinusNegates | packages/contracts/src/primitives.ts:194-225 | a minus before an unsigned string makes its amount negative, never anything else |
| DecimalStrings.PlusChangesNothing | packages/contracts/src/primitives.ts:194-199 | a leading plus makes no difference |
| DecimalStrings.WrittenAmountsReadBack | packages/core/src/money.ts:317-325 | an amount of at most sixteen integer digits is written as a string the schema accepts and reads back unchanged |
| DecimalStrings.EqualStringsAreEqualAmounts | backend/src/modules/budgets/budget-ledger.service.ts:272-275 | the unchanged test on strings is equality of amounts, of any size |
| Periods.FiscalYearContainsItsDays | packages/core/src/period.ts:34-49 | a day is in a fiscal year exactly when that is the year `fiscalYearOf` names |
| Periods.FiscalYearIsNamedForItsEnd | packages/core/src/period.ts:34-49 | a fiscal year starts in its start month and bears the calendar year its last month is in |
| Periods.MonthContainsItsDay | packages/core/src/period.ts:51-63 | a day's month contains it and is labelled with its calendar year and place in it |
| Periods.QuarterContainsItsDay | packages/core/src/period.ts:65-80 | a day's quarter contains it and is one of the four whole quarters of its fiscal year |
| Periods.PeriodsInFiscalYear | packages/core/src/period.ts:82-101 | the loop lays the months or quarters of a fiscal year end to end |
| Periods.TilesCoverExactly | packages/core/src/period.ts:82-101 | laid so, they are adjacent and hold each day from the first to the last exactly once |
| Periods.FiscalYearIsTiled | packages/core/src/period.ts:42-101 | they start and end where the fiscal year does, each of its days in exactly one and no other day in any |
| Periods.DaysBeforeYear | packages/core/src/period.ts:23-25 | the calendar in use is the Gregorian one: 365 days a year and one for each leap year gone by |
| Periods.SplitIntoPeriods | backend/src/modules/budgets/budgets.service.ts:575-601 | the cutting loop gives the specified periods, and the whole range when it cut none |
| Periods.RangeIsTiledExactlyWhen | backend/src/modules/budgets/budgets.service.ts:575-601 | every day of the range is in exactly one period exactly when it is tracked by year or 240 periods reach past its end |
| Periods.SpendMeetsOneLineExactlyWhen | backend/src/modules/budgets/budget-ledger.service.ts:413-425 | a spend inside a budget's range meets exactly one of its lines exactly when the periods reach its day and it is at midnight or on no last day, of the range or of a month or quarter it is cut into; otherwise it meets none |
| Periods.DatedSpendsMeetOneLineExactlyWhen | backend/src/modules/budgets/budget-ledger.service.ts:413-425 | spends recorded by date alone each meet exactly one line exactly in the ranges that are tiled |
| Periods.RangeEndsAtMidnight | backend/src/modules/budgets/budget-ledger.service.ts:413-425 | no instant after midnight on a range's last day meets a line |
| Periods.DaysWithoutALine | backend/src/modules/budgets/budgets.service.ts:575-601 | noon on the last day of a yearly budget, and the first day after 240 months of a monthly one, meet no line |
| Periods.MatchesByDay | backend/src/modules/budgets/budget-ledger.service.ts:413-425 | one line matches an instant exactly when it covers its day and, on its last day, the instant is midnight |
| Periods.InstantsFollowDays | packages/core/src/period.ts:104-107 | an instant is within a period exactly when its day is |

## Left out

- Which lines match a spend (`matchingLines`): category, scope and status filters and the currency check; the matching lines are a parameter.
- Threshold crossings, utilisation percentages, positions and pre-spend checks: floating point reports over the balances modelled here.
- Audit records, notifications, mail and the job queue: nothing modelled depends on them.
- The conflicts `allocate` retries: its transaction is one step that succeeds or is refused; a failed append ends its call, which the protocol counts as a crash.
- BudgetLedgerService.Materialize: loses attempts to moved lines only; write conflicts are events of the protocol.
- The time an attempt waits before retrying: schedules are arbitrary, so no delay is assumed.
- `list` pages, views and labels of budgets, approvals and delegations, other than `canAct` and `queue`.
- Overlapping transactions other than approvals, new delegations and department calls: rejections, returns and cancellations are serial, and an escalation among approvals is one step, as the version its write is guarded by makes it.
- Write conflicts of department calls: two commits that write one row never overlap, which is what the database promises (backend/src/platform/concurrency/versioning.ts:22-45).
- RacesNeverApproveShort: covers schedules in which no member has two approvals under way at once; ShortExactlyWhen says what happens in all of them.
- AgreementIffEndsAnew: its ledgers hold no ADJUSTMENT, since `allocate` moves the version a stale write would need; ServiceCallsGoStaleExactlyWhen likewise. ServiceRuns covers runs with allocations, in one direction.
- MetadataSurvivesExactlyWhenFilled: takes segments of up to 57597 bytes; of longer ones FillByteShields says how much is kept.
- Overlapping revocations: revoking acts on the row as it is, as its version guard makes it.
- The policy engine: its merged steps are an input, non-empty and strictly increasing in sequence.
- Loading the resolver's graph from the database: memberships, roles, departments and live delegations are given; members are numbers in the order their ids sort.
- Restoring a department under an archived parent: the service allows it, so nothing is claimed about archived ancestors.
- Department ids: assumed fresh, not empty and free of `/`, as generated ids are.
- Money in more than one currency, arithmetic other than allocation and rounding, and display formatting: amounts are integer counts of ten-thousandths of one currency.
- Allocate: computes in exact integers; Decimal34.ComputedShareIsExact says for which products the code's 34 digits give the same shares, and larger ones are not modelled.
- The sort inside `allocate`: the order by weight and index is specified by insertion, not by the sorting algorithm of the runtime.
- Years 0 to 99, which `Date.UTC` remaps, and time zones: days are counted in UTC and the calendar is any one whose months follow one another.
- Image formats other than JPEG and file type detection.
- GenerateId: assumes a clock that does not run backwards and stays below 2^48 milliseconds; the wait for the next millisecond is one call with a later clock reading.
- Exponents, signs other than a leading minus and digits outside ASCII in decimal strings: the schema refuses them.
