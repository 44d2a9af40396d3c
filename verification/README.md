# FleetAMP in Dafny

A model of the state machines, compensating transactions and tree algorithms of the FleetAMP control
plane, with proofs of what they keep. Each file covers one component.

- `LineDiff.dfy`: the configuration diff shown to approvers, a longest-common-subsequence table and
  the walk that emits rows, with its optimality.
- `Groups.dfy`, `GroupNames.dfy`: group matching, the mutual exclusion of enabled selectors and the
  group operations that must keep it, what joining and leaving a group does to a Collector, and where
  exclusion stops at dynamic rules; names of groups and the identifiers derived from them.
- `GroupOutcome.dfy`, `BatchOutcome.dfy`, `DeliveryOutcome.dfy`, `RequestOutcome.dfy`,
  `StandardOutcome.dfy`, `PatternOutcome.dfy`, `BlueprintOutcome.dfy`, `IdentityOutcome.dfy`: what the
  operations of the other files come to, said by inputs, records, logs and literal values instead of the
  functions the operations are specified by; `Places.dfy` helps with positions in lists.
- `Fleet.dfy`, `MembershipRollback.dfy`, `MembershipBatch.dfy`: the membership batch over fallible
  stores, its compensation in reverse order, and the evidence it leaves. A store access that may fail
  decides so by a nondeterministic choice and logs its failure in a ghost field. The contracts
  therefore cover a failure at every step and say which failures, refused calls and missing
  configurations make a batch or its rollback fall short; without them it does not.
- `Delivery.dfy`, `DeliveryRuns.dfy`, `UndoRuns.dfy`, `ControlPlane.dfy`: deliveries, the in-flight
  guard, status reports in any order, the one-shot automatic rollback, and how long what was sent
  cannot be undone. `ControlPlane.dfy` updates the stores in place and is proved equal to the step
  functions of `Delivery.dfy`; the theorems over runs are in the other two. Which store calls fail is
  part of each event.
- `BatchDelivery.dfy`: a membership batch whose calls are answered by those deliveries.
- `Requests.dfy`, `RequestBoard.dfy`: deployment requests, from the snapshot a submission takes over
  compare-and-set reviews to completion, composed with the delivery model.
- `BuildWorker.dfy`: the OCB build worker over append-only logs: bounded automatic attempts,
  single-use manual retries, capped exponential backoff in 64-bit durations.
- `TextOrder.dfy`, `CollectorTree.dfy`, `Baseline.dfy`, `PatternMatch.dfy`, `PatternRanking.dfy`,
  `Adoption.dfy`: collector configurations as trees; the canonical layout, the processor baseline,
  pattern scoring, ranking and adoption.
- `CollectorNodes.dfy`, `BaselineNodes.dfy`, `AdoptionNodes.dfy`: the same transformations on nodes
  that are rewritten in place, each proved to do to the document what the tree function says. Every
  node owns the nodes below it, so a change below one child leaves its siblings alone.
- `Blueprint.dfy`: generating a configuration from a pattern, catalog blocks and a destination.
- `Sessions.dfy`, `Identity.dfy`: the bounded session table; memberships, platform roles and the
  owner lists that must agree with them.

What the model shows about the code, beyond the promises that hold:

- A delivery that was just sent stays in flight, so undoing it is refused until a saved report makes
  the agent's newest delivery terminal (`UndoRuns.UndoRefusedIff`). A membership batch over real
  deliveries, with working stores and no report in between, is therefore restored completely exactly
  when it had really sent nothing (`BatchDelivery.RealBatchRestoredIff`);
  `BatchDelivery.TwoTargetsEndIncomplete` is such a batch of two targets.
- A late "applying" report for an older configuration puts two deliveries to one agent in flight
  (`DeliveryRuns.LateReportBreaksGuard`); `DeliveryRuns.StepKeepsOneInFlightIff` says which reports do.
- A rollback claim is spent even when the rollback cannot start (`DeliveryRuns.ClaimLaunchesIff`), as
  after a late failure report (`DeliveryRuns.LateFailureWastesClaim`).
- Selector exclusion does not cover dynamic rules (`Groups.DynamicRulesBreakExclusion`), and a removed
  Collector that itself reports the group's selector stays a member (`Groups.RemovedMayStay`).
- The form refuses to delete a group that has deployment requests, since that history is to be
  preserved; the API deletes it (`Groups.Registry.Delete`).
- The build worker lists the newest 1000 artifacts, so an inspection whose artifact is older is built
  again, exactly when its success was an automatic attempt and automatic attempts are left
  (`BuildWorker.FinishedRunsIff`, `BuildWorker.UnlistedRunsAgain`).
- With only a named instance such as `batch/custom`, the baseline adds a reference to an undefined
  processor (`Baseline.NamedBatchLeavesDanglingReference`); `Baseline.AddedDefinedIff` says when.
- Adopting a pattern whose settings repeat a key would give a document that cannot be imported again
  (`Adoption.AdoptedImportableIff`). The only handler, cmd/fleetamp/migration.go:405-440, adopts only
  patterns that matched before and whose settings therefore decode, so it never gets there.
- A blueprint whose only signal is `any` or `profiles` has no pipeline (`Blueprint.HasPipelineIff`,
  `Blueprint.ProfilesHaveNoPipeline`).
- When the memberships cannot be listed a second time, cmd/fleetamp/users.go:448 goes on as if there
  were none, and the change still succeeds. The owner lists then agree with the memberships exactly
  when these are uniform (`Identity.Directory.UpdateGroupMembership`); a viewer may become an owner
  (`Identity.UnseenViewerOwns`).
- A user whose name contains a comma never becomes an owner; the users named by its parts do
  (`Identity.CommaNameOwns`).
- An owner list set directly by an Admin agrees with the memberships of its group exactly when it names
  the members holding group_owner there (`Identity.Directory.SetOwners`, `Identity.ApproverNamedOwner`),
  and the next membership change of a user removes an ownership without such a membership.

## Model

| member | source | states |
|---|---|---|
| LineDiff.ConfigurationLineDiff | cmd/fleetamp/approvals.go:42-82 | the rows explain both texts: same and removed rows are the old lines in order, same and added rows the new ones, and the kept lines are as many as a longest common subsequence; every row is the one the rule of `OnlyOneDiff` asks for |
| LineDiff.FillTable | cmd/fleetamp/approvals.go:51-65 | the table holds, at every index pair, the length of a longest common subsequence of the two remainders; every access is in bounds |
| LineDiff.EmitRows | cmd/fleetamp/approvals.go:66-81 | the walk ends and its rows explain both line lists with as many kept lines as the table promises |
| LineDiff.LcsBoundsCommon | cmd/fleetamp/approvals.go:51-65 | no common subsequence of the two lists is longer than the table's value |
| LineDiff.RowsKeepCommon | cmd/fleetamp/approvals.go:66-81 | the kept lines of any explanation are a common subsequence of both sides |
| LineDiff.NoShorterExplanation | cmd/fleetamp/approvals.go:42-82 | the diff is optimal: no explanation of the two texts has fewer rows or keeps more lines |
| LineDiff.OnlyOneDiff | cmd/fleetamp/approvals.go:66-81 | of all explanations one alone keeps the next two lines when they are equal and else removes the old line first unless adding the new one first keeps more; the diff shown is that one |
| LineDiff.JoinSplit | cmd/fleetamp/approvals.go:43-50 | splitting into lines loses nothing: joining gives the text back, and no line contains a newline |
| LineDiff.LinesKeepContent | cmd/fleetamp/approvals.go:43-50 | the lines determine the text up to one final newline |
| LineDiff.OnlySameRows | cmd/fleetamp/approvals.go:66-81 | rows that are all "same" mean that the two line lists are equal |
| LineDiff.CleanDiffMeansSameText | cmd/fleetamp/approvals.go:42-82 | a diff with only "same" rows means that the texts are equal up to one final newline |
| Groups.OverlapIffSharedIdentity | cmd/fleetamp/groups.go:511-523 | two non-empty selectors overlap exactly when some identity satisfies both |
| Groups.AtMostOneSelector | cmd/fleetamp/groups.go:511-542 | with exclusive selectors an identity satisfies at most one enabled group |
| Groups.OverriddenBelongsToOne | internal/groups/group.go:40-86 | a Collector whose managed fields are an enabled group's selector belongs to that group and to no other |
| Groups.DynamicRulesBreakExclusion | internal/groups/membership_rule.go:56-98 | two enabled groups with non-overlapping selectors can share a Collector exactly when one of their rules admits some value without surrounding blanks |
| Groups.TwoGroupsNeedRule | internal/groups/membership_rule.go:56-98 | a Collector in two groups with non-overlapping selectors is there through a dynamic rule |
| Groups.AssignedTo | cmd/fleetamp/membership.go:467-470 | joining replaces the managed fields by the selector, lifts an exclusion from the group and keeps the names |
| Groups.RemovedFrom | cmd/fleetamp/membership.go:462-466 | leaving clears the managed fields and, for a group with a rule, excludes the Collector from it |
| Groups.RemovedLeavesUnlessReported | cmd/fleetamp/membership.go:462-466 | after removal a Collector still matches exactly when its reported fields satisfy the selector |
| Groups.RemovedMayStay | cmd/fleetamp/membership.go:462-466 | a Collector for which removal does not end membership |
| Groups.CandidateKeepsExclusive | cmd/fleetamp/groups.go:525-542 | replacing a group by a candidate free of overlap keeps all enabled selectors exclusive |
| Groups.Registry.ValidateOverlap | cmd/fleetamp/groups.go:525-542 | finds no conflict exactly when the candidate is disabled or overlaps no other enabled group, and names one otherwise |
| Groups.Registry.Create | cmd/fleetamp/groups.go:761-779 | creates the group under the identifier of its name exactly when selector, rule, name, identifier, exclusion and the rules of others allow it; enabled selectors stay exclusive |
| Groups.Registry.Update | cmd/fleetamp/groups.go:840-880 | changes the group exactly when selector, name, rule, exclusion and the rules of others allow it, for the API and the form; enabled selectors stay exclusive |
| Groups.Registry.SetEnabled | cmd/fleetamp/groups.go:1636-1649 | enabling succeeds exactly when no enabled group overlaps; enabled selectors stay exclusive |
| Groups.Registry.Delete | cmd/fleetamp/groups.go:1608-1635 | a group goes exactly when no Collector is identified with it and, in the form, it has no deployment requests |
| GroupOutcome.SelectedExactly | internal/groups/group.go:40-86 | a selector matches exactly when it is not empty and the agent shows each of its values, in FleetAMP's own fields first, then in the reported ones; an absent field reads as empty |
| GroupOutcome.FieldValueExactly | internal/groups/membership_rule.go:79-98 | what a rule reads for every field it may name, without surrounding blanks; the host name falls back to the agent's own |
| GroupOutcome.SharedDespiteCheck | cmd/fleetamp/group_membership_workspace.go:93-128 | a candidate found without conflict shares a listed Collector with another enabled group exactly when its selector matches it and the other group's rule takes it in |
| GroupOutcome.RefusedForReason | cmd/fleetamp/group_membership_workspace.go:93-128 | a rule is refused only for an enabled group with the same rule or a listed Collector that would be in two enabled groups |
| GroupOutcome.SelectorExactly | cmd/fleetamp/groups.go:955-997 | a selector is accepted exactly when it has 1 to 12 conditions, plain keys of at most 128 characters and no blank value |
| GroupOutcome.RuleExactly | internal/groups/membership_rule.go:26-53 | a rule is accepted exactly when its field may be read, its pattern is there, compiles as the kind asked for and, as an expression, has at most 512 characters; it is stored without surrounding blanks |
| GroupNames.GroupIDFromName | cmd/fleetamp/groups.go:931-952 | the loop gives the identifier of a name: its slug, cut and trimmed |
| GroupNames.IDSound | cmd/fleetamp/groups.go:931-952 | every identifier has 1 to 80 characters, lower-case letters, digits and single dashes between them |
| GroupNames.IDOfID | cmd/fleetamp/groups.go:931-952 | an identifier given as a name is its own identifier |
| GroupOutcome.SlugWord | cmd/fleetamp/groups.go:931-952 | a word of letters and digits goes into a slug whole, in lower case |
| GroupOutcome.SlugGap | cmd/fleetamp/groups.go:931-952 | whatever stands between two words becomes one dash; in front of the first word it leaves nothing |
| GroupOutcome.IDExactly | cmd/fleetamp/groups.go:931-952 | the identifier is the longest part of the slug with at most 80 characters that does not end in a dash; "group" when the slug is empty |
| GroupNames.CanonicalGroupName | cmd/fleetamp/groups.go:999-1025 | the name of a group without one joins the slugs of the selector values in key order |
| GroupOutcome.NameOfTwo | cmd/fleetamp/groups.go:999-1025 | a name derived from two conditions joins the slugs of their values by a dash, in the byte order of the keys |
| Fleet.Control.Upsert | internal/storage/memory/agent_store.go:36-64 | a write that does not fail stores the merged record and leaves all others; one that fails is logged and changes nothing |
| GroupOutcome.MergedExactly | internal/storage/memory/agent_store.go:36-64 | the merged record is the new one, but for a display name it leaves out; with a display name that is the name |
| MembershipRollback.Change.Mark | cmd/fleetamp/membership.go:526-542 | sets status and problems of one entry, its configuration only when one is given, and nothing outside the list |
| MembershipRollback.Change.MarkByAgent | cmd/fleetamp/membership.go:544-551 | marks the first entry of the agent and no other |
| MembershipRollback.Change.SetRollbackConfiguration | cmd/fleetamp/membership.go:553-562 | notes the rollback configuration on the first entry of the agent |
| MembershipRollback.Compensate | cmd/fleetamp/membership.go:484-515 | undoing one target writes the original record back and sends the previous configuration again, unless that access or call fails; each problem is reported exactly for its cause: a logged fault, a refused call or a missing configuration |
| MembershipRollback.ProblemFreeIff | cmd/fleetamp/membership.go:484-515 | undoing a target reports no problem exactly when no access failed, no call was refused and a replaced configuration is on record and exists |
| MembershipRollback.CompensatedTells | cmd/fleetamp/membership.go:484-524 | the entry of an undone target says restored exactly when nothing went wrong, and then record and configuration are back |
| MembershipRollback.MarkedEntry | cmd/fleetamp/membership.go:526-562 | marking an undone target touches no other entry when no target is listed twice |
| MembershipRollback.RevertOneMore | cmd/fleetamp/membership.go:484-524 | undoing one more target extends the restored records and the reversed calls by exactly that target |
| MembershipRollback.TruthStays | cmd/fleetamp/membership.go:484-524 | undoing a further target keeps the entries of the targets already undone truthful |
| MembershipRollback.UndoOne | cmd/fleetamp/membership.go:484-515 | one turn of the rollback loop: the target is compensated, its entry tells the truth and names only real causes, and the other entries stay |
| MembershipRollback.RollbackBatch | cmd/fleetamp/membership.go:484-524 | the changed prefix is undone in reverse order; it reports full restoration exactly when no access failed, no undo was refused and every replaced configuration is recorded and exists, and then every changed record is the original one and every previous configuration was sent again and accepted |
| MembershipBatch.Validate | cmd/fleetamp/membership.go:406-439 | all targets are checked before anything is changed; the first unfit one, or one whose data cannot be read, stops the batch |
| MembershipBatch.SendPlanned | cmd/fleetamp/membership.go:441-461 | sends the configuration the change asks for, if any, and records what was really sent; a missing configuration or a refused call fails the target with its cause. What is asked for is said by `BatchOutcome.SuccessSends` and its neighbours without the functions used here |
| MembershipBatch.ChangeMembership | cmd/fleetamp/membership.go:462-475 | writes the target's new membership fields |
| MembershipBatch.Commit | cmd/fleetamp/membership.go:462-477 | the membership write and the evidence of one target, either completed or failed with its cause |
| MembershipBatch.Advance | cmd/fleetamp/membership.go:441-477 | one turn of the forward loop either completes its target or halts with the cause and the exact state so far |
| MembershipBatch.Abort | cmd/fleetamp/membership.go:447-480 | after a failure the reached targets are undone and the run is settled: restored exactly when nothing stood in the way of the rollback |
| MembershipBatch.ExecuteBatch | cmd/fleetamp/membership.go:370-482 | for any number of targets and a failure at any step: a rejected batch changes nothing and had a reason; a batch succeeds exactly when everything it needs is there, no access failed and no call was refused, and then every target is changed, in order, and saved; a failed one is restored completely exactly when the rollback met no fault, no refusal and no missing configuration, and then every stored record and the snapshot equal those before the batch and every sent configuration was followed by its predecessor, sent in reverse order and accepted; the evidence names only real causes; `BatchOutcome` says the same by the fields of the change, the records and the log alone |
| MembershipBatch.SuccessIff | cmd/fleetamp/membership.go:370-482 | a batch succeeds exactly when everything it needs is there, no store access fails and no delivery is refused |
| MembershipBatch.FailureHasReason | cmd/fleetamp/membership.go:441-480 | a failed batch had a failing access, a refused call or a missing configuration |
| MembershipBatch.EvidenceSettled | cmd/fleetamp/membership.go:441-551 | with distinct targets the entries up to the failing one are restored or rollback-failed, the failing one is failed unless the rollback reached it, later ones are untouched |
| MembershipBatch.RunSettled | cmd/fleetamp/membership.go:441-524 | after a failed run each record is the original one or the intended one of a reached target, and the log is the forward calls followed by the rollback's |
| MembershipBatch.MovedTargetsBelong | cmd/fleetamp/membership.go:467-475 | after a successful assignment or move each target belongs to the target group and to no other |
| BatchOutcome.SuccessSends | cmd/fleetamp/membership.go:445-461 | a batch that succeeded made exactly the calls asked for, in target order, each accepted: a removal that restores sends every target its recorded configuration as a rollback, and nothing to a target without one; an assignment or move deploys the named configuration |
| BatchOutcome.AssignmentDeploysToAll | cmd/fleetamp/membership.go:445-461 | a successful assignment or move deploys the named configuration to every target in order, and sends nothing when none is named |
| BatchOutcome.KeepingSendsNothing | cmd/fleetamp/membership.go:445-461 | a removal that keeps the current configuration never sends anything, whatever happens |
| BatchOutcome.FailureSends | cmd/fleetamp/membership.go:441-524 | a batch that failed made the calls asked for up to the target it failed at, only a refused call ends it there, and afterwards it sends again what agents had before that were really sent something |
| BatchOutcome.RestoredExactly | cmd/fleetamp/membership.go:484-524 | a failed batch is restored exactly when no access fails and no call is refused while undoing, and what every agent had before that was really sent something is on record and still exists |
| BatchOutcome.SuccessRecords | cmd/fleetamp/membership.go:462-482 | after success the record of every target is changed as asked, no other record is touched, the file holds all records, and all evidence says completed with the configuration sent |
| BatchOutcome.SucceedsExactly | cmd/fleetamp/membership.go:370-482 | a batch succeeds exactly when every group, configuration and target it needs is there and fits, no access fails and no call is refused |
| Delivery.LatestAssignmentForAgent | cmd/fleetamp/main.go:873-889 | the scan returns the agent's assignment with the newest update, none when there is none |
| ControlPlane.ControlPlane.DeliverConfiguration | cmd/fleetamp/main.go:895-957 | in place, with the stores failing as given, ends in the state and answer of the delivery step; `DeliveryOutcome` says what that adds to both stores for every way it can go |
| ControlPlane.ControlPlane.Launch | cmd/fleetamp/main.go:923-956 | creating the record, writing the assignment, sending, and noting the outcome in both stores end as the delivery step says; `DeliveryOutcome.DeliveryRecords` and `DeliveryAssigns` say what is left for every failing call |
| ControlPlane.ControlPlane.AttemptAutomaticRollback | cmd/fleetamp/main.go:386-407 | claim, lookup and rollback delivery end in the state of the rollback step |
| ControlPlane.ControlPlane.HandleReport | cmd/fleetamp/main.go:307-316 | a status report updates assignment and record and starts the rollback as the report step says |
| ControlPlane.ControlPlane.UpdateLatestByAgentHash | internal/storage/sqlite/deployment_store.go:82-115 | changes the status of the newest record of agent and hash only |
| DeliveryOutcome.DeliveryAnswers | cmd/fleetamp/main.go:905-957 | every answer has its cause, and nothing changes unless the delivery is made |
| DeliveryOutcome.DeliveryRecords | cmd/fleetamp/main.go:923-956 | a delivery that is made adds one record and changes no other; it says sent, unsupported or failed as the sending went once both stores took that, failed when the assignment could not be written, and pending when a status is lost |
| DeliveryOutcome.NeverAddsApplied | cmd/fleetamp/main.go:923-956 | no delivery, whatever fails, adds a record that says applied or applying |
| DeliveryOutcome.DeliveryAssigns | cmd/fleetamp/main.go:927-951 | the agent's newest assignment afterwards is the ordered configuration as the sending went, or pending when that is lost; nobody else's changes, and without the assignment write none does |
| DeliveryOutcome.RollsBack | cmd/fleetamp/main.go:386-407 | an automatic rollback claims the newest record of the hash exactly when it is claimable and the claim works, and then delivers the recorded predecessor exactly when it can be found and such a delivery is made |
| DeliveryOutcome.ReportNoted | cmd/fleetamp/main.go:307-316 | a report is noted in both stores, on the newest entries of the hash; one that says failed or unsupported, and no other, then tries the automatic rollback |
| DeliveryRuns.NoEndlessCascade | cmd/fleetamp/main.go:386-407 | without new orders, claims and remaining budget are conserved, launches never exceed claims and the log grows by exactly the launches |
| DeliveryRuns.RollbacksAtMostDeploys | cmd/fleetamp/main.go:386-407 | in every run claims plus remaining budget equal the deploy-action deliveries with a recorded previous configuration |
| DeliveryRuns.ClaimedOnce | internal/storage/sqlite/deployment_store.go:38-47 | in every run the claims are of distinct eligible deployments, exactly those marked claimed in the end |
| DeliveryRuns.StepSound | cmd/fleetamp/main.go:386-407 | apart from status and claim no record ever changes, and a step claims only an unclaimed eligible one |
| DeliveryRuns.ClaimLaunchesIff | cmd/fleetamp/main.go:391-406 | a claim launches a rollback exactly when nothing is in flight for the agent and the previous configuration is not already applied |
| DeliveryRuns.LateFailureWastesClaim | cmd/fleetamp/main.go:386-407 | a run in which a late failure report claims a rollback and launches nothing |
| DeliveryRuns.DeliverKeepsOneInFlight | cmd/fleetamp/main.go:909-922 | the guard: a delivery keeps at most one delivery in flight per agent, the newest |
| DeliveryRuns.AutoRollbackKeepsOneInFlight | cmd/fleetamp/main.go:386-407 | an automatic rollback keeps it too |
| DeliveryRuns.ReportKeepsOneInFlightIff | internal/storage/sqlite/deployment_store.go:82-115 | a report keeps it exactly when its status is terminal or it names the agent's newest delivery |
| DeliveryRuns.StepKeepsOneInFlightIff | cmd/fleetamp/main.go:895-957 | every step keeps it exactly when it is orderly |
| DeliveryRuns.OrderlyRunKeepsOneInFlight | cmd/fleetamp/main.go:895-957 | every orderly run keeps at most one delivery in flight per agent, and it is the newest |
| DeliveryRuns.LateReportBreaksGuard | cmd/fleetamp/main.go:307-316 | a run in which a late report leaves two deliveries to one agent in flight |
| DeliveryRuns.DeliveredIsLatest | cmd/fleetamp/main.go:914-956 | a delivered configuration is the agent's newest assignment and its newest record, in flight |
| DeliveryRuns.ImmediateUndoRefused | cmd/fleetamp/main.go:909-913 | right after a delivery any further delivery to the agent is refused and changes nothing |
| UndoRuns.UndoRefusedIff | cmd/fleetamp/main.go:905-922 | over any events after a delivery, undoing it is refused and changes nothing as long as no saved report makes the agent's newest delivery terminal, and is not refused as in progress after the first such report unless the report's own rollback is in flight; the one exception is an undo already shown as applied |
| UndoRuns.LandingFrees | cmd/fleetamp/main.go:307-316 | a report that makes the newest delivery terminal frees the agent unless its own automatic rollback is in flight |
| UndoRuns.RunAwaits | cmd/fleetamp/main.go:905-922 | what is in flight stays the agent's newest delivery, in flight, over every run without such a report |
| BatchDelivery.SecondIsRefused | cmd/fleetamp/main.go:909-913 | between reports, whatever is sent to an agent that was sent something before is refused |
| BatchDelivery.RestoredIffNothingSent | cmd/fleetamp/membership.go:484-524 | with deliveries answering the batch, working stores and no report in between, a failed batch is restored exactly when it had sent nothing |
| BatchDelivery.RealBatchRestoredIff | cmd/fleetamp/membership.go:441-524 | the same for the outcome of a batch |
| BatchDelivery.TwoTargetsEndIncomplete | cmd/fleetamp/membership.go:441-524 | a batch of two targets, the second not accepting configurations, ends incomplete although every store works |
| DeliveryRuns.RedeliveryIsNoop | cmd/fleetamp/main.go:905-908 | delivering again what the agent reported applied creates no record and changes no assignment, unless to reconcile |
| DeliveryRuns.StepKeepsPast | cmd/fleetamp/main.go:923-951 | every step keeps each assignment older than the clock |
| DeliveryRuns.ReachableIsPast | cmd/fleetamp/main.go:923-951 | every assignment is older than the clock in every reachable state |
| BuildWorker.AutomaticRetryAt | cmd/fleetamp/distribution_ocb_worker.go:163-181 | the loop returns completion plus the capped doubling, or no time; no 64-bit overflow |
| BuildWorker.BackoffDoubles | cmd/fleetamp/distribution_ocb_worker.go:163-181 | the wait starts at the base, doubles until half an hour, never decreases and never exceeds it |
| BuildWorker.CapStays | cmd/fleetamp/distribution_ocb_worker.go:171-179 | once half an hour is reached the wait stays there, so leaving the loop early is right |
| BuildWorker.RetryConsumedOnce | cmd/fleetamp/distribution_ocb_worker.go:47-99 | a retry request is consumed by at most one attempt, whose immediate predecessor is the attempt it names |
| BuildWorker.NumberedWithoutGaps | cmd/fleetamp/distribution_ocb_worker.go:108-157 | the numbers of an inspection's attempts are exactly 1 to their count, each used once |
| BuildWorker.HistoryExtends | cmd/fleetamp/distribution_ocb_worker.go:75-99 | recording the decided attempt keeps the history: numbering, automatic before manual, the automatic maximum, authorised retries and due times |
| BuildWorker.RecordKeeps | cmd/fleetamp/distribution_ocb_worker.go:108-157 | a free number shows that the listing was complete, and recording keeps the whole log valid; a success stays the last attempt as long as its artifact is listed |
| BuildWorker.OfSuffix | cmd/fleetamp/distribution_ocb_worker.go:39-57 | the listed attempts of an inspection are the newest ones of its history |
| BuildWorker.NumberTaken | cmd/fleetamp/distribution_ocb_worker.go:108-157 | a number is taken only when the prior attempts were not listed completely |
| BuildWorker.FinishedRunsIff | cmd/fleetamp/distribution_ocb_worker.go:31-99 | an inspection whose last attempt succeeded is attempted again exactly when its artifact is not among the listed ones, the success was automatic and automatic attempts are left |
| BuildWorker.UnlistedRunsAgain | cmd/fleetamp/distribution_ocb_worker.go:31-74 | a valid log with one artifact more than is listed, in which the inspection built first is attempted again |
| BuildWorker.Worker.RequestRetry | cmd/fleetamp/distribution_build_plans.go:62-95 | a retry is authorised exactly when the newest attempt has the given number, failed, is listed and was not authorised for before, the reason is given and the write succeeds |
| BuildWorker.Worker.Process | cmd/fleetamp/distribution_ocb_worker.go:71-158 | an inspection gets at most one attempt, the decided one, and a success puts its artifact on record first; it fails only when a store does. `BuildWorker.DecidedExactly` says what is decided by the logs alone |
| BuildWorker.Worker.RunOnce | cmd/fleetamp/distribution_ocb_worker.go:26-161 | a pass keeps the log valid and attempts nothing that has a listed artifact; when it succeeds it attempted exactly the inspections that were to run when it looked at them and left none without listed artifact untried; it fails only for a failing write or receipt or when more is on record than is listed; with complete listings and distinct inspections each one got exactly what it was authorised to: one manual attempt that consumes its latest request when that names the newest attempt, else one automatic attempt when due, else none |
| BuildWorker.DecidedExactly | cmd/fleetamp/distribution_ocb_worker.go:75-99 | from the logs alone: a manual attempt exactly when the latest unconsumed request names the newest attempt; else an automatic one exactly when there is no attempt yet, or the newest is automatic, fewer than the maximum are and the time has come |
| BuildWorker.PassAuthorised | cmd/fleetamp/distribution_ocb_worker.go:26-161 | in a whole pass an inspection without listed artifact gets exactly one attempt when a retry is authorised or an automatic attempt is due, with trigger, request, time and next time as they must be, and none otherwise |
| Requests.SameSelectorIsEquality | cmd/fleetamp/groups.go:499-509 | comparing sizes and entries is equality of selectors |
| Requests.PreviewGroupConfiguration | cmd/fleetamp/groups.go:410-435 | rewriting the entries in place gives every member its readiness and counts exactly the ready ones |
| Requests.TallyTargets | cmd/fleetamp/groups.go:1701-1725 | the loop counts eligible, applied and failed targets by the newest matching record of each |
| Requests.AppliedAtMostEligible | cmd/fleetamp/groups.go:1701-1725 | applied never exceeds eligible, and equals it exactly when every eligible target is applied |
| Requests.StepMoves | cmd/fleetamp/groups.go:1345-1516 | no step changes anything but status and reviewer, and every change of status is one of the allowed moves with its justification |
| Requests.RefreshCompletesIff | cmd/fleetamp/groups.go:1697-1738 | a check completes a request exactly when it has eligible targets and the newest listed record of each is applied |
| Requests.ApprovalDeploysOnlySnapshot | cmd/fleetamp/groups.go:1497-1508 | an approval only appends records: the approved configuration for an eligible target of the snapshot, or a rollback |
| Requests.RequestHistory | cmd/fleetamp/groups.go:1345-1607 | in every run each request is the snapshot of a submission, was approved while pending by someone else with group, hash and targets unchanged and ready before it was deploying, and is completed only by a check that found every eligible target applied |
| Requests.TerminalStays | internal/storage/sqlite/group_deployment_request_store.go:53-104 | no terminal status is ever left |
| RequestBoard.Board.Review | internal/storage/sqlite/group_deployment_request_store.go:53-69 | compare-and-set: succeeds exactly from the expected status and changes one request |
| RequestBoard.Board.ExpirePending | internal/storage/sqlite/group_deployment_request_store.go:71-89 | exactly the pending requests whose time has come expire |
| RequestBoard.Board.SubmitRequest | cmd/fleetamp/groups.go:1517-1607 | ends in the world of the submission step |
| RequestBoard.Board.AllStillReady | cmd/fleetamp/groups.go:1463-1490 | true exactly when every eligible snapshotted target is still a ready member |
| RequestBoard.Board.ApproveDeployment | cmd/fleetamp/groups.go:1415-1516 | ends in the world of the approval step; `RequestOutcome.ApprovalOutcome` and `TargetDeployed` say by the log whom that sends what and when the request fails |
| RequestBoard.Board.DeclineDeployment | cmd/fleetamp/groups.go:1345-1389 | ends in the world of the rejecting or sending-back step |
| RequestBoard.Board.CancelDeployment | cmd/fleetamp/groups.go:1390-1414 | ends in the world of the cancelling step |
| RequestBoard.Board.RefreshRequest | cmd/fleetamp/groups.go:1697-1738 | ends in the world of the completion check |
| RequestOutcome.ReadinessExactly | cmd/fleetamp/groups.go:341-435 | the readiness of a member by its flags and its newest assignment; it is the first of the reasons that applies |
| RequestOutcome.SubmitOutcome | cmd/fleetamp/groups.go:1517-1607 | a submission that is allowed adds one pending request with the snapshot of the members; any other changes nothing |
| RequestOutcome.ApprovalOutcome | cmd/fleetamp/groups.go:1415-1516 | an approval that is not allowed sends nothing; one that is allowed notes the reviewer and leaves the request failed exactly when some eligible target's history was unreadable or its delivery was not accepted and that can be saved, and deploying else |
| RequestOutcome.TargetDeployed | cmd/fleetamp/groups.go:1497-1508 | an eligible target has exactly one deploy record more, with the request's id and the agent's last applied configuration, when its history was read and its delivery is made, and none otherwise |
| RequestOutcome.LastAppliedIs | cmd/fleetamp/groups.go:1497-1508 | the configuration taken as last applied is that of the newest applied record among the agent's newest 100, or empty |
| RequestOutcome.RefusedTargetRollsBack | cmd/fleetamp/groups.go:1497-1508 | a delivery that was made but not accepted leaves the record failed or unsupported and, once the claim works and it can be found, delivers the predecessor as a rollback |
| RequestOutcome.DeclineOutcome | cmd/fleetamp/groups.go:1345-1389 | a reviewer who is not the requester, and is the assigned one if there is one, may reject a pending request or send it back; anything else only sweeps |
| RequestOutcome.CancelOutcome | cmd/fleetamp/groups.go:1390-1414 | the requester or an Admin may cancel a pending request; anything else only sweeps |
| RequestOutcome.ExpireOutcome | internal/storage/sqlite/group_deployment_request_store.go:71-89 | a sweep expires exactly the pending requests whose time has come |
| RequestOutcome.RefreshOutcome | cmd/fleetamp/groups.go:1697-1738 | a check fails a deploying request exactly when the deciding record of an eligible target is failed or unsupported, and completes it exactly when it does not fail, there are eligible targets and all have applied |
| TextOrder.OnlyOneOrder | cmd/fleetamp/migration_standardization.go:177-207 | there is one way only to list given names, the preferred first and the others in byte order |
| TextOrder.ChosenThenRemaining | cmd/fleetamp/migration_standardization.go:188-205 | taking the preferred keys and then sorting the remaining ones lists all keys in that order |
| CollectorTree.ArrangeSound | cmd/fleetamp/migration_standardization.go:177-207 | arranging a mapping only permutes its entries, lists them in order and leaves the value of every key |
| CollectorTree.CanonicalSame | cmd/fleetamp/migration_standardization.go:160-175 | the layout changes nothing but the order of entries, and lists the known sections first |
| CollectorTree.CanonicalForm | cmd/fleetamp/migration_standardization.go:160-207 | two documents get the same layout exactly when they differ only in the order of the arranged entries |
| CollectorTree.CanonicalIdempotent | cmd/fleetamp/migration_standardization.go:160-207 | laying out a second time changes nothing |
| CollectorTree.ImportableSame | cmd/fleetamp/migration.go:693-768 | whether a document can be imported does not depend on the order of entries |
| PatternOutcome.ImportableExactly | cmd/fleetamp/migration.go:693-768 | a document can be imported exactly when it is a non-empty mapping, no mapping repeats a key, component sections are mappings or null, and service and its pipelines are mappings |
| Baseline.PipelinesExtended | cmd/fleetamp/migration_standardization.go:126-156 | every pipeline keeps all entries but its processors, which are the old list, in order, with the missing memory_limiter before and the missing batch behind |
| Baseline.PassFrame | cmd/fleetamp/migration_standardization.go:84-158 | beside pipelines and processor definitions nothing changes |
| Baseline.PassCompletes | cmd/fleetamp/migration_standardization.go:84-158 | afterwards both processor types are defined and every pipeline runs through both |
| Baseline.QuietIffComplete | cmd/fleetamp/migration_standardization.go:84-158 | a pass reports nothing and changes nothing exactly when nothing is missing |
| Baseline.SecondPassQuiet | cmd/fleetamp/migration_standardization.go:84-158 | a second pass reports no change and makes none |
| Baseline.AddedDefinedIff | cmd/fleetamp/migration_standardization.go:94-148 | the references a pass adds are defined exactly when each added type was absent or present under its bare name |
| Baseline.ClosedKeptIff | cmd/fleetamp/migration_standardization.go:84-158 | a document whose references are all defined stays so exactly under that condition |
| Baseline.NamedBatchLeavesDanglingReference | cmd/fleetamp/migration_standardization.go:106-148 | with only batch/custom defined the added bare name is undefined |
| Baseline.StandardizeIdempotent | cmd/fleetamp/migration_standardization.go:22-60 | standardising a standardised document, as printed, changes nothing and reports nothing, not even a layout change |
| StandardOutcome.StandardizeOutcome | cmd/fleetamp/migration_standardization.go:22-60 | a document is standardised exactly when it can be imported and, if asked for, the baseline can be applied; the result is in the required order and says the same as the document, or as the document with the baseline; a changed text is reported as a layout change before the others |
| StandardOutcome.SameStandardized | cmd/fleetamp/migration_standardization.go:22-60 | without the baseline, two documents that can be imported are standardised to the same tree exactly when they differ in the order of entries alone |
| StandardOutcome.BaselineDefines | cmd/fleetamp/migration_standardization.go:94-113 | the baseline defines a memory limiter, with its settings, and a batch processor behind the other definitions, each unless one of its type is defined |
| StandardOutcome.BaselineExtends | cmd/fleetamp/migration_standardization.go:126-148 | every pipeline lists what it listed, in its order, behind a memory limiter and in front of a batch processor, each put there unless one of its type was listed |
| StandardOutcome.BaselineReports | cmd/fleetamp/migration_standardization.go:94-156 | reports the definitions added, then every pipeline something was put into, with what that was |
| StandardOutcome.BaselineRefused | cmd/fleetamp/migration_standardization.go:84-139 | when the baseline is refused, and for which reason, in the order of the checks |
| CollectorNodes.MappingValue | cmd/fleetamp/migration_standardization.go:209-219 | finds the first value of a key, or none exactly when the key is absent |
| CollectorNodes.OrderPairs | cmd/fleetamp/migration_standardization.go:188-206 | the ordered node list is the pairs of the keys in arranged order |
| CollectorNodes.ReorderMapping | cmd/fleetamp/migration_standardization.go:177-207 | rewriting the content in place arranges the mapping and touches no other node |
| CollectorNodes.CanonicalizeCollectorLayout | cmd/fleetamp/migration_standardization.go:160-175 | the document in place becomes its canonical layout, with the same nodes |
| BaselineNodes.MappingHasComponentType | cmd/fleetamp/migration_standardization.go:225-232 | true exactly when some key has the component type |
| BaselineNodes.SequenceHasComponentType | cmd/fleetamp/migration_standardization.go:234-241 | true exactly when some scalar item has the component type |
| BaselineNodes.DefineProcessors | cmd/fleetamp/migration_standardization.go:94-113 | defines the missing processors in place and reports them |
| BaselineNodes.ExtendList | cmd/fleetamp/migration_standardization.go:140-148 | puts the missing references at the two ends of the list in place |
| BaselineNodes.ExtendPipelines | cmd/fleetamp/migration_standardization.go:126-156 | extends every pipeline in place and reports each change, or stops at the first unfit pipeline |
| BaselineNodes.ApplyCollectorBaseline | cmd/fleetamp/migration_standardization.go:84-158 | the pass in place does to the document exactly what the tree function says, with the same changes and the same refusals |
| BaselineNodes.StandardizeImportedConfiguration | cmd/fleetamp/migration_standardization.go:22-60 | inspection, baseline and layout in place end in the standardised document and its text, with the layout change reported first exactly when the texts differ; `StandardOutcome.StandardizeOutcome` says what that document is |
| PatternMatch.FeatureSet.Flatten | cmd/fleetamp/migration_pattern_match.go:154-184 | the shared set receives exactly the paths and leaf values of the tree |
| PatternMatch.ReceiverIsLeast | cmd/fleetamp/migration_pattern_match.go:81-94 | the chosen receiver has the type and the least name of that type; none exactly when no receiver has it |
| PatternMatch.PatternSignalScore | cmd/fleetamp/migration_pattern_match.go:110-122 | the loop gives the rounded score, and the matched signals in order |
| PatternMatch.PatternReceiverConfigScore | cmd/fleetamp/migration_pattern_match.go:124-152 | the loops give the rounded share of common features, or an error exactly when the configuration does not decode |
| PatternMatch.RoundedNearest | cmd/fleetamp/migration_pattern_match.go:121-151 | the score is the nearest integer to the exact share |
| PatternMatch.SimilarityBounds | cmd/fleetamp/migration_pattern_match.go:124-152 | at most 20, and 20 exactly when both sets are empty or 40 times the common features reach 39 times all features |
| PatternMatch.SignalBounds | cmd/fleetamp/migration_pattern_match.go:110-122 | at most 25, and 25 exactly when signals are listed and 50 times the matched ones reach 49 times all |
| PatternMatch.ScoreRange | cmd/fleetamp/migration_pattern_match.go:46-54 | every score lies in 55..100, the cap never applies, and 100 is reached exactly under both conditions |
| PatternOutcome.FeaturesExactly | cmd/fleetamp/migration_pattern_match.go:154-184 | the features of a tree are exactly what its paths say: each path, and each leaf with its value |
| PatternOutcome.SignalsExactly | cmd/fleetamp/migration_pattern_match.go:96-108 | the signals are the known types of the pipelines |
| PatternOutcome.ScoreExactly | cmd/fleetamp/migration_pattern_match.go:46-152 | 55, up to 25 for the share of the pattern's signals that the pipelines carry, and up to 20 for the share of structure in common, each rounded to the nearest whole number |
| PatternRanking.ConsideredOnce | cmd/fleetamp/migration_pattern_match.go:37-41 | every enabled pattern id is considered once, and only enabled patterns are |
| PatternRanking.MatchesExactly | cmd/fleetamp/migration_pattern_match.go:37-68 | the matches are exactly the scored considered patterns |
| PatternRanking.MatchCollectorPatterns | cmd/fleetamp/migration_pattern_match.go:25-79 | the result is a ranked permutation of the matches and the recommended one has the best score; refused exactly when the document cannot be imported or a considered configuration does not decode |
| PatternOutcome.ConsideredExactly | cmd/fleetamp/migration_pattern_match.go:37-41 | the patterns looked at are the first enabled ones of their identifiers, in order |
| PatternOutcome.RankedExactly | cmd/fleetamp/migration_pattern_match.go:70-78 | ranked matches never score higher than earlier ones, and equal scores are in the order of the names in lower case |
| PatternOutcome.NoMatchesIff | cmd/fleetamp/migration_pattern_match.go:42-60 | there is no result exactly when the settings of a pattern that is looked at and whose receiver is present do not parse or repeat a key |
| Adoption.OnlyTargetChanges | cmd/fleetamp/migration_pattern_adopt.go:50-122 | only the chosen receiver's settings differ, up to layout, and the result can be imported |
| Adoption.AdoptedImportableIff | cmd/fleetamp/migration_pattern_adopt.go:79-95 | an adopted document can be imported again exactly when the pattern's settings repeat no key |
| Adoption.AdoptedReceiverIsChosen | cmd/fleetamp/migration_pattern_adopt.go:50-122 | the same receiver is matched afterwards, it carries the pattern's settings, and the signals are the same |
| Adoption.AdoptionRaisesScore | cmd/fleetamp/migration_pattern_adopt.go:50-122 | the score becomes 75 plus the unchanged signal score and does not drop |
| Adoption.SecondAdoptionAligned | cmd/fleetamp/migration_pattern_adopt.go:106-121 | a second adoption changes nothing and reports no alignment, at most that other receivers were left alone |
| PatternOutcome.AdoptOutcome | cmd/fleetamp/migration_pattern_adopt.go:50-122 | a pattern is adopted exactly when it is enabled, the document can be imported and has a receiver of its type, and it brings settings; else the first of these that fails is the reason; the result is laid out, and what is reported is said |
| AdoptionNodes.NodesEqual | cmd/fleetamp/migration_pattern_adopt.go:138-142 | two nodes are equal exactly when they show the same tree |
| AdoptionNodes.ReplaceReceiver | cmd/fleetamp/migration_pattern_adopt.go:83-90 | the first receiver of the name gets the new settings in place, and nothing else changes |
| AdoptionNodes.AdoptCollectorPattern | cmd/fleetamp/migration_pattern_adopt.go:50-122 | adoption in place ends in the adopted document with the same changes, or refuses for the same reason |
| Blueprint.ContainsCatalogValue | cmd/fleetamp/blueprints.go:605-612 | true exactly when the value or "any" is listed |
| Blueprint.GenerateBlueprint | cmd/fleetamp/blueprints.go:614-695 | the loops over signals, blocks and pipelines build the specified document, or refuse with the specified reason |
| Blueprint.GeneratedIff | cmd/fleetamp/blueprints.go:614-675 | a document is generated exactly when pattern and destination decode, a supported signal is selected and every enabled block for the platform decodes and is of a known kind |
| Blueprint.GeneratedIsClosed | cmd/fleetamp/blueprints.go:641-688 | every receiver, processor, exporter and extension referred to is defined, every pipeline has a receiver and an exporter, and all share one processor list |
| Blueprint.HasPipelineIff | cmd/fleetamp/blueprints.go:676-683 | there is a pipeline exactly when a selected signal is metrics, traces or logs |
| Blueprint.ProfilesHaveNoPipeline | cmd/fleetamp/blueprints.go:676-683 | a pattern for profiles alone gives a document without a pipeline |
| Blueprint.ComponentsInOrder | cmd/fleetamp/blueprints.go:648-675 | the components of a kind are exactly the used blocks of that kind, in block order |
| Blueprint.ReceiversForIff | cmd/fleetamp/blueprints.go:660-666 | the extra receivers of a signal are exactly the used receiver blocks that list it |
| Blueprint.LastBlockCounts | cmd/fleetamp/blueprints.go:656-674 | of several blocks for one component the last one is used |
| BlueprintOutcome.GeneratedExactly | cmd/fleetamp/blueprints.go:614-695 | every section of a generated document, with the destination's exporter settings, the settings of the used blocks and, for every selected pipeline signal, its receivers, processors and exporter |
| BlueprintOutcome.RefusedExactly | cmd/fleetamp/blueprints.go:614-675 | which refusal it is: the first of the conditions that applies, the blocks in their order |
| Sessions.SessionTable.CreateSession | cmd/fleetamp/auth.go:312-339 | the table holds the new session, no expired one and at most 32; a live one is lost only when 32 were live, and expires no later than every older survivor; the exact size is given |
| Sessions.SessionTable.MakeRoom | cmd/fleetamp/auth.go:326-335 | eviction ends, removes the first to expire, and leaves exactly 31 when the table was full |
| Sessions.SessionTable.ValidSession | cmd/fleetamp/auth.go:368-388 | valid exactly while unexpired; an expired session is removed |
| Sessions.SessionTable.RevokeUserSessions | cmd/fleetamp/users.go:494-502 | removes exactly the user's sessions |
| Sessions.SessionTable.ClearSession | cmd/fleetamp/auth.go:429-439 | removes exactly the one session |
| Identity.NormalizeOwners | cmd/fleetamp/groups.go:285-304 | the loops give the sorted first spellings of the trimmed, non-empty names |
| Identity.NormalizedPlain | cmd/fleetamp/groups.go:285-304 | whatever is normalised, the owners have no commas and no surrounding blanks |
| Identity.NormalizedOwns | cmd/fleetamp/groups.go:285-304 | normalising plain names keeps who owns |
| IdentityOutcome.NormalizedExactly | cmd/fleetamp/groups.go:285-304 | a normalised list is in byte order, names nobody twice, and holds exactly the first spelling of every name |
| Identity.OwnershipDecided | cmd/fleetamp/users.go:471-490 | a user with a plain name owns a group exactly when chosen, any other user never; whoever a chosen name is read as gains it; everybody else's ownership stays |
| Identity.PlainOthersKept | cmd/fleetamp/users.go:471-490 | with a plain name a change touches nobody else's ownership |
| Identity.CommaNameOwns | cmd/fleetamp/users.go:471-490 | a name with a comma never gets on an owner list, its two parts do |
| Identity.SelectedIffOwnerRole | cmd/fleetamp/users.go:446-466 | the groups selected for a user are exactly those where a membership carries the owner role |
| Identity.UnseenViewerOwns | cmd/fleetamp/users.go:446-466 | memberships for which a failed listing makes a viewer an owner |
| Identity.AgreeIff | cmd/fleetamp/users.go:442-492 | after a change the owner lists agree with the memberships exactly when these were listed or are uniform; for a name that is not plain, exactly when it holds no owner role |
| Identity.ListedAgreeIff | cmd/fleetamp/groups.go:1240-1260 | a list of names says what the memberships of a group say exactly when every listed name holds group_owner there and every member holding it is listed |
| Identity.ApproverNamedOwner | cmd/fleetamp/groups.go:1240-1260 | an approver may be named owner without holding group_owner, and then list and memberships disagree |
| Identity.Replaced | internal/storage/sqlite/membership_store.go:122-160 | replacing a user's memberships sets that user's roles and leaves all other memberships |
| IdentityOutcome.ReplacedExactly | internal/storage/sqlite/membership_store.go:122-160 | replacing keeps exactly the memberships of everybody else and stores the new ones under the given spelling |
| Identity.ComputeNext | cmd/fleetamp/users.go:315-338 | the loop gives the user's memberships with the one group set or removed, all roles held in them, and their groups in order |
| Identity.ValidatedGroupRoles | cmd/fleetamp/users.go:265-284 | gives the named roles, blank entries aside, or none when one is unknown |
| IdentityOutcome.ValidatedExactly | cmd/fleetamp/users.go:265-284 | the names are accepted exactly when each is blank or names a role, and the roles are exactly the named ones |
| IdentityOutcome.LegacyRoleExactly | cmd/fleetamp/users.go:286-298 | the platform role that group roles call for; never Admin |
| IdentityOutcome.RoleFitsExactly | cmd/fleetamp/users.go:286-356 | after a change the user is the same one, an Admin stays one, and anybody else has the platform role that the roles held call for |
| Identity.Directory.SyncGroupOwnership | cmd/fleetamp/users.go:442-492 | every owner list becomes the decided one, unless a failing group listing or write stops it in between; memberships that cannot be listed count as none |
| Identity.Directory.UpdateGroupMembership | cmd/fleetamp/users.go:300-363 | the answer is decided by the checks and the failing accesses; on success the roles are as asked, nobody else's memberships changed, the platform role fits, no session of the user is left, and what the user owns is fixed: it agrees with the memberships exactly when these were listed or are uniform, for a plain name; refusals and failures before the first write change nothing; a non-Admin stays a member of some group whatever happens |
| Identity.Directory.SetOwners | cmd/fleetamp/groups.go:1240-1260 | succeeds exactly when the listed users are fit and no access fails, sets the normalised list, and then list and memberships of the group agree exactly when the listed names are its members holding group_owner |

## Left out

- HTTP handlers, forms, redirects, HTML, CSS and JavaScript: only the state change of each action is modelled.
- SQLite, file and snapshot formats: stores are maps or append-only logs with atomic conditional updates; which calls fail is nondeterministic or part of the event.
- Secrets: configurations are assumed to have no secret references. With such references a delivery is recorded under the materialised hash (cmd/fleetamp/main.go:896) while request and synchronous rollback use the raw one (cmd/fleetamp/groups.go:1505, cmd/fleetamp/groups.go:1713); that mismatch is not modelled.
- YAML text, comments, styles, anchors and collection tags: documents start as trees, a scalar carries its tag and its decoded text, and two nodes print alike exactly when they show the same tree. What a document prints to is given as a function of its tree.
- Letter case is folded for ASCII only, and lengths count characters.
- Times are integers; the position in a log stands for the creation time, and update times of assignments are distinct.
- Concurrency between handlers in check-then-write sequences: every action is one step; compare-and-set calls are modelled as such.
- The OpAMP adapter, the container build runner and the registries: their calls succeed or fail.
- Regular expressions and wildcards of dynamic rules: what a pattern accepts, or that it is malformed, is given. Selectors are given as cleaned, without blank keys and values.
- createUser, role and password changes, recovery tokens and token hashing; session keys are given and are never empty.
- Store clones: records are values, so aliasing between a stored agent and a handler's copy is not modelled.
- Completion and review time stamps, comments, notifications, audit events and metadata copied into evidence.
- MembershipBatch.ExecuteBatch: the evidence of single targets is described for distinct target ids only; with a repeated target the records and calls are still described, the entries are not.
- BaselineNodes.ApplyCollectorBaseline: says nothing about the nodes after a refusal, because the document is then dropped.
- Sessions.SessionTable.CreateSession: the size after recording is given for a key that is not live yet; keys are fresh random digests.
