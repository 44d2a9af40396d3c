/** The compensating membership batch: every target is validated first, then Collectors are
    changed one at a time; a failure undoes the changed prefix in reverse and the evidence
    records, per target, what happened. */
module MembershipBatch {
  import opened Wrappers
  import opened Groups
  import opened Fleet
  import opened MembershipRollback

  // ---------- What the batch is meant to do ----------

  function Previous(assignments: map<string, string>, uid: string): string {
    if uid in assignments then assignments[uid] else ""
  }

  /** The configuration calls for the first k targets, in order. */
  ghost function ForwardCalls(change: Change, assignments: map<string, string>, k: nat): seq<Call>
    requires k <= |change.targets|
  {
    if k == 0 then []
    else ForwardCalls(change, assignments, k - 1) +
         (if change.PlannedID(k - 1) == "" then []
          else [change.PlannedCall(k - 1, Previous(assignments, change.targets[k - 1].uid))])
  }

  /** Sends the configuration recorded as previous when the call was made. */
  function Undo(call: Call): Call {
    Call(call.uid, call.previousConfigID, Rollback, "", call.requestID)
  }

  /** The undo of every configuration that was really sent, the latest first. */
  ghost function UndoOf(sent: seq<Delivery>): seq<Call> {
    if sent == [] then []
    else UndoOf(sent[1..]) + (if sent[0].answer.Sent? then [Undo(sent[0].call)] else [])
  }

  ghost function TargetUids(change: Change, k: nat): set<string>
    requires k <= |change.targets|
  {
    set i | 0 <= i < k :: change.targets[i].uid
  }

  ghost function Moved(change: Change, groups: map<string, Group>, k: nat, pre: map<string, Agent>): map<string, Agent>
    requires k <= |change.targets|
  {
    map uid | uid in pre :: if uid in TargetUids(change, k) then change.NewAgent(groups, pre[uid]) else pre[uid]
  }

  /** Assigning needs a Collector that matches no enabled group; removing and moving need a
      member of the source group. */
  predicate Eligible(change: Change, groups: map<string, Group>, agent: Agent) {
    if change.operation == Assign then forall id | id in groups :: !Matches(groups[id], agent)
    else change.sourceGroupID != "" && change.sourceGroupID in groups && MatchesIdentity(groups[change.sourceGroupID], agent)
  }

  /** How many leading targets the rollback visits, and how many were sent a configuration. */
  function Reach(cause: Cause, n: nat): nat {
    match cause
    case LookupAt(i) => i
    case DeliveryAt(i) => i
    case WriteAt(i) => i + 1
    case SnapshotFailed => n
  }

  function Attempted(cause: Cause, n: nat): nat {
    match cause
    case LookupAt(i) => i
    case DeliveryAt(i) => i + 1
    case WriteAt(i) => i + 1
    case SnapshotFailed => n
  }

  /** What the forward pass logged when it failed for this cause. */
  ghost predicate ForwardFaulted(change: Change, cause: Cause, configurations: set<string>, faults: seq<Fault>) {
    && Within(cause, |change.targets|)
    && match cause
       case LookupAt(i) =>
         && change.RestoresPrevious(i)
         && ((faults == [] && change.PlannedID(i) !in configurations) || faults == [ConfigurationRead(change.PlannedID(i))])
       case DeliveryAt(i) => faults == [] && change.PlannedID(i) != ""
       case WriteAt(i) => faults == [AgentWrite(change.targets[i].uid)]
       case SnapshotFailed => faults == [SnapshotWrite]
  }

  /** Only a delivery failure comes from a refused call, the last one. */
  ghost predicate ForwardAnswers(cause: Cause, sent: seq<Delivery>) {
    if cause.DeliveryAt? then sent != [] && sent[|sent| - 1].answer.Refused? && NoneRefused(sent[..|sent| - 1])
    else NoneRefused(sent)
  }

  /** The configuration planned for a target, if any, exists. */
  predicate Available(change: Change, i: nat, configurations: set<string>)
    requires i < |change.targets|
  {
    change.PlannedID(i) == "" || change.PlannedID(i) in configurations
  }

  /** The groups and the configuration that the change names exist. */
  predicate Resolvable(change: Change, groups: map<string, Group>, configurations: set<string>) {
    && (change.operation != Remove ==>
         change.targetGroupID in groups && (change.targetConfigID == "" || change.targetConfigID in configurations))
    && (change.sourceGroupID == "" || change.sourceGroupID in groups)
  }

  /** The target is there and may be changed. */
  predicate Fit(change: Change, i: nat, groups: map<string, Group>, agents: map<string, Agent>)
    requires i < |change.targets|
  {
    change.targets[i].uid in agents && Eligible(change, groups, agents[change.targets[i].uid])
  }

  /** Everything a batch needs is there. */
  ghost predicate Ready(change: Change, groups: map<string, Group>, configurations: set<string>, agents: map<string, Agent>) {
    && Resolvable(change, groups, configurations)
    && forall i :: 0 <= i < |change.targets| ==> Fit(change, i, groups, agents) && Available(change, i, configurations)
  }

  function Entry(change: Change, i: nat, status: Status, configID: string, problems: seq<Problem>): Evidence
    requires i < |change.targets|
  {
    Evidence(change.targets[i].uid, change.targets[i].name, status, configID, "", problems)
  }

  ghost predicate DistinctTargets(targets: seq<Target>) {
    forall i, j :: 0 <= i < j < |targets| ==> targets[i].uid != targets[j].uid
  }

  // ---------- Progress of the forward pass ----------

  ghost predicate Checked(change: Change, checkpoints: seq<Checkpoint>, pre: map<string, Agent>, assignments: map<string, string>) {
    && |checkpoints| == |change.targets|
    && forall i :: 0 <= i < |checkpoints| ==>
        && change.targets[i].uid in pre
        && checkpoints[i].original == pre[change.targets[i].uid]
        && checkpoints[i].original.uid == change.targets[i].uid
        && checkpoints[i].previousConfigID == Previous(assignments, change.targets[i].uid)
  }

  ghost predicate Changed(change: Change, checkpoints: seq<Checkpoint>, k: nat, groups: map<string, Group>,
                          pre: map<string, Agent>, agents: map<string, Agent>, assignments: map<string, string>) {
    && k <= |change.targets| && NormalStore(pre)
    && Checked(change, checkpoints, pre, assignments)
    && agents == Moved(change, groups, k, pre)
    && (forall i :: 0 <= i < k ==> checkpoints[i].membershipChanged)
    && (forall i :: k <= i < |checkpoints| ==>
         !checkpoints[i].membershipChanged && !checkpoints[i].configurationChanged && checkpoints[i].agent == checkpoints[i].original)
  }

  ghost predicate SentSoFar(change: Change, checkpoints: seq<Checkpoint>, assignments: map<string, string>, k: nat, sent: seq<Delivery>) {
    && k <= |change.targets| == |checkpoints|
    && Calls(sent) == ForwardCalls(change, assignments, k)
    && UndoOf(sent) == UndoCalls(change, checkpoints[..k])
    && NoneRefused(sent)
  }

  ghost predicate Recorded(change: Change, k: nat, results: seq<Evidence>) {
    && k <= |change.targets| == |results|
    && (forall i :: 0 <= i < k ==> results[i] == Entry(change, i, Completed, change.PlannedID(i), []))
    && (forall i :: k <= i < |results| ==> results[i] == Entry(change, i, NotStarted, "", []))
  }

  lemma {:induction false} UndoOfSnoc(sent: seq<Delivery>, last: Delivery)
    ensures UndoOf(sent + [last]) == (if last.answer.Sent? then [Undo(last.call)] else []) + UndoOf(sent)
  {
    if sent == [] {
      assert (sent + [last])[1..] == [];
      assert UndoOf(sent + [last]) == if last.answer.Sent? then [Undo(last.call)] else [];
    } else {
      assert (sent + [last])[1..] == sent[1..] + [last];
      UndoOfSnoc(sent[1..], last);
    }
  }

  lemma {:induction false} UndoCallsSnoc(change: Change, checkpoints: seq<Checkpoint>, last: Checkpoint)
    ensures UndoCalls(change, checkpoints + [last]) ==
            (if last.configurationChanged then [change.UndoCall(last)] else []) + UndoCalls(change, checkpoints)
  {
    if checkpoints == [] {
      assert (checkpoints + [last])[1..] == [];
      assert UndoCalls(change, checkpoints + [last]) == if last.configurationChanged then [change.UndoCall(last)] else [];
    } else {
      assert (checkpoints + [last])[1..] == checkpoints[1..] + [last];
      UndoCallsSnoc(change, checkpoints[1..], last);
    }
  }

  ghost predicate Planned(change: Change, k: nat, checkpoint: Checkpoint, more: seq<Delivery>)
    requires k < |change.targets|
  {
    if change.PlannedID(k) == "" then more == [] && !checkpoint.configurationChanged
    else |more| == 1 && more[0].call == change.PlannedCall(k, checkpoint.previousConfigID) && !more[0].answer.Refused?
         && checkpoint.configurationChanged == more[0].answer.Sent?
  }

  /** One more target was sent its configuration, or none was planned for it. */
  lemma {:induction false} SendOneMore(change: Change, before: seq<Checkpoint>, after: seq<Checkpoint>, assignments: map<string, string>, k: nat,
                    sent: seq<Delivery>, more: seq<Delivery>)
    requires k < |change.targets| && SentSoFar(change, before, assignments, k, sent)
    requires |after| == |before| && after[..k] == before[..k]
    requires after[k].original.uid == change.targets[k].uid
    requires after[k].previousConfigID == Previous(assignments, change.targets[k].uid)
    requires Planned(change, k, after[k], more)
    ensures Calls(sent + more) == ForwardCalls(change, assignments, k + 1)
    ensures UndoOf(sent + more) == UndoCalls(change, after[..k + 1])
    ensures NoneRefused(sent + more)
  {
    hide Calls, UndoOf, UndoCalls;
    assert after[..k + 1] == before[..k] + [after[k]];
    UndoCallsSnoc(change, before[..k], after[k]);
    CallsAppend(sent, more);
    if more == [] {
      assert sent + more == sent;
    } else {
      assert more == [more[0]];
      UndoOfSnoc(sent, more[0]);
    }
  }

  /** Membership changes leave name and display name alone, so a merging write stores them as is. */
  lemma {:induction false} NewAgentKeepsNames(change: Change, groups: map<string, Group>, agent: Agent)
    ensures var next := change.NewAgent(groups, agent);
      next.uid == agent.uid && next.name == agent.name && next.displayName == agent.displayName
  {
    hide Without, AppendUnique;
  }

  lemma {:induction false} MergedIsNewAgent(change: Change, groups: map<string, Group>, pre: Agent, stored: Agent)
    requires Normal(pre.uid, pre) && stored.displayName == pre.displayName
    ensures Merged(Some(stored), change.NewAgent(groups, pre)) == change.NewAgent(groups, pre)
  {
    NewAgentKeepsNames(change, groups, pre);
  }

  lemma {:induction false} MoveOneMore(change: Change, groups: map<string, Group>, k: nat, pre: map<string, Agent>, agents: map<string, Agent>)
    requires k < |change.targets| && NormalStore(pre) && change.targets[k].uid in pre
    requires agents == Moved(change, groups, k, pre)
    ensures var uid := change.targets[k].uid;
      agents[uid := Merged(Stored(agents, uid), change.NewAgent(groups, pre[uid]))] == Moved(change, groups, k + 1, pre)
  {
    var uid := change.targets[k].uid;
    assert Normal(uid, pre[uid]);
    NewAgentKeepsNames(change, groups, pre[uid]);
    MergedIsNewAgent(change, groups, pre[uid], agents[uid]);
    assert TargetUids(change, k + 1) == TargetUids(change, k) + {uid};
  }

  lemma ChangedUidsOfPrefix(change: Change, checkpoints: seq<Checkpoint>, k: nat, reach: nat)
    requires k <= reach <= |checkpoints| == |change.targets|
    requires forall i :: 0 <= i < |checkpoints| ==> checkpoints[i].original.uid == change.targets[i].uid
    requires forall i :: 0 <= i < k ==> checkpoints[i].membershipChanged
    requires forall i :: k <= i < |checkpoints| ==> !checkpoints[i].membershipChanged
    ensures ChangedUids(checkpoints[..reach]) == TargetUids(change, k)
  {
    forall i | 0 <= i < k ensures change.targets[i].uid in ChangedUids(checkpoints[..reach]) {
      assert checkpoints[..reach][i] == checkpoints[i];
    }
  }

  // ---------- Changing one target ----------

  ghost predicate SendingFailed(change: Change, previousConfigID: string, cause: Cause, k: nat, more: seq<Delivery>,
                                before: seq<Evidence>, after: seq<Evidence>)
    requires k < |change.targets| == |before|
  {
    match cause
    case LookupAt(i) =>
      && i == k && more == [] && change.RestoresPrevious(k)
      && after == before[k := Entry(change, k, Failed, "", [ConfigurationMissing])]
    case DeliveryAt(i) =>
      && i == k && |more| == 1 && more[0].call == change.PlannedCall(k, previousConfigID) && more[0].answer.Refused?
      && change.PlannedID(k) != ""
      && after == before[k := Entry(change, k, Failed, change.PlannedID(k), [DeliveryRefused])]
    case _ => false
  }

  method SendPlanned(change: Change, k: nat, previousConfigID: string, fleet: Control) returns (cause: Option<Cause>, changed: bool)
    requires k < |change.targets| == |change.results| && change.results[k] == Entry(change, k, NotStarted, "", [])
    modifies change`results, fleet`deliveries, fleet`faults
    ensures old(fleet.faults) <= fleet.faults
    ensures if cause.Some? then ForwardFaulted(change, cause.value, fleet.configurations, fleet.faults[|old(fleet.faults)|..])
            else fleet.faults == old(fleet.faults) && (change.RestoresPrevious(k) ==> change.PlannedID(k) in fleet.configurations)
    ensures |fleet.deliveries| >= |old(fleet.deliveries)| && fleet.deliveries[..|old(fleet.deliveries)|] == old(fleet.deliveries)
    ensures var more := fleet.deliveries[|old(fleet.deliveries)|..];
      match cause
      case None =>
        && change.results == old(change.results)[k := Entry(change, k, NotStarted, change.PlannedID(k), [])]
        && if change.PlannedID(k) == "" then more == [] && !changed
           else |more| == 1 && more[0].call == change.PlannedCall(k, previousConfigID) && !more[0].answer.Refused? && changed == more[0].answer.Sent?
      case Some(failure) => SendingFailed(change, previousConfigID, failure, k, more, old(change.results), change.results)
  {
    changed := false;
    ghost var f0 := fleet.faults;
    var configID, action := if change.operation != Remove then change.targetConfigID else "", Deploy;
    if change.RestoresPrevious(k) {
      var found := fleet.HasConfiguration(change.targets[k].previousConfigID);
      assert fleet.faults[|f0|..] == if fleet.faults == f0 then [] else [ConfigurationRead(change.PlannedID(k))];
      if !found {
        change.Mark(k, Failed, "", [ConfigurationMissing]);
        return Some(LookupAt(k)), false;
      }
      configID, action := change.targets[k].previousConfigID, Rollback;
    }
    if configID != "" {
      change.results := change.results[k := change.results[k].(configID := configID)];
      var answer := fleet.Deliver(Call(change.targets[k].uid, configID, action, previousConfigID, change.id));
      assert fleet.faults[|f0|..] == [];
      if answer.Refused? {
        change.Mark(k, Failed, configID, [DeliveryRefused]);
        return Some(DeliveryAt(k)), false;
      }
      changed := answer.Sent?;
    }
    cause := None;
  }

  /** The state after a failure at target k: the first k targets are changed, and the sent
      configurations are those the rollback of the reached prefix will undo. */
  ghost predicate Halted(change: Change, checkpoints: seq<Checkpoint>, cause: Cause, k: nat, groups: map<string, Group>,
                         pre: map<string, Agent>, agents: map<string, Agent>, assignments: map<string, string>,
                         sent: seq<Delivery>, results: seq<Evidence>) {
    && k < |change.targets| == |results|
    && cause in [LookupAt(k), DeliveryAt(k), WriteAt(k)]
    && NormalStore(pre) && Checked(change, checkpoints, pre, assignments)
    && agents == Moved(change, groups, k, pre)
    && (forall i :: 0 <= i < |checkpoints| ==> (checkpoints[i].membershipChanged <==> i < k))
    && Calls(sent) == ForwardCalls(change, assignments, Attempted(cause, |change.targets|))
    && UndoOf(sent) == UndoCalls(change, checkpoints[..Reach(cause, |change.targets|)])
    && ForwardAnswers(cause, sent)
    && (forall i :: 0 <= i < k ==> results[i] == Entry(change, i, Completed, change.PlannedID(i), []))
    && (forall i :: k < i < |results| ==> results[i] == Entry(change, i, NotStarted, "", []))
    && results[k] == (match cause
                      case LookupAt(_) => Entry(change, k, Failed, "", [ConfigurationMissing])
                      case DeliveryAt(_) => Entry(change, k, Failed, change.PlannedID(k), [DeliveryRefused])
                      case _ => Entry(change, k, Failed, change.PlannedID(k), [WriteFailed]))
  }

  ghost predicate Going(change: Change, checkpoints: seq<Checkpoint>, k: nat, groups: map<string, Group>,
                        pre: map<string, Agent>, agents: map<string, Agent>, assignments: map<string, string>,
                        sent: seq<Delivery>, results: seq<Evidence>) {
    && Changed(change, checkpoints, k, groups, pre, agents, assignments)
    && SentSoFar(change, checkpoints, assignments, k, sent)
    && Recorded(change, k, results)
  }

  ghost predicate Resolved(change: Change, groups: map<string, Group>, source: Option<Group>, target: Option<Group>) {
    && (if change.sourceGroupID == "" then source == None
        else change.sourceGroupID in groups && source == Some(groups[change.sourceGroupID]))
    && (if change.operation == Remove then target == None
        else change.targetGroupID in groups && target == Some(groups[change.targetGroupID]))
    && forall id :: id in groups ==> groups[id].id == id
  }

  method ChangeMembership(change: Change, original: Agent, fleet: Control, source: Option<Group>, target: Option<Group>)
    returns (ok: bool, agent: Agent)
    requires Resolved(change, fleet.groups, source, target)
    modifies fleet`agents, fleet`faults
    ensures agent == change.NewAgent(fleet.groups, original)
    ensures fleet.faults == if ok then old(fleet.faults) else old(fleet.faults) + [AgentWrite(agent.uid)]
    ensures fleet.agents == if ok then old(fleet.agents)[agent.uid := Merged(Stored(old(fleet.agents), agent.uid), agent)] else old(fleet.agents)
  {
    agent := original;
    if change.operation == Remove {
      agent := agent.(groupFields := map[]);
      if source.Some? && source.value.rule.Some? {
        agent := agent.(excludedGroups := AppendUnique(agent.excludedGroups, source.value.id));
      }
    } else {
      agent := agent.(groupFields := target.value.selector, excludedGroups := Without(agent.excludedGroups, target.value.id));
    }
    ok := fleet.Upsert(agent);
  }

  ghost predicate Retouched(before: Checkpoint, after: Checkpoint) {
    after.original == before.original && after.previousConfigID == before.previousConfigID
  }

  lemma {:induction false} ChangeOneMore(change: Change, checkpoints: seq<Checkpoint>, checkpoint: Checkpoint, k: nat, groups: map<string, Group>,
                                         pre: map<string, Agent>, agents: map<string, Agent>, next: map<string, Agent>, assignments: map<string, string>)
    requires k < |change.targets| && Changed(change, checkpoints, k, groups, pre, agents, assignments)
    requires Retouched(checkpoints[k], checkpoint) && checkpoint.membershipChanged
    requires next == Moved(change, groups, k + 1, pre)
    ensures Changed(change, checkpoints[k := checkpoint], k + 1, groups, pre, next, assignments)
  {
  }

  lemma {:induction false} WriteDone(change: Change, checkpoints: seq<Checkpoint>, checkpoint: Checkpoint, k: nat, groups: map<string, Group>,
                                     pre: map<string, Agent>, agents: map<string, Agent>, next: map<string, Agent>, assignments: map<string, string>,
                                     sent: seq<Delivery>, more: seq<Delivery>, before: seq<Evidence>, after: seq<Evidence>)
    requires k < |change.targets| && Going(change, checkpoints, k, groups, pre, agents, assignments, sent, before)
    requires Retouched(checkpoints[k], checkpoint) && Planned(change, k, checkpoint, more) && checkpoint.membershipChanged
    requires var uid := change.targets[k].uid;
      next == agents[uid := Merged(Stored(agents, uid), change.NewAgent(groups, pre[uid]))]
    requires after == before[k := Entry(change, k, Completed, change.PlannedID(k), [])]
    ensures Going(change, checkpoints[k := checkpoint], k + 1, groups, pre, next, assignments, sent + more, after)
  {
    hide Moved, Merged, NormalStore, Planned, Entry, NoneRefused, UndoOf, UndoCalls, ForwardCalls;
    assert SentSoFar(change, checkpoints[k := checkpoint], assignments, k + 1, sent + more) by {
      SendOneMore(change, checkpoints, checkpoints[k := checkpoint], assignments, k, sent, more);
    }
    assert next == Moved(change, groups, k + 1, pre) by {
      MoveOneMore(change, groups, k, pre, agents);
    }
    ChangeOneMore(change, checkpoints, checkpoint, k, groups, pre, agents, next, assignments);
    assert Recorded(change, k + 1, after);
  }

  lemma {:induction false} WriteRefused(change: Change, checkpoints: seq<Checkpoint>, checkpoint: Checkpoint, k: nat, groups: map<string, Group>,
                                        pre: map<string, Agent>, agents: map<string, Agent>, assignments: map<string, string>,
                                        sent: seq<Delivery>, more: seq<Delivery>, before: seq<Evidence>, after: seq<Evidence>)
    requires k < |change.targets| && Going(change, checkpoints, k, groups, pre, agents, assignments, sent, before)
    requires Retouched(checkpoints[k], checkpoint) && Planned(change, k, checkpoint, more) && !checkpoint.membershipChanged
    requires after == before[k := Entry(change, k, Failed, change.PlannedID(k), [WriteFailed])]
    ensures Halted(change, checkpoints[k := checkpoint], WriteAt(k), k, groups, pre, agents, assignments, sent + more, after)
  {
    hide Moved, NormalStore, Planned, Entry, UndoOf, UndoCalls, ForwardCalls;
    var updated := checkpoints[k := checkpoint];
    SendOneMore(change, checkpoints, updated, assignments, k, sent, more);
  }

  lemma {:induction false} HaltedSending(change: Change, checkpoints: seq<Checkpoint>, cause: Cause, k: nat, groups: map<string, Group>,
                                         pre: map<string, Agent>, agents: map<string, Agent>, assignments: map<string, string>,
                                         sent: seq<Delivery>, more: seq<Delivery>, before: seq<Evidence>, after: seq<Evidence>)
    requires k < |change.targets| && Going(change, checkpoints, k, groups, pre, agents, assignments, sent, before)
    requires SendingFailed(change, checkpoints[k].previousConfigID, cause, k, more, before, after)
    ensures Halted(change, checkpoints, cause, k, groups, pre, agents, assignments, sent + more, after)
  {
    hide Moved, NormalStore, Entry, Calls, UndoOf, UndoCalls, NoneRefused;
    if more == [] {
      assert sent + more == sent;
    } else {
      assert more == [more[0]];
      UndoOfSnoc(sent, more[0]);
      CallsAppend(sent, more);
      assert (sent + more)[..|sent|] == sent && (sent + more)[|sent|] == more[0];
    }
  }

  lemma AgentAtTurn(change: Change, checkpoints: seq<Checkpoint>, k: nat, groups: map<string, Group>,
                    pre: map<string, Agent>, agents: map<string, Agent>, assignments: map<string, string>)
    requires k < |change.targets| && Changed(change, checkpoints, k, groups, pre, agents, assignments)
    ensures |checkpoints| == |change.targets| && change.targets[k].uid in pre
    ensures checkpoints[k].agent == pre[change.targets[k].uid] && pre[change.targets[k].uid].uid == change.targets[k].uid
  {
  }

  /** The second half of a target's turn: the membership write and the evidence entry. */
  method Commit(change: Change, checkpoints: seq<Checkpoint>, k: nat, changed: bool, fleet: Control, source: Option<Group>, target: Option<Group>,
                ghost pre: map<string, Agent>, ghost sent: seq<Delivery>, ghost more: seq<Delivery>, ghost before: seq<Evidence>)
    returns (cause: Option<Cause>, updated: seq<Checkpoint>)
    requires k < |change.targets|
    requires Going(change, checkpoints, k, fleet.groups, pre, fleet.agents, fleet.assignments, sent, before)
    requires Planned(change, k, checkpoints[k].(configurationChanged := changed), more)
    requires change.results == before[k := Entry(change, k, NotStarted, change.PlannedID(k), [])]
    requires Resolved(change, fleet.groups, source, target)
    modifies change`results, fleet`agents, fleet`faults
    ensures |updated| == |checkpoints| && old(fleet.faults) <= fleet.faults
    ensures if cause.Some? then ForwardFaulted(change, cause.value, fleet.configurations, fleet.faults[|old(fleet.faults)|..])
            else fleet.faults == old(fleet.faults)
    ensures cause == None ==>
      Going(change, updated, k + 1, fleet.groups, pre, fleet.agents, fleet.assignments, sent + more, change.results)
    ensures cause.Some? ==>
      Halted(change, updated, cause.value, k, fleet.groups, pre, fleet.agents, fleet.assignments, sent + more, change.results)
  {
    hide *;
    CountAtTurn(change, checkpoints, k, fleet.groups, pre, fleet.agents, fleet.assignments, sent, before);
    ghost var f0, a0 := fleet.faults, fleet.agents;
    var ok, agent := ChangeMembership(change, checkpoints[k].agent, fleet, source, target);
    NewAgentKeepsNames(change, fleet.groups, checkpoints[k].agent);
    var checkpoint := checkpoints[k].(agent := agent, configurationChanged := changed, membershipChanged := ok);
    updated := checkpoints[k := checkpoint];
    TurnDone(change, checkpoints[k], checkpoint, k, changed, more);
    EntryMarked(change, k, before, if ok then Completed else Failed, if ok then [] else [WriteFailed]);
    change.Mark(k, if ok then Completed else Failed, change.results[k].configID, if ok then [] else [WriteFailed]);
    if !ok {
      assert fleet.faults[|f0|..] == [AgentWrite(change.targets[k].uid)];
      WriteFaulted(change, k, fleet.configurations);
      WriteRefused(change, checkpoints, checkpoint, k, fleet.groups, pre, fleet.agents, fleet.assignments, sent, more, before, change.results);
      return Some(WriteAt(k)), updated;
    }
    WriteDone(change, checkpoints, checkpoint, k, fleet.groups, pre, a0, fleet.agents, fleet.assignments, sent, more, before, change.results);
    cause := None;
  }

  lemma CountAtTurn(change: Change, checkpoints: seq<Checkpoint>, k: nat, groups: map<string, Group>, pre: map<string, Agent>,
                    agents: map<string, Agent>, assignments: map<string, string>, sent: seq<Delivery>, results: seq<Evidence>)
    requires k < |change.targets| && Going(change, checkpoints, k, groups, pre, agents, assignments, sent, results)
    ensures |checkpoints| == |change.targets| == |results| && change.targets[k].uid in pre
    ensures checkpoints[k].agent == pre[change.targets[k].uid] && pre[change.targets[k].uid].uid == change.targets[k].uid
  {
    AgentAtTurn(change, checkpoints, k, groups, pre, agents, assignments);
    hide Changed, SentSoFar, Entry;
  }

  lemma TurnDone(change: Change, before: Checkpoint, after: Checkpoint, k: nat, changed: bool, more: seq<Delivery>)
    requires k < |change.targets| && Planned(change, k, before.(configurationChanged := changed), more)
    requires after == before.(agent := after.agent, configurationChanged := changed, membershipChanged := after.membershipChanged)
    ensures Retouched(before, after) && Planned(change, k, after, more)
  {
  }

  lemma EntryMarked(change: Change, k: nat, before: seq<Evidence>, status: Status, problems: seq<Problem>)
    requires k < |change.targets| && k < |before|
    ensures Entry(change, k, NotStarted, change.PlannedID(k), []).configID == change.PlannedID(k)
    ensures Marked(before[k := Entry(change, k, NotStarted, change.PlannedID(k), [])], k, status, change.PlannedID(k), problems)
         == before[k := Entry(change, k, status, change.PlannedID(k), problems)]
  {
  }

  lemma WriteFaulted(change: Change, k: nat, configurations: set<string>)
    requires k < |change.targets|
    ensures ForwardFaulted(change, WriteAt(k), configurations, [AgentWrite(change.targets[k].uid)])
  {
  }

  method Advance(change: Change, checkpoints: seq<Checkpoint>, k: nat, fleet: Control, source: Option<Group>, target: Option<Group>,
                 ghost pre: map<string, Agent>, ghost deliveries0: seq<Delivery>)
    returns (cause: Option<Cause>, updated: seq<Checkpoint>)
    requires k < |change.targets| == |checkpoints|
    requires |deliveries0| <= |fleet.deliveries| && fleet.deliveries[..|deliveries0|] == deliveries0
    requires Going(change, checkpoints, k, fleet.groups, pre, fleet.agents, fleet.assignments, fleet.deliveries[|deliveries0|..], change.results)
    requires Resolved(change, fleet.groups, source, target)
    modifies change`results, fleet`deliveries, fleet`agents, fleet`faults
    ensures |updated| == |checkpoints| && old(fleet.faults) <= fleet.faults
    ensures if cause.Some? then ForwardFaulted(change, cause.value, fleet.configurations, fleet.faults[|old(fleet.faults)|..])
            else fleet.faults == old(fleet.faults) && (change.RestoresPrevious(k) ==> change.PlannedID(k) in fleet.configurations)
    ensures |deliveries0| <= |fleet.deliveries| && fleet.deliveries[..|deliveries0|] == deliveries0
    ensures cause == None ==>
      Going(change, updated, k + 1, fleet.groups, pre, fleet.agents, fleet.assignments, fleet.deliveries[|deliveries0|..], change.results)
    ensures cause.Some? ==>
      Halted(change, updated, cause.value, k, fleet.groups, pre, fleet.agents, fleet.assignments, fleet.deliveries[|deliveries0|..], change.results)
  {
    hide Halted, Changed, SentSoFar;
    updated := checkpoints;
    ghost var d1, r1 := fleet.deliveries, change.results;
    ghost var sent := d1[|deliveries0|..];
    var changed;
    cause, changed := SendPlanned(change, k, checkpoints[k].previousConfigID, fleet);
    ghost var more := fleet.deliveries[|d1|..];
    assert fleet.deliveries[|deliveries0|..] == sent + more;
    if cause.Some? {
      HaltedSending(change, checkpoints, cause.value, k, fleet.groups, pre, fleet.agents, fleet.assignments, sent, more, r1, change.results);
      return;
    }
    cause, updated := Commit(change, checkpoints, k, changed, fleet, source, target, pre, sent, more, r1);
  }

  // ---------- Giving up: the changed prefix is undone ----------

  /** How many leading targets had their membership changed before the failure. */
  function Moves(cause: Cause, n: nat): nat {
    match cause
    case LookupAt(i) => i
    case DeliveryAt(i) => i
    case WriteAt(i) => i
    case SnapshotFailed => n
  }

  ghost predicate Within(cause: Cause, n: nat) {
    match cause
    case LookupAt(i) => i < n
    case DeliveryAt(i) => i < n
    case WriteAt(i) => i < n
    case SnapshotFailed => true
  }

  /** The evidence of the targets the rollback does not visit. */
  ghost predicate Beyond(change: Change, cause: Cause, results: seq<Evidence>) {
    && |results| == |change.targets| && Within(cause, |results|)
    && (cause.LookupAt? ==> results[cause.index] == Entry(change, cause.index, Failed, "", [ConfigurationMissing]))
    && (cause.DeliveryAt? ==> results[cause.index] == Entry(change, cause.index, Failed, change.PlannedID(cause.index), [DeliveryRefused]))
    && forall i :: (if cause.SnapshotFailed? then |results| else cause.index + 1) <= i < |results| ==>
         results[i] == Entry(change, i, NotStarted, "", [])
  }

  ghost predicate Undoing(change: Change, checkpoints: seq<Checkpoint>, cause: Cause, groups: map<string, Group>,
                          pre: map<string, Agent>, agents: map<string, Agent>, assignments: map<string, string>,
                          sent: seq<Delivery>, results: seq<Evidence>) {
    var n := |change.targets|;
    && NormalStore(pre) && Checked(change, checkpoints, pre, assignments)
    && Within(cause, n) && Beyond(change, cause, results)
    && (forall i :: 0 <= i < n ==> results[i].uid == change.targets[i].uid && results[i].name == change.targets[i].name)
    && agents == Moved(change, groups, Moves(cause, n), pre)
    && ChangedUids(checkpoints[..Reach(cause, n)]) == TargetUids(change, Moves(cause, n))
    && Calls(sent) == ForwardCalls(change, assignments, Attempted(cause, n))
    && UndoOf(sent) == UndoCalls(change, checkpoints[..Reach(cause, n)])
    && ForwardAnswers(cause, sent)
  }

  lemma {:induction false} HaltedUndoing(change: Change, checkpoints: seq<Checkpoint>, cause: Cause, k: nat, groups: map<string, Group>,
                                         pre: map<string, Agent>, agents: map<string, Agent>, assignments: map<string, string>,
                                         sent: seq<Delivery>, results: seq<Evidence>)
    requires Halted(change, checkpoints, cause, k, groups, pre, agents, assignments, sent, results)
    ensures Undoing(change, checkpoints, cause, groups, pre, agents, assignments, sent, results)
  {
    hide NormalStore, Moved, Calls, UndoOf, UndoCalls, ForwardCalls;
    ChangedUidsOfPrefix(change, checkpoints, k, Reach(cause, |change.targets|));
  }

  lemma {:induction false} FinishedUndoing(change: Change, checkpoints: seq<Checkpoint>, groups: map<string, Group>,
                                           pre: map<string, Agent>, agents: map<string, Agent>, assignments: map<string, string>,
                                           sent: seq<Delivery>, results: seq<Evidence>)
    requires Going(change, checkpoints, |change.targets|, groups, pre, agents, assignments, sent, results)
    ensures Undoing(change, checkpoints, SnapshotFailed, groups, pre, agents, assignments, sent, results)
  {
    hide NormalStore, Moved, Calls, UndoOf, UndoCalls, ForwardCalls;
    assert checkpoints[..|change.targets|] == checkpoints;
    ChangedUidsOfPrefix(change, checkpoints, |change.targets|, |change.targets|);
  }

  /** Nothing stood in the way of the rollback: no store access failed, no call was refused, and
      every configuration that had been replaced is on record and still exists. */
  ghost predicate Cleared(configurations: set<string>, sent: seq<Delivery>, undo: seq<Delivery>, faults: seq<Fault>) {
    && faults == [] && NoneRefused(undo)
    && forall call :: call in UndoOf(sent) ==> call.configID != "" && call.configID in configurations
  }

  /** What is left after a failed run. Each record is the original one or the intended one of a
      target that was reached; the log is the forward calls followed by calls of the rollback, each
      of them the undo of a forward call; and everything is restored exactly when nothing stood in
      the way of the rollback. */
  ghost predicate Settled(change: Change, cause: Cause, restored: bool, groups: map<string, Group>, pre: map<string, Agent>, assignments: map<string, string>,
                          agents: map<string, Agent>, snapshot: map<string, Agent>, log: seq<Delivery>,
                          configurations: set<string>, faults: seq<Fault>) {
    && Within(cause, |change.targets|)
    && agents.Keys == pre.Keys
    && (forall uid :: uid in agents ==>
         agents[uid] == pre[uid] || (uid in TargetUids(change, Moves(cause, |change.targets|)) && agents[uid] == change.NewAgent(groups, pre[uid])))
    && var forward := ForwardCalls(change, assignments, Attempted(cause, |change.targets|));
    && |forward| <= |log| && Calls(log[..|forward|]) == forward
    && ForwardAnswers(cause, log[..|forward|])
    && (forall d :: d in log[|forward|..] ==> d.call in UndoOf(log[..|forward|]))
    && (restored <==> Cleared(configurations, log[..|forward|], log[|forward|..], faults))
    && (restored ==>
        && agents == pre && snapshot == pre
        && Calls(log[|forward|..]) == UndoOf(log[..|forward|]))
  }

  /** With distinct targets, each entry says what happened to its target: the visited ones are
      restored or not, and restored means that the stored record is the original one and every
      configuration sent to the target was followed by its previous one, sent again and accepted. */
  ghost predicate Evidenced(change: Change, cause: Cause, restored: bool, pre: map<string, Agent>, assignments: map<string, string>,
                            agents: map<string, Agent>, log: seq<Delivery>, results: seq<Evidence>,
                            configurations: set<string>, faults: seq<Fault>) {
    var n := |change.targets|;
    && Within(cause, n) && Beyond(change, cause, results)
    && var forward := |ForwardCalls(change, assignments, Attempted(cause, n))|;
    && forward <= |log|
    && forall i :: 0 <= i < Reach(cause, n) ==>
         && EntryHolds(change.targets[i], results[i], restored, pre, agents, log[..forward], log[forward..])
         && EntryBlames(results[i], configurations, log[..forward], log[forward..], faults)
  }

  ghost predicate SomeRollbackFailed(change: Change, cause: Cause, results: seq<Evidence>) {
    exists i :: 0 <= i < Reach(cause, |change.targets|) && i < |results| && results[i].status == RollbackFailed
  }

  ghost predicate EntryHolds(target: Target, entry: Evidence, restored: bool, pre: map<string, Agent>, agents: map<string, Agent>,
                             sent: seq<Delivery>, undo: seq<Delivery>) {
    && entry.uid == target.uid && entry.name == target.name
    && entry.status in [Restored, RollbackFailed]
    && (restored ==> entry.status == Restored)
    && (entry.status == RollbackFailed <==> entry.problems != [])
    && (entry.status == Restored ==>
        && entry.uid in pre && entry.uid in agents && agents[entry.uid] == pre[entry.uid]
        && forall d :: d in sent && d.answer.Sent? && d.call.uid == entry.uid ==> Accepted(undo, Undo(d.call)))
  }

  /** A configuration was really sent to the Collector in place of the given one. */
  ghost predicate Replaces(sent: seq<Delivery>, uid: string, previousConfigID: string) {
    exists d :: d in sent && d.answer.Sent? && d.call.uid == uid && d.call.previousConfigID == previousConfigID
  }

  /** The problems of an entry are those the rollback met: a failed write of the record, a refused
      call, a replaced configuration that is not on record, or one that could not be read. */
  ghost predicate EntryBlames(entry: Evidence, configurations: set<string>, sent: seq<Delivery>, undo: seq<Delivery>, faults: seq<Fault>) {
    && (WriteFailed in entry.problems <==> AgentWrite(entry.uid) in faults)
    && (DeliveryRefused in entry.problems <==> RefusedFor(undo, entry.uid))
    && (NoPreviousConfiguration in entry.problems <==> Replaces(sent, entry.uid, ""))
    && (ConfigurationMissing in entry.problems ==> exists id ::
         id != "" && Replaces(sent, entry.uid, id) && (id !in configurations || ConfigurationRead(id) in faults))
    && (forall id :: id != "" && id !in configurations && Replaces(sent, entry.uid, id) ==> ConfigurationMissing in entry.problems)
    && (forall p :: p in entry.problems ==> p in [WriteFailed, NoPreviousConfiguration, ConfigurationMissing, DeliveryRefused])
  }

  lemma {:induction false} SentIsUndone(sent: seq<Delivery>, d: Delivery)
    requires d in sent && d.answer.Sent?
    ensures Undo(d.call) in UndoOf(sent)
  {
    if sent[0] != d {
      SentIsUndone(sent[1..], d);
    }
  }

  lemma {:induction false} UndoneHasCheckpoint(change: Change, checkpoints: seq<Checkpoint>, call: Call) returns (i: nat)
    requires call in UndoCalls(change, checkpoints)
    ensures i < |checkpoints| && checkpoints[i].configurationChanged && change.UndoCall(checkpoints[i]) == call
  {
    if call in UndoCalls(change, checkpoints[1..]) {
      i := UndoneHasCheckpoint(change, checkpoints[1..], call);
      i := i + 1;
    } else {
      i := 0;
    }
  }

  lemma MovedLeavesOthers(change: Change, groups: map<string, Group>, k: nat, pre: map<string, Agent>, uid: string)
    requires k <= |change.targets| && uid in pre && uid !in TargetUids(change, k)
    ensures Moved(change, groups, k, pre)[uid] == pre[uid]
  {
  }

  lemma {:induction false} UndoingUndoable(change: Change, checkpoints: seq<Checkpoint>, cause: Cause, groups: map<string, Group>,
                                           pre: map<string, Agent>, agents: map<string, Agent>, assignments: map<string, string>,
                                           sent: seq<Delivery>, results: seq<Evidence>)
    requires Undoing(change, checkpoints, cause, groups, pre, agents, assignments, sent, results)
    ensures Reach(cause, |change.targets|) <= |checkpoints|
    ensures Undoable(checkpoints[..Reach(cause, |change.targets|)], results, agents, pre)
  {
    hide Calls, UndoOf, UndoCalls, ForwardCalls, ChangedUids;
    forall i | 0 <= i < |checkpoints| ensures Restorable(agents, checkpoints[i].original) {
      NewAgentKeepsNames(change, groups, checkpoints[i].original);
      assert Normal(change.targets[i].uid, pre[change.targets[i].uid]);
    }
  }

  /** Everything the rollback restored is what it was before the batch. */
  lemma {:induction false} RestoredIsPrior(change: Change, groups: map<string, Group>, k: nat, pre: map<string, Agent>,
                                           halted: map<string, Agent>, agents: map<string, Agent>, changed: set<string>)
    requires k <= |change.targets| && changed == TargetUids(change, k)
    requires halted == Moved(change, groups, k, pre) && agents.Keys == halted.Keys
    requires forall uid :: uid in agents ==> agents[uid] == if uid in changed then pre[uid] else halted[uid]
    ensures agents == pre
  {
    forall uid | uid in agents && uid !in changed ensures agents[uid] == pre[uid] {
      MovedLeavesOthers(change, groups, k, pre, uid);
    }
  }

  lemma {:induction false} UnchangedIsOutside(change: Change, checkpoints: seq<Checkpoint>, reach: nat, i: nat)
    requires DistinctTargets(change.targets) && i < reach <= |checkpoints| == |change.targets|
    requires forall j :: 0 <= j < |checkpoints| ==> checkpoints[j].original.uid == change.targets[j].uid
    requires !checkpoints[i].membershipChanged
    ensures change.targets[i].uid !in ChangedUids(checkpoints[..reach])
  {
    forall j | 0 <= j < reach && checkpoints[..reach][j].membershipChanged
      ensures checkpoints[..reach][j].original.uid != change.targets[i].uid
    {
      assert checkpoints[..reach][j] == checkpoints[j] && j != i;
    }
  }

  lemma {:induction false} SentIsFollowedByUndo(change: Change, checkpoints: seq<Checkpoint>, reach: nat, i: nat, sent: seq<Delivery>, undo: seq<Delivery>)
    requires DistinctTargets(change.targets) && i < reach <= |checkpoints| == |change.targets|
    requires forall j :: 0 <= j < |checkpoints| ==> checkpoints[j].original.uid == change.targets[j].uid
    requires UndoOf(sent) == UndoCalls(change, checkpoints[..reach])
    requires checkpoints[i].configurationChanged ==> Accepted(undo, change.UndoCall(checkpoints[i]))
    ensures forall d :: d in sent && d.answer.Sent? && d.call.uid == change.targets[i].uid ==> Accepted(undo, Undo(d.call))
  {
    forall d | d in sent && d.answer.Sent? && d.call.uid == change.targets[i].uid ensures Accepted(undo, Undo(d.call)) {
      SentIsUndone(sent, d);
      var j := UndoneHasCheckpoint(change, checkpoints[..reach], Undo(d.call));
      assert checkpoints[..reach][j] == checkpoints[j];
      assert j == i;
    }
  }

  lemma {:induction false} RestoredEntryIsTrue(change: Change, checkpoints: seq<Checkpoint>, cause: Cause, groups: map<string, Group>,
                                               pre: map<string, Agent>, halted: map<string, Agent>, agents: map<string, Agent>, assignments: map<string, string>,
                                               sent: seq<Delivery>, before: seq<Evidence>, undo: seq<Delivery>, entry: Evidence, i: nat)
    requires DistinctTargets(change.targets)
    requires Undoing(change, checkpoints, cause, groups, pre, halted, assignments, sent, before)
    requires i < Reach(cause, |change.targets|) && TellsTruth(change, checkpoints[i], entry, agents, undo) && entry.status == Restored
    requires agents.Keys == halted.Keys
    requires var uid := change.targets[i].uid;
      uid in agents ==> agents[uid] == halted[uid] || (uid in ChangedUids(checkpoints[..Reach(cause, |change.targets|)]) && agents[uid] == pre[uid])
    ensures entry.uid in pre && entry.uid in agents && agents[entry.uid] == pre[entry.uid]
    ensures forall d :: d in sent && d.answer.Sent? && d.call.uid == entry.uid ==> Accepted(undo, Undo(d.call))
  {
    hide NormalStore, Beyond, Calls, Accepted, ForwardCalls, UndoOf, UndoCalls, ChangedUids, TargetUids, DistinctTargets;
    var reach := Reach(cause, |change.targets|);
    SentIsFollowedByUndo(change, checkpoints, reach, i, sent, undo);
    if !checkpoints[i].membershipChanged {
      UnchangedIsOutside(change, checkpoints, reach, i);
      MovedLeavesOthers(change, groups, Moves(cause, |change.targets|), pre, change.targets[i].uid);
    }
  }

  lemma LogSplits(change: Change, assignments: map<string, string>, cause: Cause, sent: seq<Delivery>, undo: seq<Delivery>)
    requires Within(cause, |change.targets|)
    requires Calls(sent) == ForwardCalls(change, assignments, Attempted(cause, |change.targets|))
    ensures var forward := |ForwardCalls(change, assignments, Attempted(cause, |change.targets|))|;
      forward <= |sent + undo| && (sent + undo)[..forward] == sent && (sent + undo)[forward..] == undo
  {
    assert |Calls(sent)| == |sent|;
  }

  lemma {:induction false} RunSettled(change: Change, checkpoints: seq<Checkpoint>, cause: Cause, restored: bool, groups: map<string, Group>,
                                      pre: map<string, Agent>, halted: map<string, Agent>, agents: map<string, Agent>, snapshot: map<string, Agent>,
                                      assignments: map<string, string>, sent: seq<Delivery>, undo: seq<Delivery>, before: seq<Evidence>, after: seq<Evidence>,
      configurations: set<string>, faults: seq<Fault>)
    requires Undoing(change, checkpoints, cause, groups, pre, halted, assignments, sent, before)
    requires RolledBack(change, checkpoints[..Reach(cause, |change.targets|)], restored, pre, halted, agents, undo, before, after, configurations, faults)
    requires restored ==> snapshot == agents
    ensures Settled(change, cause, restored, groups, pre, assignments, agents, snapshot, sent + undo, configurations, faults)
  {
    hide *;
    UndoingRecords(change, checkpoints, cause, groups, pre, halted, assignments, sent, before);
    UndoingFacts(change, checkpoints, cause, groups, pre, halted, assignments, sent, before);
    var reached := checkpoints[..Reach(cause, |change.targets|)];
    RolledBackFacts(change, reached, restored, pre, halted, agents, undo, before, after, configurations, faults);
    MovesWithin(cause, |change.targets|);
    MixedRecords(change, groups, Moves(cause, |change.targets|), pre, halted, agents, ChangedUids(reached));
    RecoverableIff(change, reached, configurations);
    ClearedIff(configurations, sent, undo, faults);
    if restored {
      RestoredIsPrior(change, groups, Moves(cause, |change.targets|), pre, halted, agents, ChangedUids(reached));
    }
    SettledHolds(change, cause, restored, groups, pre, assignments, agents, snapshot, sent, undo, configurations, faults);
  }

  lemma MovesWithin(cause: Cause, n: nat)
    requires Within(cause, n)
    ensures Moves(cause, n) <= n && Attempted(cause, n) <= n && Reach(cause, n) <= n
  {
  }

  lemma ClearedIff(configurations: set<string>, sent: seq<Delivery>, undo: seq<Delivery>, faults: seq<Fault>)
    ensures Cleared(configurations, sent, undo, faults) <==>
      && faults == [] && NoneRefused(undo)
      && forall call :: call in UndoOf(sent) ==> call.configID != "" && call.configID in configurations
  {
    hide UndoOf, NoneRefused;
  }

  lemma SettledHolds(change: Change, cause: Cause, restored: bool, groups: map<string, Group>, pre: map<string, Agent>, assignments: map<string, string>,
                     agents: map<string, Agent>, snapshot: map<string, Agent>, sent: seq<Delivery>, undo: seq<Delivery>,
                     configurations: set<string>, faults: seq<Fault>)
    requires Within(cause, |change.targets|) && agents.Keys == pre.Keys
    requires forall uid :: uid in agents ==>
      agents[uid] == pre[uid] || (uid in TargetUids(change, Moves(cause, |change.targets|)) && agents[uid] == change.NewAgent(groups, pre[uid]))
    requires Calls(sent) == ForwardCalls(change, assignments, Attempted(cause, |change.targets|))
    requires ForwardAnswers(cause, sent) && forall d :: d in undo ==> d.call in UndoOf(sent)
    requires restored <==> Cleared(configurations, sent, undo, faults)
    requires restored ==> agents == pre && snapshot == pre && Calls(undo) == UndoOf(sent)
    ensures Settled(change, cause, restored, groups, pre, assignments, agents, snapshot, sent + undo, configurations, faults)
  {
    LogSplits(change, assignments, cause, sent, undo);
    hide Cleared, ForwardAnswers, UndoOf, Calls, ForwardCalls, TargetUids;
  }

  lemma UndoingRecords(change: Change, checkpoints: seq<Checkpoint>, cause: Cause, groups: map<string, Group>,
                       pre: map<string, Agent>, agents: map<string, Agent>, assignments: map<string, string>,
                       sent: seq<Delivery>, results: seq<Evidence>)
    requires Undoing(change, checkpoints, cause, groups, pre, agents, assignments, sent, results)
    ensures Within(cause, |change.targets|) && |checkpoints| == |change.targets| && ForwardAnswers(cause, sent)
    ensures agents == Moved(change, groups, Moves(cause, |change.targets|), pre)
    ensures ChangedUids(checkpoints[..Reach(cause, |change.targets|)]) == TargetUids(change, Moves(cause, |change.targets|))
    ensures Calls(sent) == ForwardCalls(change, assignments, Attempted(cause, |change.targets|))
  {
  }

  lemma RolledBackFacts(change: Change, reached: seq<Checkpoint>, restored: bool, pre: map<string, Agent>, halted: map<string, Agent>,
                        agents: map<string, Agent>, undo: seq<Delivery>, before: seq<Evidence>, after: seq<Evidence>,
                        configurations: set<string>, faults: seq<Fault>)
    requires RolledBack(change, reached, restored, pre, halted, agents, undo, before, after, configurations, faults)
    ensures agents.Keys == halted.Keys
    ensures forall uid :: uid in agents ==> agents[uid] == halted[uid] || (uid in ChangedUids(reached) && uid in pre && agents[uid] == pre[uid])
    ensures restored ==> forall uid :: uid in ChangedUids(reached) ==> uid in agents && uid in pre && agents[uid] == pre[uid]
    ensures restored ==> Calls(undo) == UndoCalls(change, reached)
    ensures forall d :: d in undo ==> d.call in UndoCalls(change, reached)
    ensures restored <==> faults == [] && NoneRefused(undo) && forall i :: 0 <= i < |reached| ==> Recoverable(reached[i], configurations)
  {
    hide Calls, UndoCalls, ChangedUids, NoneRefused, Truthful, AllBlamed, Recoverable;
  }

  /** The replaced configurations of the reached targets are those the undo calls name. */
  lemma RecoverableIff(change: Change, reached: seq<Checkpoint>, configurations: set<string>)
    ensures (forall i :: 0 <= i < |reached| ==> Recoverable(reached[i], configurations)) <==>
      forall call :: call in UndoCalls(change, reached) ==> call.configID != "" && call.configID in configurations
  {
    hide UndoCalls;
    forall i | 0 <= i < |reached| && reached[i].configurationChanged ensures change.UndoCall(reached[i]) in UndoCalls(change, reached) {
      ReachedIsUndone(change, reached, i);
    }
    forall call | call in UndoCalls(change, reached)
      ensures exists i :: 0 <= i < |reached| && reached[i].configurationChanged && change.UndoCall(reached[i]) == call
    {
      var i := UndoneHasCheckpoint(change, reached, call);
    }
  }

  lemma {:induction false} MixedRecords(change: Change, groups: map<string, Group>, k: nat, pre: map<string, Agent>,
                                        halted: map<string, Agent>, agents: map<string, Agent>, changed: set<string>)
    requires k <= |change.targets| && changed == TargetUids(change, k)
    requires halted == Moved(change, groups, k, pre) && agents.Keys == halted.Keys
    requires forall uid :: uid in agents ==> agents[uid] == halted[uid] || (uid in changed && uid in pre && agents[uid] == pre[uid])
    ensures agents.Keys == pre.Keys
    ensures forall uid :: uid in agents ==>
      agents[uid] == pre[uid] || (uid in TargetUids(change, k) && agents[uid] == change.NewAgent(groups, pre[uid]))
  {
  }

  lemma {:induction false} EvidenceSettled(change: Change, checkpoints: seq<Checkpoint>, cause: Cause, restored: bool, groups: map<string, Group>,
                                           pre: map<string, Agent>, halted: map<string, Agent>, agents: map<string, Agent>, assignments: map<string, string>,
                                           sent: seq<Delivery>, undo: seq<Delivery>, before: seq<Evidence>, after: seq<Evidence>,
      configurations: set<string>, faults: seq<Fault>)
    requires DistinctTargets(change.targets)
    requires Undoing(change, checkpoints, cause, groups, pre, halted, assignments, sent, before)
    requires RolledBack(change, checkpoints[..Reach(cause, |change.targets|)], restored, pre, halted, agents, undo, before, after, configurations, faults)
    ensures Evidenced(change, cause, restored, pre, assignments, agents, sent + undo, after, configurations, faults)
  {
    hide NormalStore, Calls, UndoOf, UndoCalls, ForwardCalls, ChangedUids, NoneRefused, Moved, Accepted, RolledBack, EntryHolds, EntryBlames, ForwardAnswers;
    LogSplits(change, assignments, cause, sent, undo);
    SubjectsKept(change, checkpoints, cause, restored, groups, pre, halted, agents, assignments, sent, undo, before, after, configurations, faults);
    forall i | 0 <= i < Reach(cause, |change.targets|)
      ensures EntryHolds(change.targets[i], after[i], restored, pre, agents, sent, undo)
      ensures EntryBlames(after[i], configurations, sent, undo, faults)
    {
      EntryBlamed(change, checkpoints, cause, restored, groups, pre, halted, agents, assignments, sent, undo, before, after, i, configurations, faults);
      EntrySettled(change, checkpoints, cause, restored, groups, pre, halted, agents, assignments, sent, undo, before, after, i, configurations, faults);
    }
  }

  lemma {:induction false} SubjectsKept(change: Change, checkpoints: seq<Checkpoint>, cause: Cause, restored: bool, groups: map<string, Group>,
                                        pre: map<string, Agent>, halted: map<string, Agent>, agents: map<string, Agent>, assignments: map<string, string>,
                                        sent: seq<Delivery>, undo: seq<Delivery>, before: seq<Evidence>, after: seq<Evidence>,
      configurations: set<string>, faults: seq<Fault>)
    requires Undoing(change, checkpoints, cause, groups, pre, halted, assignments, sent, before)
    requires RolledBack(change, checkpoints[..Reach(cause, |change.targets|)], restored, pre, halted, agents, undo, before, after, configurations, faults)
    ensures |after| == |change.targets| && Beyond(change, cause, after)
    ensures forall i :: 0 <= i < |after| ==> after[i].uid == change.targets[i].uid && after[i].name == change.targets[i].name
    ensures DistinctTargets(change.targets) ==> Distinct(after)
  {
    hide NormalStore, Calls, UndoOf, UndoCalls, ForwardCalls, ChangedUids, NoneRefused, Moved, Accepted, Reverted, Truthful, Entry, AllBlamed, AllClear;
  }

  lemma {:induction false} EntrySettled(change: Change, checkpoints: seq<Checkpoint>, cause: Cause, restored: bool, groups: map<string, Group>,
                                        pre: map<string, Agent>, halted: map<string, Agent>, agents: map<string, Agent>, assignments: map<string, string>,
                                        sent: seq<Delivery>, undo: seq<Delivery>, before: seq<Evidence>, after: seq<Evidence>, i: nat,
      configurations: set<string>, faults: seq<Fault>)
    requires DistinctTargets(change.targets)
    requires Undoing(change, checkpoints, cause, groups, pre, halted, assignments, sent, before)
    requires RolledBack(change, checkpoints[..Reach(cause, |change.targets|)], restored, pre, halted, agents, undo, before, after, configurations, faults)
    requires i < Reach(cause, |change.targets|)
    ensures |after| == |change.targets| && EntryHolds(change.targets[i], after[i], restored, pre, agents, sent, undo)
  {
    hide NormalStore, Calls, UndoOf, UndoCalls, ForwardCalls, ChangedUids, NoneRefused, Moved, Accepted, Beyond, Entry, Undoing, RolledBack,
         DistinctTargets, Distinct;
    SubjectsKept(change, checkpoints, cause, restored, groups, pre, halted, agents, assignments, sent, undo, before, after, configurations, faults);
    UndoingUndoable(change, checkpoints, cause, groups, pre, halted, assignments, sent, before);
    var reached := checkpoints[..Reach(cause, |change.targets|)];
    EntryTold(change, reached, restored, pre, halted, agents, undo, before, after, i, configurations, faults);
    if after[i].status == Restored {
      RestoredEntryIsTrue(change, checkpoints, cause, groups, pre, halted, agents, assignments, sent, before, undo, after[i], i);
    }
  }

  lemma {:induction false} UndoneWasSent(sent: seq<Delivery>, call: Call) returns (d: Delivery)
    requires call in UndoOf(sent)
    ensures d in sent && d.answer.Sent? && Undo(d.call) == call
  {
    if call in UndoOf(sent[1..]) { d := UndoneWasSent(sent[1..], call); } else { d := sent[0]; }
  }

  lemma {:induction false} ReachedIsUndone(change: Change, reached: seq<Checkpoint>, i: nat)
    requires i < |reached| && reached[i].configurationChanged
    ensures change.UndoCall(reached[i]) in UndoCalls(change, reached)
  {
    if i > 0 { ReachedIsUndone(change, reached[1..], i - 1); }
  }

  /** What was really sent to a reached target is what its checkpoint recorded. */
  lemma ReplacesIff(change: Change, checkpoints: seq<Checkpoint>, reach: nat, i: nat, sent: seq<Delivery>, id: string)
    requires DistinctTargets(change.targets) && i < reach <= |checkpoints| == |change.targets|
    requires forall j :: 0 <= j < |checkpoints| ==> checkpoints[j].original.uid == change.targets[j].uid
    requires UndoOf(sent) == UndoCalls(change, checkpoints[..reach])
    ensures Replaces(sent, change.targets[i].uid, id) <==> checkpoints[i].configurationChanged && checkpoints[i].previousConfigID == id
  {
    if Replaces(sent, change.targets[i].uid, id) {
      var d :| d in sent && d.answer.Sent? && d.call.uid == change.targets[i].uid && d.call.previousConfigID == id;
      SentIsUndone(sent, d);
      var j := UndoneHasCheckpoint(change, checkpoints[..reach], Undo(d.call));
      assert checkpoints[..reach][j] == checkpoints[j] && j == i;
    }
    if checkpoints[i].configurationChanged && checkpoints[i].previousConfigID == id {
      assert checkpoints[..reach][i] == checkpoints[i];
      ReachedIsUndone(change, checkpoints[..reach], i);
      var d := UndoneWasSent(sent, change.UndoCall(checkpoints[i]));
    }
  }

  lemma {:induction false} EntryBlamed(change: Change, checkpoints: seq<Checkpoint>, cause: Cause, restored: bool, groups: map<string, Group>,
                                       pre: map<string, Agent>, halted: map<string, Agent>, agents: map<string, Agent>, assignments: map<string, string>,
                                       sent: seq<Delivery>, undo: seq<Delivery>, before: seq<Evidence>, after: seq<Evidence>, i: nat,
                                       configurations: set<string>, faults: seq<Fault>)
    requires DistinctTargets(change.targets)
    requires Undoing(change, checkpoints, cause, groups, pre, halted, assignments, sent, before)
    requires RolledBack(change, checkpoints[..Reach(cause, |change.targets|)], restored, pre, halted, agents, undo, before, after, configurations, faults)
    requires i < Reach(cause, |change.targets|)
    ensures |after| == |change.targets| && EntryBlames(after[i], configurations, sent, undo, faults)
  {
    hide NormalStore, Calls, UndoOf, UndoCalls, ForwardCalls, ChangedUids, NoneRefused, Moved, Accepted, Beyond, Entry, RolledBack, Undoing,
         DistinctTargets, Distinct, Replaces;
    SubjectsKept(change, checkpoints, cause, restored, groups, pre, halted, agents, assignments, sent, undo, before, after, configurations, faults);
    var reach := Reach(cause, |change.targets|);
    UndoingFacts(change, checkpoints, cause, groups, pre, halted, assignments, sent, before);
    BlamedAt(change, checkpoints[..reach], restored, pre, halted, agents, undo, before, after, i, configurations, faults);
    assert checkpoints[..reach][i] == checkpoints[i];
    forall id ensures Replaces(sent, after[i].uid, id) <==> checkpoints[i].configurationChanged && checkpoints[i].previousConfigID == id {
      ReplacesIff(change, checkpoints, reach, i, sent, id);
    }
  }

  lemma UndoingFacts(change: Change, checkpoints: seq<Checkpoint>, cause: Cause, groups: map<string, Group>,
                     pre: map<string, Agent>, agents: map<string, Agent>, assignments: map<string, string>,
                     sent: seq<Delivery>, results: seq<Evidence>)
    requires Undoing(change, checkpoints, cause, groups, pre, agents, assignments, sent, results)
    ensures |checkpoints| == |change.targets| && Reach(cause, |change.targets|) <= |checkpoints|
    ensures forall j :: 0 <= j < |checkpoints| ==> checkpoints[j].original.uid == change.targets[j].uid
    ensures UndoOf(sent) == UndoCalls(change, checkpoints[..Reach(cause, |change.targets|)])
  {
  }

  lemma BlamedAt(change: Change, reached: seq<Checkpoint>, restored: bool, pre: map<string, Agent>, halted: map<string, Agent>,
                 agents: map<string, Agent>, undo: seq<Delivery>, before: seq<Evidence>, after: seq<Evidence>, i: nat,
                 configurations: set<string>, faults: seq<Fault>)
    requires RolledBack(change, reached, restored, pre, halted, agents, undo, before, after, configurations, faults)
    requires i < |reached| && Distinct(after)
    ensures |reached| <= |after| && Blames(reached[i], after[i], configurations, undo, faults)
  {
    hide Reverted, Truthful, AllClear, Blames;
  }

  lemma {:induction false} EntryTold(change: Change, reached: seq<Checkpoint>, restored: bool, pre: map<string, Agent>, halted: map<string, Agent>,
                                     agents: map<string, Agent>, undo: seq<Delivery>, before: seq<Evidence>, after: seq<Evidence>, i: nat,
      configurations: set<string>, faults: seq<Fault>)
    requires RolledBack(change, reached, restored, pre, halted, agents, undo, before, after, configurations, faults)
    requires i < |reached| && Distinct(after)
    ensures |reached| <= |after| && TellsTruth(change, reached[i], after[i], agents, undo)
    ensures restored ==> after[i].status == Restored
    ensures agents.Keys == halted.Keys
    ensures forall uid :: uid in agents ==> agents[uid] == halted[uid] || (uid in ChangedUids(reached) && uid in pre && agents[uid] == pre[uid])
  {
    hide Calls, UndoCalls, ChangedUids, NoneRefused, TellsTruth, AllBlamed, AllClear;
  }

  lemma {:induction false} VisitedFailed(change: Change, reached: seq<Checkpoint>, cause: Cause, restored: bool, pre: map<string, Agent>,
                                         halted: map<string, Agent>, agents: map<string, Agent>, undo: seq<Delivery>,
                                         before: seq<Evidence>, after: seq<Evidence>,
      configurations: set<string>, faults: seq<Fault>)
    requires RolledBack(change, reached, restored, pre, halted, agents, undo, before, after, configurations, faults)
    requires |reached| == Reach(cause, |change.targets|) && Distinct(after)
    ensures (forall i :: 0 <= i < |reached| ==> after[i].status == Restored) || SomeRollbackFailed(change, cause, after)
  {
    hide Reverted, SameSubjects, Accepted, AllBlamed, AllClear;
    if i :| 0 <= i < |reached| && after[i].status != Restored {
      assert TellsTruth(change, reached[i], after[i], agents, undo);
    }
  }

  /** Undoes the reached prefix and settles the batch. */
  method Abort(change: Change, checkpoints: seq<Checkpoint>, cause: Cause, fleet: Control,
               ghost pre: map<string, Agent>, ghost deliveries0: seq<Delivery>)
    returns (outcome: Outcome)
    requires |deliveries0| <= |fleet.deliveries| && fleet.deliveries[..|deliveries0|] == deliveries0
    requires Undoing(change, checkpoints, cause, fleet.groups, pre, fleet.agents, fleet.assignments, fleet.deliveries[|deliveries0|..], change.results)
    modifies change`results, fleet`agents, fleet`deliveries, fleet`snapshot, fleet`faults
    ensures old(fleet.faults) <= fleet.faults
    ensures outcome == AllRestored(cause) || outcome == Incomplete(cause)
    ensures |deliveries0| <= |fleet.deliveries| && fleet.deliveries[..|deliveries0|] == deliveries0
    ensures Settled(change, cause, outcome.AllRestored?, fleet.groups, pre, fleet.assignments, fleet.agents, fleet.snapshot, fleet.deliveries[|deliveries0|..],
                    fleet.configurations, fleet.faults[|old(fleet.faults)|..])
    ensures DistinctTargets(change.targets) ==>
      Evidenced(change, cause, outcome.AllRestored?, pre, fleet.assignments, fleet.agents, fleet.deliveries[|deliveries0|..], change.results,
                fleet.configurations, fleet.faults[|old(fleet.faults)|..])
    ensures DistinctTargets(change.targets) && outcome.Incomplete? ==>
      fleet.snapshot == old(fleet.snapshot) || SomeRollbackFailed(change, cause, change.results)
  {
    hide *;
    ghost var d1, a1, r1, f1 := fleet.deliveries, fleet.agents, change.results, fleet.faults;
    ghost var sent := d1[|deliveries0|..];
    UndoingUndoable(change, checkpoints, cause, fleet.groups, pre, a1, fleet.assignments, sent, r1);
    var reach := Reach(cause, |change.targets|);
    outcome := RollbackBatch(change, checkpoints[..reach], fleet, cause, pre);
    ghost var undo, faults := fleet.deliveries[|d1|..], fleet.faults[|f1|..];
    ghost var log := fleet.deliveries[|deliveries0|..];
    assert log == sent + undo;
    RunSettled(change, checkpoints, cause, outcome.AllRestored?, fleet.groups, pre, a1, fleet.agents, fleet.snapshot, fleet.assignments,
               sent, undo, r1, change.results, fleet.configurations, faults);
    if DistinctTargets(change.targets) {
      SubjectsKept(change, checkpoints, cause, outcome.AllRestored?, fleet.groups, pre, a1, fleet.agents, fleet.assignments, sent, undo,
                   r1, change.results, fleet.configurations, faults);
      VisitedFailed(change, checkpoints[..reach], cause, outcome.AllRestored?, pre, a1, fleet.agents, undo, r1, change.results,
                    fleet.configurations, faults);
      EvidenceSettled(change, checkpoints, cause, outcome.AllRestored?, fleet.groups, pre, a1, fleet.agents, fleet.assignments, sent, undo,
                      r1, change.results, fleet.configurations, faults);
    }
  }

  // ---------- The batch ----------

  ghost predicate Fresh(change: Change, results: seq<Evidence>) {
    |results| == |change.targets| && forall i :: 0 <= i < |results| ==> results[i] == Entry(change, i, NotStarted, "", [])
  }

  method Prepare(change: Change)
    modifies change`results
    ensures Fresh(change, change.results)
  {
    change.results := [];
    var index := 0;
    while index < |change.targets|
      invariant 0 <= index <= |change.targets| == |change.targets| && |change.results| == index
      invariant forall i :: 0 <= i < index ==> change.results[i] == Entry(change, i, NotStarted, "", [])
    {
      var target := change.targets[index];
      change.results := change.results + [Evidence(target.uid, target.name, NotStarted, "", "", [])];
      index := index + 1;
    }
  }

  /** Why a batch was rejected before any target was looked at. */
  ghost predicate ResolveRefused(change: Change, groups: map<string, Group>, configurations: set<string>, faults: seq<Fault>) {
    || (faults == [] && !Resolvable(change, groups, configurations))
    || (|faults| == 1 && faults[0] in [GroupRead(change.targetGroupID), ConfigurationRead(change.targetConfigID), GroupListing,
                                       GroupRead(change.sourceGroupID)])
  }

  /** Resolves the groups and the configuration the change names, before any Collector is read. */
  method Resolve(change: Change, fleet: Control) returns (ok: bool, source: Option<Group>, target: Option<Group>)
    requires forall id :: id in fleet.groups ==> fleet.groups[id].id == id
    modifies fleet`faults
    ensures old(fleet.faults) <= fleet.faults
    ensures ok ==> fleet.faults == old(fleet.faults) && Resolvable(change, fleet.groups, fleet.configurations)
    ensures ok ==> Resolved(change, fleet.groups, source, target)
    ensures !ok ==> ResolveRefused(change, fleet.groups, fleet.configurations, fleet.faults[|old(fleet.faults)|..])
  {
    ok, source, target := true, None, None;
    if change.operation != Remove {
      target := fleet.GetGroup(change.targetGroupID);
      if target == None {
        return false, None, None;
      }
      if change.targetConfigID != "" {
        var found := fleet.HasConfiguration(change.targetConfigID);
        if !found {
          return false, None, None;
        }
      }
    }
    ok := fleet.ListGroups();
    if ok && change.sourceGroupID != "" {
      source := fleet.GetGroup(change.sourceGroupID);
      ok := source != None;
    }
  }

  /** Why a target was refused: it is not fit, or reading it failed. */
  ghost predicate TargetRefused(change: Change, i: nat, groups: map<string, Group>, agents: map<string, Agent>, problem: Problem, faults: seq<Fault>)
    requires i < |change.targets|
  {
    var uid := change.targets[i].uid;
    match problem
    case AgentUnavailable => faults == [AgentRead(uid)] || (faults == [] && uid !in agents)
    case OtherGroup => faults == [] && change.operation == Assign && uid in agents && !Fit(change, i, groups, agents)
    case LeftSource => faults == [] && change.operation != Assign && uid in agents && !Fit(change, i, groups, agents)
    case AssignmentUnavailable => faults == [AssignmentRead(uid)] && Fit(change, i, groups, agents)
    case _ => false
  }

  method CheckTarget(change: Change, index: nat, fleet: Control, source: Option<Group>) returns (problem: Option<Problem>, checkpoint: Option<Checkpoint>)
    requires index < |change.targets| && (change.sourceGroupID == "" <==> source == None)
    requires source.Some? ==> change.sourceGroupID in fleet.groups && source.value == fleet.groups[change.sourceGroupID]
    modifies fleet`faults
    ensures problem == None <==> checkpoint.Some?
    ensures old(fleet.faults) <= fleet.faults
    ensures problem.Some? ==>
      TargetRefused(change, index, fleet.groups, fleet.agents, problem.value, fleet.faults[|old(fleet.faults)|..])
    ensures checkpoint.Some? ==>
      var uid := change.targets[index].uid;
      && fleet.faults == old(fleet.faults) && Fit(change, index, fleet.groups, fleet.agents)
      && checkpoint.value == Checkpoint(fleet.agents[uid], fleet.agents[uid], Previous(fleet.assignments, uid), false, false)
  {
    hide Matches, MatchesIdentity;
    var agent := fleet.GetAgent(change.targets[index].uid);
    if agent == None {
      return Some(AgentUnavailable), None;
    }
    if change.operation == Assign {
      if exists id | id in fleet.groups :: Matches(fleet.groups[id], agent.value) {
        return Some(OtherGroup), None;
      }
    } else if source == None || !MatchesIdentity(source.value, agent.value) {
      return Some(LeftSource), None;
    }
    var latest := fleet.LatestAssignment(change.targets[index].uid);
    match latest {
      case LatestIs(id) => return None, Some(Checkpoint(agent.value, agent.value, id, false, false));
      case NeverAssigned => return None, Some(Checkpoint(agent.value, agent.value, "", false, false));
      case LookupFailed => return Some(AssignmentUnavailable), None;
    }
  }

  /** Every target is checked before anything changes; the first that is refused stops the batch. */
  method Validate(change: Change, fleet: Control, source: Option<Group>) returns (failed: Option<nat>, checkpoints: seq<Checkpoint>)
    requires Fresh(change, change.results) && NormalStore(fleet.agents)
    requires change.sourceGroupID == "" <==> source == None
    requires source.Some? ==> change.sourceGroupID in fleet.groups && source.value == fleet.groups[change.sourceGroupID]
    modifies change`results, fleet`faults
    ensures old(fleet.faults) <= fleet.faults
    ensures failed == None ==>
      && change.results == old(change.results) && fleet.faults == old(fleet.faults)
      && Checked(change, checkpoints, fleet.agents, fleet.assignments)
      && (forall i :: 0 <= i < |change.targets| ==> Fit(change, i, fleet.groups, fleet.agents))
      && (forall i :: 0 <= i < |checkpoints| ==>
           && !checkpoints[i].membershipChanged && !checkpoints[i].configurationChanged
           && checkpoints[i].agent == checkpoints[i].original)
    ensures failed.Some? ==>
      && failed.value < |change.targets|
      && (forall i :: 0 <= i < failed.value ==> Fit(change, i, fleet.groups, fleet.agents))
      && exists problem ::
           && change.results == old(change.results)[failed.value := Entry(change, failed.value, Failed, "", [problem])]
           && TargetRefused(change, failed.value, fleet.groups, fleet.agents, problem, fleet.faults[|old(fleet.faults)|..])
  {
    hide TargetRefused, Eligible, Previous;
    checkpoints := [];
    var index := 0;
    while index < |change.targets|
      invariant 0 <= index <= |change.targets| && |checkpoints| == index && change.results == old(change.results)
      invariant fleet.faults == old(fleet.faults)
      invariant forall i :: 0 <= i < index ==>
        var uid := change.targets[i].uid;
        && Fit(change, i, fleet.groups, fleet.agents)
        && checkpoints[i] == Checkpoint(fleet.agents[uid], fleet.agents[uid], Previous(fleet.assignments, uid), false, false)
    {
      var problem, checkpoint := CheckTarget(change, index, fleet, source);
      if problem.Some? {
        change.Mark(index, Failed, "", [problem.value]);
        return Some(index), [];
      }
      checkpoints := checkpoints + [checkpoint.value];
      index := index + 1;
    }
    failed := None;
  }

  lemma Started(change: Change, checkpoints: seq<Checkpoint>, groups: map<string, Group>, pre: map<string, Agent>,
                assignments: map<string, string>, results: seq<Evidence>)
    requires NormalStore(pre) && Fresh(change, results) && Checked(change, checkpoints, pre, assignments)
    requires forall i :: 0 <= i < |checkpoints| ==>
      !checkpoints[i].membershipChanged && !checkpoints[i].configurationChanged && checkpoints[i].agent == checkpoints[i].original
    ensures Going(change, checkpoints, 0, groups, pre, pre, assignments, [], results)
  {
    assert Calls([]) == [];
  }

  /** What the outcome of a batch stands for. A rejected batch changed nothing; a successful one met
      no fault, changed every target and saved the result; a failed one is settled, with truthful
      evidence when the targets are distinct. `forward` and `undone` are the store accesses that
      failed before and during the rollback. */
  ghost predicate Achieved(change: Change, outcome: Outcome, groups: map<string, Group>, pre: map<string, Agent>, file: map<string, Agent>,
                           assignments: map<string, string>, agents: map<string, Agent>, snapshot: map<string, Agent>,
                           log: seq<Delivery>, results: seq<Evidence>,
                           configurations: set<string>, forward: seq<Fault>, undone: seq<Fault>) {
    match outcome
    case Rejected =>
      && agents == pre && snapshot == file && log == [] && Fresh(change, results)
      && undone == [] && ResolveRefused(change, groups, configurations, forward)
    case RejectedAt(k) =>
      && agents == pre && snapshot == file && log == []
      && k < |change.targets| == |results|
      && (forall i :: 0 <= i < |results| && i != k ==> results[i] == Entry(change, i, NotStarted, "", []))
      && undone == [] && Resolvable(change, groups, configurations)
      && (forall i :: 0 <= i < k ==> Fit(change, i, groups, pre))
      && exists problem ::
           results[k] == Entry(change, k, Failed, "", [problem]) && TargetRefused(change, k, groups, pre, problem, forward)
    case Success =>
      && agents == Moved(change, groups, |change.targets|, pre) && snapshot == agents
      && Calls(log) == ForwardCalls(change, assignments, |change.targets|) && NoneRefused(log)
      && Recorded(change, |change.targets|, results)
      && forward == [] && undone == [] && Ready(change, groups, configurations, pre)
    case AllRestored(cause) =>
      Failure(change, cause, true, groups, pre, file, assignments, agents, snapshot, log, results, configurations, forward, undone)
    case Incomplete(cause) =>
      Failure(change, cause, false, groups, pre, file, assignments, agents, snapshot, log, results, configurations, forward, undone)
  }

  ghost predicate Failure(change: Change, cause: Cause, restored: bool, groups: map<string, Group>, pre: map<string, Agent>, file: map<string, Agent>,
                          assignments: map<string, string>, agents: map<string, Agent>, snapshot: map<string, Agent>,
                          log: seq<Delivery>, results: seq<Evidence>,
                          configurations: set<string>, forward: seq<Fault>, undone: seq<Fault>) {
    && Resolvable(change, groups, configurations)
    && (forall i :: 0 <= i < |change.targets| ==> Fit(change, i, groups, pre))
    && ForwardFaulted(change, cause, configurations, forward)
    && Settled(change, cause, restored, groups, pre, assignments, agents, snapshot, log, configurations, undone)
    && (DistinctTargets(change.targets) ==>
        && Evidenced(change, cause, restored, pre, assignments, agents, log, results, configurations, undone)
        && (!restored ==> snapshot == file || SomeRollbackFailed(change, cause, results)))
  }

  /** A batch succeeds exactly when everything it needs is there, no store access fails and no
      delivery is refused. */
  lemma {:induction false} SuccessIff(change: Change, outcome: Outcome, groups: map<string, Group>, pre: map<string, Agent>, file: map<string, Agent>,
                                      assignments: map<string, string>, agents: map<string, Agent>, snapshot: map<string, Agent>,
                                      log: seq<Delivery>, results: seq<Evidence>,
                                      configurations: set<string>, forward: seq<Fault>, undone: seq<Fault>)
    requires Achieved(change, outcome, groups, pre, file, assignments, agents, snapshot, log, results, configurations, forward, undone)
    ensures outcome.Success? <==> Ready(change, groups, configurations, pre) && forward == [] && undone == [] && NoneRefused(log)
  {
    hide Evidenced, Moved, Calls, UndoOf, ForwardCalls, Recorded, Cleared, TargetUids, Eligible, Entry;
    match outcome {
      case RejectedAt(k) =>
        assert forward == [] ==> !Fit(change, k, groups, pre);
      case AllRestored(cause) =>
        FailureHasReason(change, cause, true, groups, pre, file, assignments, agents, snapshot, log, results, configurations, forward, undone);
      case Incomplete(cause) =>
        FailureHasReason(change, cause, false, groups, pre, file, assignments, agents, snapshot, log, results, configurations, forward, undone);
      case _ =>
    }
  }

  lemma FailureHasReason(change: Change, cause: Cause, restored: bool, groups: map<string, Group>, pre: map<string, Agent>, file: map<string, Agent>,
                         assignments: map<string, string>, agents: map<string, Agent>, snapshot: map<string, Agent>,
                         log: seq<Delivery>, results: seq<Evidence>,
                         configurations: set<string>, forward: seq<Fault>, undone: seq<Fault>)
    requires Failure(change, cause, restored, groups, pre, file, assignments, agents, snapshot, log, results, configurations, forward, undone)
    ensures forward != [] || !NoneRefused(log) || !Ready(change, groups, configurations, pre)
  {
    hide Evidenced, Moved, Calls, UndoOf, ForwardCalls, Cleared, TargetUids, Eligible, Fit, Resolvable;
    match cause {
      case LookupAt(i) => assert forward == [] ==> !Available(change, i, configurations);
      case DeliveryAt(i) =>
        var sent := log[..|ForwardCalls(change, assignments, Attempted(cause, |change.targets|))|];
        assert log[|sent| - 1] == sent[|sent| - 1];
      case _ =>
    }
  }

  method ExecuteBatch(change: Change, fleet: Control) returns (outcome: Outcome, ghost forward: seq<Fault>, ghost undone: seq<Fault>)
    requires NormalStore(fleet.agents) && forall id :: id in fleet.groups ==> fleet.groups[id].id == id
    modifies change`results, fleet`agents, fleet`deliveries, fleet`snapshot, fleet`faults
    ensures |old(fleet.deliveries)| <= |fleet.deliveries| && fleet.deliveries[..|old(fleet.deliveries)|] == old(fleet.deliveries)
    ensures fleet.faults == old(fleet.faults) + forward + undone
    ensures Achieved(change, outcome, fleet.groups, old(fleet.agents), old(fleet.snapshot), fleet.assignments, fleet.agents, fleet.snapshot,
                     fleet.deliveries[|old(fleet.deliveries)|..], change.results, fleet.configurations, forward, undone)
    ensures outcome.Success? <==>
      && Ready(change, fleet.groups, fleet.configurations, old(fleet.agents))
      && fleet.faults == old(fleet.faults) && NoneRefused(fleet.deliveries[|old(fleet.deliveries)|..])
  {
    hide *;
    ghost var pre, d0, f0 := fleet.agents, fleet.deliveries, fleet.faults;
    assert d0[|d0|..] == [];
    Prepare(change);
    ghost var initial := change.results;
    var ok, source, target := Resolve(change, fleet);
    forward, undone := fleet.faults[|f0|..], [];
    if !ok {
      outcome := Rejected;
      RejectedHolds(change, fleet.groups, pre, fleet.snapshot, fleet.assignments, change.results, fleet.configurations, forward);
    } else {
      ResolvedFacts(change, fleet.groups, source, target);
      var failed, checkpoints := Validate(change, fleet, source);
      forward := fleet.faults[|f0|..];
      if failed.Some? {
        outcome := RejectedAt(failed.value);
        RejectedAtHolds(change, failed.value, fleet.groups, pre, fleet.snapshot, fleet.assignments, initial, change.results,
                        fleet.configurations, forward);
      } else {
        CheckedCount(change, checkpoints, pre, fleet.assignments);
        Started(change, checkpoints, fleet.groups, pre, fleet.assignments, change.results);
        outcome, forward, undone := Run(change, checkpoints, fleet, source, target, pre, d0);
      }
    }
    SuccessIff(change, outcome, fleet.groups, pre, old(fleet.snapshot), fleet.assignments, fleet.agents, fleet.snapshot,
               fleet.deliveries[|d0|..], change.results, fleet.configurations, forward, undone);
  }

  lemma ResolvedFacts(change: Change, groups: map<string, Group>, source: Option<Group>, target: Option<Group>)
    requires Resolved(change, groups, source, target)
    ensures change.sourceGroupID == "" <==> source == None
    ensures source.Some? ==> change.sourceGroupID in groups && source.value == groups[change.sourceGroupID]
  {
  }

  lemma CheckedCount(change: Change, checkpoints: seq<Checkpoint>, pre: map<string, Agent>, assignments: map<string, string>)
    requires Checked(change, checkpoints, pre, assignments)
    ensures |checkpoints| == |change.targets|
  {
  }

  lemma RejectedHolds(change: Change, groups: map<string, Group>, pre: map<string, Agent>, file: map<string, Agent>,
                      assignments: map<string, string>, results: seq<Evidence>, configurations: set<string>, forward: seq<Fault>)
    requires Fresh(change, results) && ResolveRefused(change, groups, configurations, forward)
    ensures Achieved(change, Rejected, groups, pre, file, assignments, pre, file, [], results, configurations, forward, [])
  {
  }

  lemma RejectedAtHolds(change: Change, k: nat, groups: map<string, Group>, pre: map<string, Agent>, file: map<string, Agent>,
                        assignments: map<string, string>, initial: seq<Evidence>, results: seq<Evidence>,
                        configurations: set<string>, forward: seq<Fault>)
    requires Fresh(change, initial) && k < |change.targets| && Resolvable(change, groups, configurations)
    requires forall i :: 0 <= i < k ==> Fit(change, i, groups, pre)
    requires exists problem ::
      results == initial[k := Entry(change, k, Failed, "", [problem])] && TargetRefused(change, k, groups, pre, problem, forward)
    ensures Achieved(change, RejectedAt(k), groups, pre, file, assignments, pre, file, [], results, configurations, forward, [])
  {
    hide Resolvable, Fit, TargetRefused;
  }

  lemma AllAvailable(change: Change, groups: map<string, Group>, configurations: set<string>)
    requires Resolvable(change, groups, configurations)
    requires forall i :: 0 <= i < |change.targets| && change.RestoresPrevious(i) ==> change.PlannedID(i) in configurations
    ensures forall i :: 0 <= i < |change.targets| ==> Available(change, i, configurations)
  {
  }

  /** The forward pass over validated targets, and the rollback when it fails. */
  method Run(change: Change, validated: seq<Checkpoint>, fleet: Control, source: Option<Group>, target: Option<Group>,
             ghost pre: map<string, Agent>, ghost d0: seq<Delivery>)
    returns (outcome: Outcome, ghost forward: seq<Fault>, ghost undone: seq<Fault>)
    requires |validated| == |change.targets| && Resolved(change, fleet.groups, source, target)
    requires |d0| <= |fleet.deliveries| && fleet.deliveries[..|d0|] == d0
    requires Going(change, validated, 0, fleet.groups, pre, fleet.agents, fleet.assignments, fleet.deliveries[|d0|..], change.results)
    requires Resolvable(change, fleet.groups, fleet.configurations)
    requires forall i :: 0 <= i < |change.targets| ==> Fit(change, i, fleet.groups, pre)
    modifies change`results, fleet`agents, fleet`deliveries, fleet`snapshot, fleet`faults
    ensures |d0| <= |fleet.deliveries| && fleet.deliveries[..|d0|] == d0
    ensures fleet.faults == old(fleet.faults) + forward + undone
    ensures Achieved(change, outcome, fleet.groups, pre, old(fleet.snapshot), fleet.assignments, fleet.agents, fleet.snapshot,
                     fleet.deliveries[|d0|..], change.results, fleet.configurations, forward, undone)
  {
    hide *;
    ghost var f0 := fleet.faults;
    var checkpoints := validated;
    forward, undone := [], [];
    var index := 0;
    while index < |change.targets|
      invariant 0 <= index <= |change.targets| == |checkpoints| && fleet.snapshot == old(fleet.snapshot) && fleet.faults == f0
      invariant |d0| <= |fleet.deliveries| && fleet.deliveries[..|d0|] == d0
      invariant Going(change, checkpoints, index, fleet.groups, pre, fleet.agents, fleet.assignments, fleet.deliveries[|d0|..], change.results)
      invariant forall i :: 0 <= i < index && change.RestoresPrevious(i) ==> change.PlannedID(i) in fleet.configurations
    {
      var cause;
      cause, checkpoints := Advance(change, checkpoints, index, fleet, source, target, pre, d0);
      if cause.Some? {
        HaltedUndoing(change, checkpoints, cause.value, index, fleet.groups, pre, fleet.agents, fleet.assignments,
                      fleet.deliveries[|d0|..], change.results);
        outcome, forward, undone := GiveUp(change, checkpoints, cause.value, fleet, pre, d0, f0);
        return;
      }
      index := index + 1;
    }
    var saved := fleet.SaveSnapshot();
    if !saved {
      FinishedUndoing(change, checkpoints, fleet.groups, pre, fleet.agents, fleet.assignments, fleet.deliveries[|d0|..], change.results);
      SnapshotFaulted(change, fleet.configurations);
      assert fleet.faults[|f0|..] == [SnapshotWrite];
      outcome, forward, undone := GiveUp(change, checkpoints, SnapshotFailed, fleet, pre, d0, f0);
      return;
    }
    outcome := Success;
    AllAvailable(change, fleet.groups, fleet.configurations);
    SuccessHolds(change, checkpoints, fleet.groups, pre, old(fleet.snapshot), fleet.agents, fleet.assignments, fleet.deliveries[|d0|..],
                 change.results, fleet.configurations);
  }

  lemma SnapshotFaulted(change: Change, configurations: set<string>)
    ensures ForwardFaulted(change, SnapshotFailed, configurations, [SnapshotWrite])
  {
  }

  lemma SuccessHolds(change: Change, checkpoints: seq<Checkpoint>, groups: map<string, Group>, pre: map<string, Agent>, file: map<string, Agent>,
                     agents: map<string, Agent>, assignments: map<string, string>, sent: seq<Delivery>, results: seq<Evidence>, configurations: set<string>)
    requires Going(change, checkpoints, |change.targets|, groups, pre, agents, assignments, sent, results)
    requires Resolvable(change, groups, configurations)
    requires forall i :: 0 <= i < |change.targets| ==> Fit(change, i, groups, pre) && Available(change, i, configurations)
    ensures Achieved(change, Success, groups, pre, file, assignments, agents, agents, sent, results, configurations, [], [])
  {
    hide Going, Resolvable, Fit, Available, Recorded, Calls, Moved, NoneRefused;
    AllAdvanced(change, checkpoints, groups, pre, agents, assignments, sent, results);
  }

  /** The batch failed for the given cause: it is undone, and that is its outcome. */
  method GiveUp(change: Change, checkpoints: seq<Checkpoint>, cause: Cause, fleet: Control,
                ghost pre: map<string, Agent>, ghost d0: seq<Delivery>, ghost f0: seq<Fault>)
    returns (outcome: Outcome, ghost forward: seq<Fault>, ghost undone: seq<Fault>)
    requires |d0| <= |fleet.deliveries| && fleet.deliveries[..|d0|] == d0 && f0 <= fleet.faults
    requires Undoing(change, checkpoints, cause, fleet.groups, pre, fleet.agents, fleet.assignments, fleet.deliveries[|d0|..], change.results)
    requires ForwardFaulted(change, cause, fleet.configurations, fleet.faults[|f0|..])
    requires Resolvable(change, fleet.groups, fleet.configurations)
    requires forall i :: 0 <= i < |change.targets| ==> Fit(change, i, fleet.groups, pre)
    modifies change`results, fleet`agents, fleet`deliveries, fleet`snapshot, fleet`faults
    ensures |d0| <= |fleet.deliveries| && fleet.deliveries[..|d0|] == d0
    ensures fleet.faults == f0 + forward + undone
    ensures Achieved(change, outcome, fleet.groups, pre, old(fleet.snapshot), fleet.assignments, fleet.agents, fleet.snapshot,
                     fleet.deliveries[|d0|..], change.results, fleet.configurations, forward, undone)
  {
    hide Settled, Evidenced, Undoing, SomeRollbackFailed, ForwardFaulted, Resolvable, Fit, Ready, Fresh, Recorded, TargetRefused, ResolveRefused;
    ghost var f1 := fleet.faults;
    forward := f1[|f0|..];
    outcome := Abort(change, checkpoints, cause, fleet, pre, d0);
    undone := fleet.faults[|f1|..];
  }

  lemma {:induction false} AllAdvanced(change: Change, checkpoints: seq<Checkpoint>, groups: map<string, Group>,
                                      pre: map<string, Agent>, agents: map<string, Agent>, assignments: map<string, string>,
                                      sent: seq<Delivery>, results: seq<Evidence>)
    requires Going(change, checkpoints, |change.targets|, groups, pre, agents, assignments, sent, results)
    ensures agents == Moved(change, groups, |change.targets|, pre)
    ensures Calls(sent) == ForwardCalls(change, assignments, |change.targets|) && NoneRefused(sent)
    ensures Recorded(change, |change.targets|, results)
  {
    hide Moved, NormalStore, Calls, ForwardCalls, NoneRefused, UndoOf, UndoCalls, Entry;
  }

  // ---------- What the forward pass means for ownership ----------

  /** After a successful assignment or move into an enabled group of an exclusive registry, each
      target belongs to that group and to no other. */
  lemma {:induction false} MovedTargetsBelong(change: Change, groups: map<string, Group>, pre: map<string, Agent>, i: nat)
    requires change.operation != Remove && Exclusive(groups)
    requires change.targetGroupID in groups && groups[change.targetGroupID].enabled && |groups[change.targetGroupID].selector| > 0
    requires i < |change.targets| && change.targets[i].uid in pre
    ensures var agent := Moved(change, groups, |change.targets|, pre)[change.targets[i].uid];
      forall other :: other in groups ==> (Matches(groups[other], agent) <==> other == change.targetGroupID)
  {
    var uid := change.targets[i].uid;
    assert uid in TargetUids(change, |change.targets|);
    OverriddenBelongsToOne(groups, change.targetGroupID, change.NewAgent(groups, pre[uid]));
  }
}
