/** What a membership batch comes to, said by the fields of the change, the stored records and the log
    of calls alone. */
module BatchOutcome {
  import opened Wrappers
  import opened Groups
  import opened Fleet
  import opened MembershipRollback
  import opened MembershipBatch

  // ---------- The calls of the forward pass ----------

  /** The configuration an agent was last assigned, or the empty id. */
  function Assigned(assignments: map<string, string>, uid: string): string {
    if uid in assignments then assignments[uid] else ""
  }

  /** A removal restores the configuration recorded with a target, if any, under the one policy and
      leaves the current one under the other; an assignment or a move sends the named configuration,
      if any. */
  predicate Asked(change: Change, i: nat)
    requires i < |change.targets|
  {
    match change.operation
    case Remove => change.policy == RestorePreGroup && change.targets[i].previousConfigID != ""
    case _ => change.targetConfigID != ""
  }

  function AskedCall(change: Change, i: nat, assignments: map<string, string>): Call
    requires i < |change.targets|
  {
    var target := change.targets[i];
    match change.operation
    case Remove => Call(target.uid, target.previousConfigID, Rollback, Assigned(assignments, target.uid), change.id)
    case _ => Call(target.uid, change.targetConfigID, Deploy, Assigned(assignments, target.uid), change.id)
  }

  /** These are the calls asked for the first k targets, in their order, made for the targets at these
      places. */
  ghost predicate AsAsked(change: Change, assignments: map<string, string>, k: nat, calls: seq<Call>, places: seq<nat>) {
    && k <= |change.targets| && |places| == |calls|
    && (forall i, j :: 0 <= i < j < |places| ==> places[i] < places[j])
    && (forall j :: 0 <= j < |places| ==> places[j] < k)
    && (forall i :: 0 <= i < k ==> (i in places <==> Asked(change, i)))
    && (forall j :: 0 <= j < |places| ==> calls[j] == AskedCall(change, places[j], assignments))
  }

  lemma PlannedIsAsked(change: Change, assignments: map<string, string>, i: nat)
    requires i < |change.targets|
    ensures change.PlannedID(i) != "" <==> Asked(change, i)
    ensures change.PlannedID(i) != "" ==>
      change.PlannedCall(i, Previous(assignments, change.targets[i].uid)) == AskedCall(change, i, assignments)
  {
  }

  lemma {:induction false} PlannedAre(change: Change, assignments: map<string, string>, k: nat) returns (places: seq<nat>)
    requires k <= |change.targets|
    ensures AsAsked(change, assignments, k, ForwardCalls(change, assignments, k), places)
  {
    hide *;
    if k == 0 {
      places := [];
      NothingAsked(change, assignments);
    } else {
      var before := PlannedAre(change, assignments, k - 1);
      ForwardStep(change, assignments, k - 1);
      AskedSnoc(change, assignments, k - 1, ForwardCalls(change, assignments, k - 1), before);
      places := if Asked(change, k - 1) then before + [k - 1] else before;
    }
  }

  lemma NothingAsked(change: Change, assignments: map<string, string>)
    ensures AsAsked(change, assignments, 0, ForwardCalls(change, assignments, 0), [])
  {
  }

  lemma ForwardStep(change: Change, assignments: map<string, string>, k: nat)
    requires k < |change.targets|
    ensures ForwardCalls(change, assignments, k + 1) ==
      if Asked(change, k) then ForwardCalls(change, assignments, k) + [AskedCall(change, k, assignments)]
      else ForwardCalls(change, assignments, k)
  {
    PlannedIsAsked(change, assignments, k);
    hide Asked, AskedCall;
  }

  lemma AskedSnoc(change: Change, assignments: map<string, string>, k: nat, calls: seq<Call>, places: seq<nat>)
    requires AsAsked(change, assignments, k, calls, places) && k < |change.targets|
    ensures if Asked(change, k) then AsAsked(change, assignments, k + 1, calls + [AskedCall(change, k, assignments)], places + [k])
            else AsAsked(change, assignments, k + 1, calls, places)
  {
    hide Asked, AskedCall;
    var more := places + [k];
    assert k !in places;
    forall i ensures i in more <==> i in places || i == k { }
  }

  /** The calls of these deliveries. */
  ghost function CallsOf(deliveries: seq<Delivery>): seq<Call> {
    seq(|deliveries|, i requires 0 <= i < |deliveries| => deliveries[i].call)
  }

  /** A batch that succeeded made exactly the calls asked for, one for each target that was to be sent
      a configuration, in target order, and each was accepted. */
  lemma {:induction false} SuccessSends(change: Change, groups: map<string, Group>, pre: map<string, Agent>, file: map<string, Agent>,
                                        assignments: map<string, string>, agents: map<string, Agent>, snapshot: map<string, Agent>,
                                        log: seq<Delivery>, results: seq<Evidence>, configurations: set<string>,
                                        forward: seq<Fault>, undone: seq<Fault>) returns (places: seq<nat>)
    requires Achieved(change, Success, groups, pre, file, assignments, agents, snapshot, log, results, configurations, forward, undone)
    ensures AsAsked(change, assignments, |change.targets|, CallsOf(log), places)
    ensures forall d :: d in log ==> d.answer != Refused
  {
    assert CallsOf(log) == MembershipRollback.Calls(log) == ForwardCalls(change, assignments, |change.targets|);
    hide Moved, Recorded, Ready, Asked, AskedCall, ForwardCalls;
    places := PlannedAre(change, assignments, |change.targets|);
  }

  lemma {:induction false} FailureParts(change: Change, outcome: Outcome, groups: map<string, Group>, pre: map<string, Agent>, file: map<string, Agent>,
                                        assignments: map<string, string>, agents: map<string, Agent>, snapshot: map<string, Agent>,
                                        log: seq<Delivery>, results: seq<Evidence>, configurations: set<string>,
                                        forward: seq<Fault>, undone: seq<Fault>)
    requires Achieved(change, outcome, groups, pre, file, assignments, agents, snapshot, log, results, configurations, forward, undone)
    requires outcome.AllRestored? || outcome.Incomplete?
    ensures Settled(change, outcome.cause, outcome.AllRestored?, groups, pre, assignments, agents, snapshot, log, configurations, undone)
    ensures Within(outcome.cause, |change.targets|) && (outcome.cause.DeliveryAt? ==> Asked(change, outcome.cause.index))
  {
    hide Settled, Evidenced, Fit, Resolvable;
  }

  lemma {:induction false} AllPlaces(places: seq<nat>, n: nat)
    requires forall i, j :: 0 <= i < j < |places| ==> places[i] < places[j]
    requires forall i :: 0 <= i < n ==> i in places
    requires forall j :: 0 <= j < |places| ==> places[j] < n
    ensures |places| == n && forall i :: 0 <= i < n ==> places[i] == i
    decreases n
  {
    if places != [] { assert places[0] < n; }
    if n > 0 {
      var last := |places| - 1;
      assert n - 1 in places;
      var k :| 0 <= k < |places| && places[k] == n - 1;
      assert places[last] == n - 1;
      forall i | 0 <= i < n - 1 ensures i in places[..last] {
        assert i in places;
        var m :| 0 <= m < |places| && places[m] == i;
        assert places[..last][m] == i;
      }
      AllPlaces(places[..last], n - 1);
    }
  }

  lemma SomethingAsked(change: Change, assignments: map<string, string>, k: nat, calls: seq<Call>, places: seq<nat>)
    requires AsAsked(change, assignments, k, calls, places) && calls != []
    ensures exists i :: 0 <= i < |change.targets| && Asked(change, i)
  {
    assert places[0] in places;
  }

  lemma AllAsked(change: Change, assignments: map<string, string>, calls: seq<Call>, places: seq<nat>)
    requires AsAsked(change, assignments, |change.targets|, calls, places)
    requires forall i :: 0 <= i < |change.targets| ==> Asked(change, i)
    ensures |calls| == |change.targets| && forall i :: 0 <= i < |calls| ==> calls[i] == AskedCall(change, i, assignments)
  {
    hide Asked, AskedCall;
    AllPlaces(places, |change.targets|);
  }

  /** A successful assignment or move deploys the named configuration to every target, in target order,
      and sends nothing when none is named. */
  lemma {:induction false} AssignmentDeploysToAll(change: Change, groups: map<string, Group>, pre: map<string, Agent>, file: map<string, Agent>,
                                                  assignments: map<string, string>, agents: map<string, Agent>, snapshot: map<string, Agent>,
                                                  log: seq<Delivery>, results: seq<Evidence>, configurations: set<string>,
                                                  forward: seq<Fault>, undone: seq<Fault>)
    requires Achieved(change, Success, groups, pre, file, assignments, agents, snapshot, log, results, configurations, forward, undone)
    requires change.operation != Remove
    ensures if change.targetConfigID == "" then log == []
            else |log| == |change.targets| && forall i :: 0 <= i < |log| ==>
              log[i].call == Call(change.targets[i].uid, change.targetConfigID, Deploy,
                                  Assigned(assignments, change.targets[i].uid), change.id)
  {
    var places := SuccessSends(change, groups, pre, file, assignments, agents, snapshot, log, results, configurations, forward, undone);
    hide Achieved, AsAsked;
    if change.targetConfigID != "" {
      AllAsked(change, assignments, CallsOf(log), places);
      assert forall i :: 0 <= i < |log| ==> CallsOf(log)[i] == log[i].call;
    } else if log != [] {
      SomethingAsked(change, assignments, |change.targets|, CallsOf(log), places);
    }
  }

  /** A removal that keeps the current configuration never sends anything, whatever happens. */
  lemma {:induction false} KeepingSendsNothing(change: Change, outcome: Outcome, groups: map<string, Group>, pre: map<string, Agent>,
                                               file: map<string, Agent>, assignments: map<string, string>, agents: map<string, Agent>,
                                               snapshot: map<string, Agent>, log: seq<Delivery>, results: seq<Evidence>,
                                               configurations: set<string>, forward: seq<Fault>, undone: seq<Fault>)
    requires Achieved(change, outcome, groups, pre, file, assignments, agents, snapshot, log, results, configurations, forward, undone)
    requires change.operation == Remove && change.policy == KeepCurrent
    ensures log == []
  {
    hide AsAsked;
    if outcome.Success? {
      var places := SuccessSends(change, groups, pre, file, assignments, agents, snapshot, log, results, configurations, forward, undone);
      hide Achieved;
      if log != [] { SomethingAsked(change, assignments, |change.targets|, CallsOf(log), places); }
    } else if outcome.AllRestored? || outcome.Incomplete? {
      var places := FailureSends(change, outcome, groups, pre, file, assignments, agents, snapshot, log, results, configurations, forward, undone);
      hide Achieved;
      if log != [] {
        SomethingSent(log, |places|);
        SomethingAsked(change, assignments, Tried(outcome.cause, |change.targets|), CallsOf(log[..|places|]), places);
      }
    }
  }

  /** A log whose later calls answer earlier ones does not start with the later ones. */
  lemma SomethingSent(log: seq<Delivery>, forward: nat)
    requires forward <= |log| && log != []
    requires forall d :: d in log[forward..] ==> exists j :: 0 <= j < forward && log[j].answer == Sent && d.call == Back(log[j].call)
    ensures forward > 0
  {
    if forward < |log| { assert log[forward] in log[forward..]; }
  }

  // ---------- The calls of a failed batch ----------

  /** Sends again what the agent had before. */
  function Back(call: Call): Call {
    Call(call.uid, call.previousConfigID, Rollback, "", call.requestID)
  }

  /** How many targets the forward pass made its call for. */
  function Tried(cause: Cause, n: nat): nat {
    match cause
    case LookupAt(i) => i
    case DeliveryAt(i) => i + 1
    case WriteAt(i) => i + 1
    case SnapshotFailed => n
  }

  /** The calls that undo these deliveries: the really sent ones, the latest first. */
  ghost predicate Undoes(sent: seq<Delivery>, calls: seq<Call>, places: seq<nat>) {
    && |places| == |calls|
    && (forall i, j :: 0 <= i < j < |places| ==> places[i] > places[j])
    && (forall j :: 0 <= j < |places| ==> places[j] < |sent|)
    && (forall i :: 0 <= i < |sent| ==> (i in places <==> sent[i].answer == Sent))
    && (forall j :: 0 <= j < |places| ==> calls[j] == Back(sent[places[j]].call))
  }

  lemma {:induction false} UndoAre(sent: seq<Delivery>) returns (places: seq<nat>)
    ensures Undoes(sent, UndoOf(sent), places)
  {
    places := [];
    if sent != [] {
      var last := |sent| - 1;
      var before := UndoAre(sent[..last]);
      assert sent == sent[..last] + [sent[last]];
      UndoOfSnoc(sent[..last], sent[last]);
      UndoIsBack(sent[last].call);
      hide UndoOf, Back, Undoes;
      places := if sent[last].answer.Sent? then [last] + before else before;
      UndoesSnoc(sent[..last], sent[last], UndoOf(sent[..last]), before);
      if !sent[last].answer.Sent? { assert [] + UndoOf(sent[..last]) == UndoOf(sent[..last]); }
    }
  }

  lemma UndoesSnoc(sent: seq<Delivery>, last: Delivery, calls: seq<Call>, places: seq<nat>)
    requires Undoes(sent, calls, places)
    ensures if last.answer.Sent? then Undoes(sent + [last], [Back(last.call)] + calls, [|sent|] + places)
            else Undoes(sent + [last], calls, places)
  {
    hide Back;
    var all := sent + [last];
    assert all[|sent|] == last && forall i :: 0 <= i < |sent| ==> all[i] == sent[i];
    assert |sent| !in places;
    if last.answer.Sent? {
      var more := [|sent|] + places;
      assert more[0] == |sent| && forall j :: 1 <= j < |more| ==> more[j] == places[j - 1];
      forall i | 0 <= i < |all| ensures i in more <==> all[i].answer == Sent { assert i in more <==> i == |sent| || i in places; }
    }
  }

  lemma UndoIsBack(call: Call)
    ensures Undo(call) == Back(call)
  {
  }

  /** A batch that failed made the calls asked for up to the target it failed at; only a refused call
      ends it there. Whatever it did afterwards sends again what an agent had before that was really
      sent something. */
  lemma {:induction false} FailureSends(change: Change, outcome: Outcome, groups: map<string, Group>, pre: map<string, Agent>,
                                        file: map<string, Agent>, assignments: map<string, string>, agents: map<string, Agent>,
                                        snapshot: map<string, Agent>, log: seq<Delivery>, results: seq<Evidence>,
                                        configurations: set<string>, forward: seq<Fault>, undone: seq<Fault>) returns (places: seq<nat>)
    requires Achieved(change, outcome, groups, pre, file, assignments, agents, snapshot, log, results, configurations, forward, undone)
    requires outcome.AllRestored? || outcome.Incomplete?
    ensures |places| <= |log|
    ensures AsAsked(change, assignments, Tried(outcome.cause, |change.targets|), CallsOf(log[..|places|]), places)
    ensures forall j :: 0 <= j < |places| ==> (log[j].answer == Refused <==> outcome.cause.DeliveryAt? && j == |places| - 1)
    ensures outcome.cause.DeliveryAt? ==> places != [] && places[|places| - 1] == outcome.cause.index
    ensures forall d :: d in log[|places|..] ==> exists j :: 0 <= j < |places| && log[j].answer == Sent && d.call == Back(log[j].call)
  {
    FailureParts(change, outcome, groups, pre, file, assignments, agents, snapshot, log, results, configurations, forward, undone);
    hide Achieved;
    var k := Tried(outcome.cause, |change.targets|);
    assert k == Attempted(outcome.cause, |change.targets|) && k <= |change.targets|;
    var calls := ForwardCalls(change, assignments, k);
    places := PlannedAre(change, assignments, k);
    hide AsAsked, ForwardCalls, TargetUids, Moves;
    var sent := log[..|calls|];
    assert CallsOf(sent) == MembershipRollback.Calls(sent) == calls;
    assert |places| == |calls| by { AskedCount(change, assignments, k, calls, places); }
    assert forall j :: 0 <= j < |calls| ==> log[j] == sent[j];
    LastAsked(change, assignments, outcome.cause, sent, calls, places);
    forall d | d in log[|places|..] ensures exists j :: 0 <= j < |places| && log[j].answer == Sent && d.call == Back(log[j].call) {
      assert d.call in UndoOf(sent);
      var j := UndoOne(sent, d.call);
      assert log[j] == sent[j];
    }
  }

  lemma AskedCount(change: Change, assignments: map<string, string>, k: nat, calls: seq<Call>, places: seq<nat>)
    requires AsAsked(change, assignments, k, calls, places)
    ensures |places| == |calls|
  {
  }

  lemma UndoOne(sent: seq<Delivery>, call: Call) returns (j: nat)
    requires call in UndoOf(sent)
    ensures j < |sent| && sent[j].answer == Sent && call == Back(sent[j].call)
  {
    var places := UndoAre(sent);
    var m :| 0 <= m < |UndoOf(sent)| && UndoOf(sent)[m] == call;
    assert places[m] in places;
    j := places[m];
  }

  /** A refused call is the last one, and is made for the target the batch failed at. */
  lemma LastAsked(change: Change, assignments: map<string, string>, cause: Cause, sent: seq<Delivery>, calls: seq<Call>, places: seq<nat>)
    requires Within(cause, |change.targets|) && ForwardAnswers(cause, sent) && MembershipRollback.Calls(sent) == calls
    requires cause.DeliveryAt? ==> Asked(change, cause.index)
    requires calls == ForwardCalls(change, assignments, Tried(cause, |change.targets|))
    requires AsAsked(change, assignments, Tried(cause, |change.targets|), calls, places)
    ensures forall j :: 0 <= j < |sent| ==> (sent[j].answer == Refused <==> cause.DeliveryAt? && j == |sent| - 1)
    ensures cause.DeliveryAt? ==> places != [] && places[|places| - 1] == cause.index
  {
    hide ForwardCalls, Asked, AskedCall;
    assert |MembershipRollback.Calls(sent)| == |sent|;
    if cause.DeliveryAt? {
      assert forall j :: 0 <= j < |sent| - 1 ==> sent[..|sent| - 1][j] == sent[j];
      assert cause.index in places;
    }
  }

  /** A failed batch is restored exactly when no access failed while undoing it, no call was refused
      then, and what every agent had before that was really sent something is on record and still
      exists. All records and the file are then as before, and what was sent was undone in reverse. */
  lemma {:induction false} RestoredExactly(change: Change, outcome: Outcome, groups: map<string, Group>, pre: map<string, Agent>,
                                           file: map<string, Agent>, assignments: map<string, string>, agents: map<string, Agent>,
                                           snapshot: map<string, Agent>, log: seq<Delivery>, results: seq<Evidence>,
                                           configurations: set<string>, forward: seq<Fault>, undone: seq<Fault>)
    returns (sent: nat, back: seq<nat>)
    requires Achieved(change, outcome, groups, pre, file, assignments, agents, snapshot, log, results, configurations, forward, undone)
    requires outcome.AllRestored? || outcome.Incomplete?
    ensures sent <= |log| && exists places :: AsAsked(change, assignments, Tried(outcome.cause, |change.targets|), CallsOf(log[..sent]), places)
    ensures outcome.AllRestored? <==>
      && undone == [] && (forall d :: d in log[sent..] ==> d.answer != Refused)
      && forall j :: 0 <= j < sent && log[j].answer == Sent ==>
           log[j].call.previousConfigID != "" && log[j].call.previousConfigID in configurations
    ensures outcome.AllRestored? ==>
      && agents == pre && snapshot == pre
      && Undoes(log[..sent], CallsOf(log[sent..]), back)
  {
    FailureParts(change, outcome, groups, pre, file, assignments, agents, snapshot, log, results, configurations, forward, undone);
    hide Achieved;
    var k := Tried(outcome.cause, |change.targets|);
    assert k == Attempted(outcome.cause, |change.targets|) && k <= |change.targets|;
    var places := PlannedAre(change, assignments, k);
    sent := |ForwardCalls(change, assignments, k)|;
    hide AsAsked, ForwardCalls, TargetUids, Moves, ForwardAnswers;
    var first, rest := log[..sent], log[sent..];
    assert CallsOf(first) == MembershipRollback.Calls(first) && CallsOf(rest) == MembershipRollback.Calls(rest);
    assert forall j :: 0 <= j < sent ==> log[j] == first[j];
    back := UndoAre(first);
    hide Undoes;
    ClearedExactly(configurations, first, rest, undone);
  }

  lemma ClearedExactly(configurations: set<string>, sent: seq<Delivery>, undo: seq<Delivery>, faults: seq<Fault>)
    ensures Cleared(configurations, sent, undo, faults) <==>
      && faults == [] && (forall d :: d in undo ==> d.answer != Refused)
      && forall j :: 0 <= j < |sent| && sent[j].answer == Sent ==>
           sent[j].call.previousConfigID != "" && sent[j].call.previousConfigID in configurations
  {
    var places := UndoAre(sent);
    forall call | call in UndoOf(sent)
      ensures exists j :: 0 <= j < |sent| && sent[j].answer == Sent && call == Back(sent[j].call)
    {
      var j := UndoOne(sent, call);
    }
    forall j | 0 <= j < |sent| && sent[j].answer == Sent ensures Back(sent[j].call) in UndoOf(sent) {
      assert j in places;
      var m :| 0 <= m < |places| && places[m] == j;
      assert UndoOf(sent)[m] == Back(sent[j].call);
    }
    hide UndoOf;
  }

  // ---------- The records and the evidence ----------

  /** The agent as it is after its change: only its managed fields and the groups it is excluded from
      are touched. */
  ghost predicate ChangedAsAsked(change: Change, groups: map<string, Group>, before: Agent, after: Agent) {
    && after == before.(groupFields := after.groupFields, excludedGroups := after.excludedGroups)
    && match change.operation
       case Remove =>
         && after.groupFields == map[]
         && var rule := change.sourceGroupID != "" && change.sourceGroupID in groups && groups[change.sourceGroupID].rule != None;
         forall id :: id in after.excludedGroups <==> id in before.excludedGroups || (rule && id == groups[change.sourceGroupID].id)
       case _ =>
         && change.targetGroupID in groups && after.groupFields == groups[change.targetGroupID].selector
         && forall id :: id in after.excludedGroups <==> id in before.excludedGroups && id != groups[change.targetGroupID].id
  }

  lemma NewAgentAsAsked(change: Change, groups: map<string, Group>, agent: Agent)
    requires change.operation != Remove ==> change.targetGroupID in groups
    ensures ChangedAsAsked(change, groups, agent, change.NewAgent(groups, agent))
  {
    hide *;
    if change.operation == Remove {
      LeaverAsAsked(change, groups, agent);
    } else {
      JoinerAsAsked(change, groups, agent);
    }
  }

  lemma LeaverAsAsked(change: Change, groups: map<string, Group>, agent: Agent)
    requires change.operation == Remove
    ensures ChangedAsAsked(change, groups, agent, change.NewAgent(groups, agent))
  {
    hide RemovedFrom, ChangedAsAsked;
    if change.sourceGroupID != "" && change.sourceGroupID in groups {
      LeavingTouches(agent, groups[change.sourceGroupID]);
      LeftAsAsked(change, groups, agent, RemovedFrom(agent, groups[change.sourceGroupID]));
    } else {
      LeftAsAsked(change, groups, agent, agent.(groupFields := map[]));
    }
  }

  lemma LeftAsAsked(change: Change, groups: map<string, Group>, before: Agent, after: Agent)
    requires change.operation == Remove && after == before.(groupFields := map[], excludedGroups := after.excludedGroups)
    requires var rule := change.sourceGroupID != "" && change.sourceGroupID in groups && groups[change.sourceGroupID].rule != None;
      forall id :: id in after.excludedGroups <==> id in before.excludedGroups || (rule && id == groups[change.sourceGroupID].id)
    ensures ChangedAsAsked(change, groups, before, after)
  {
  }

  lemma JoinerAsAsked(change: Change, groups: map<string, Group>, agent: Agent)
    requires change.operation != Remove && change.targetGroupID in groups
    ensures ChangedAsAsked(change, groups, agent, change.NewAgent(groups, agent))
  {
    hide AssignedTo;
    JoiningTouches(agent, groups[change.targetGroupID]);
  }

  lemma LeavingTouches(agent: Agent, source: Group)
    ensures var after := RemovedFrom(agent, source);
      && after == agent.(groupFields := map[], excludedGroups := after.excludedGroups)
      && forall id :: id in after.excludedGroups <==> id in agent.excludedGroups || (source.rule != None && id == source.id)
  {
    Excluding(agent.excludedGroups, source.id);
    hide AppendUnique;
  }

  lemma JoiningTouches(agent: Agent, target: Group)
    ensures var after := AssignedTo(agent, target);
      && after == agent.(groupFields := target.selector, excludedGroups := after.excludedGroups)
      && forall id :: id in after.excludedGroups <==> id in agent.excludedGroups && id != target.id
  {
  }

  lemma Excluding(values: seq<string>, value: string)
    ensures forall id :: id in AppendUnique(values, value) <==> id in values || id == value
  {
  }

  /** After a batch that succeeded the record of every target is changed as asked, no other record is
      touched, the file holds all records, and the evidence of every target says completed, with the
      configuration it was sent. */
  lemma {:induction false} SuccessRecords(change: Change, groups: map<string, Group>, pre: map<string, Agent>, file: map<string, Agent>,
                                          assignments: map<string, string>, agents: map<string, Agent>, snapshot: map<string, Agent>,
                                          log: seq<Delivery>, results: seq<Evidence>, configurations: set<string>,
                                          forward: seq<Fault>, undone: seq<Fault>)
    requires Achieved(change, Success, groups, pre, file, assignments, agents, snapshot, log, results, configurations, forward, undone)
    ensures snapshot == agents && agents.Keys == pre.Keys
    ensures forall uid :: uid in pre ==>
      if exists i :: 0 <= i < |change.targets| && change.targets[i].uid == uid then ChangedAsAsked(change, groups, pre[uid], agents[uid])
      else agents[uid] == pre[uid]
    ensures |results| == |change.targets| && forall i :: 0 <= i < |results| ==>
      results[i] == Evidence(change.targets[i].uid, change.targets[i].name, Completed,
                             if Asked(change, i) then AskedCall(change, i, assignments).configID else "", "", [])
  {
    hide ForwardCalls, MembershipRollback.Calls, Fit, Available, ChangedAsAsked;
    forall uid | uid in pre
      ensures if exists i :: 0 <= i < |change.targets| && change.targets[i].uid == uid then ChangedAsAsked(change, groups, pre[uid], agents[uid])
              else agents[uid] == pre[uid]
    {
      NewAgentAsAsked(change, groups, pre[uid]);
    }
    forall i | 0 <= i < |results|
      ensures results[i] == Evidence(change.targets[i].uid, change.targets[i].name, Completed,
                                     if Asked(change, i) then AskedCall(change, i, assignments).configID else "", "", [])
    {
      PlannedIsAsked(change, assignments, i);
    }
  }

  /** The target is there and may be changed: an assignment takes a target that no enabled group has,
      the others take members of the source group; and a configuration to restore exists. */
  predicate MayChange(change: Change, i: nat, groups: map<string, Group>, configurations: set<string>, pre: map<string, Agent>)
    requires i < |change.targets|
  {
    var target := change.targets[i];
    && target.uid in pre
    && (match change.operation
        case Assign => forall id | id in groups :: !(groups[id].enabled && MatchesIdentity(groups[id], pre[target.uid]))
        case _ => change.sourceGroupID != "" && change.sourceGroupID in groups && MatchesIdentity(groups[change.sourceGroupID], pre[target.uid]))
    && (change.operation == Remove && change.policy == RestorePreGroup && target.previousConfigID != "" ==>
          target.previousConfigID in configurations)
  }

  /** The groups and the configuration that the change names exist, and every target may be changed. */
  predicate CanBeDone(change: Change, groups: map<string, Group>, configurations: set<string>, pre: map<string, Agent>) {
    && (change.sourceGroupID == "" || change.sourceGroupID in groups)
    && (change.operation == Remove ||
        (change.targetGroupID in groups && (change.targetConfigID == "" || change.targetConfigID in configurations)))
    && forall i :: 0 <= i < |change.targets| ==> MayChange(change, i, groups, configurations, pre)
  }

  lemma ReadyExactly(change: Change, groups: map<string, Group>, configurations: set<string>, pre: map<string, Agent>)
    ensures Ready(change, groups, configurations, pre) <==> CanBeDone(change, groups, configurations, pre)
  {
    hide MatchesIdentity;
    if Resolvable(change, groups, configurations) {
      forall i | 0 <= i < |change.targets|
        ensures Fit(change, i, groups, pre) && Available(change, i, configurations) <==> MayChange(change, i, groups, configurations, pre)
      {
      }
    }
    hide Fit, Available, MayChange;
  }

  /** A batch succeeds exactly when it can be done, no access fails and no call is refused. */
  lemma {:induction false} SucceedsExactly(change: Change, outcome: Outcome, groups: map<string, Group>, pre: map<string, Agent>,
                                           file: map<string, Agent>, assignments: map<string, string>, agents: map<string, Agent>,
                                           snapshot: map<string, Agent>, log: seq<Delivery>, results: seq<Evidence>,
                                           configurations: set<string>, forward: seq<Fault>, undone: seq<Fault>)
    requires Achieved(change, outcome, groups, pre, file, assignments, agents, snapshot, log, results, configurations, forward, undone)
    ensures outcome.Success? <==>
      && CanBeDone(change, groups, configurations, pre)
      && forward == [] && undone == [] && forall d :: d in log ==> d.answer != Refused
  {
    SuccessIff(change, outcome, groups, pre, file, assignments, agents, snapshot, log, results, configurations, forward, undone);
    ReadyExactly(change, groups, configurations, pre);
    hide Achieved, CanBeDone, Ready;
    assert NoneRefused(log) <==> forall d :: d in log ==> d.answer != Refused;
  }
}
