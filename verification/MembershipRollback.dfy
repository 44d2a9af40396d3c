/** The evidence of a membership batch and its compensation: each checkpoint records what was
    changed for one target, and the rollback undoes the changed prefix in reverse. */
module MembershipRollback {
  import opened Wrappers
  import opened Groups
  import opened Fleet

  datatype Operation = Assign | Remove | Move

  datatype RemovalPolicy = KeepCurrent | RestorePreGroup

  datatype Status = NotStarted | Completed | Failed | Restored | RollbackFailed

  datatype Problem =
    | AgentUnavailable | OtherGroup | LeftSource | AssignmentUnavailable
    | ConfigurationMissing | DeliveryRefused | WriteFailed | NoPreviousConfiguration

  datatype Target = Target(uid: string, name: string, previousConfigID: string)

  datatype Evidence = Evidence(uid: string, name: string, status: Status, configID: string,
                               rollbackConfigID: string, problems: seq<Problem>)

  datatype Checkpoint = Checkpoint(agent: Agent, original: Agent, previousConfigID: string,
                                   configurationChanged: bool, membershipChanged: bool)

  /** Where the batch failed after it had started to change Collectors. */
  datatype Cause = LookupAt(index: nat) | DeliveryAt(index: nat) | WriteAt(index: nat) | SnapshotFailed

  datatype Outcome = Success | Rejected | RejectedAt(index: nat) | AllRestored(cause: Cause) | Incomplete(cause: Cause)

  // ---------- Evidence ----------

  function IndexOf(results: seq<Evidence>, uid: string): (i: nat)
    ensures i <= |results|
    ensures i < |results| ==> results[i].uid == uid
    ensures forall k :: 0 <= k < i ==> results[k].uid != uid
  {
    if results == [] then 0
    else if results[0].uid == uid then 0
    else 1 + IndexOf(results[1..], uid)
  }

  function Marked(results: seq<Evidence>, index: int, status: Status, configID: string, problems: seq<Problem>): (marked: seq<Evidence>)
    ensures |marked| == |results|
    ensures forall i :: 0 <= i < |results| ==> marked[i].uid == results[i].uid && marked[i].name == results[i].name
  {
    if 0 <= index < |results| then
      var entry := results[index];
      results[index := entry.(status := status, configID := if configID != "" then configID else entry.configID, problems := problems)]
    else results
  }

  function WithRollback(results: seq<Evidence>, index: nat, configID: string): (marked: seq<Evidence>)
    ensures |marked| == |results|
    ensures forall i :: 0 <= i < |results| ==> marked[i].uid == results[i].uid && marked[i].name == results[i].name
  {
    if index < |results| then results[index := results[index].(rollbackConfigID := configID)] else results
  }

  class Change {
    const id: string
    const operation: Operation
    const sourceGroupID: string
    const targetGroupID: string
    const policy: RemovalPolicy
    const targetConfigID: string
    const targets: seq<Target>
    var results: seq<Evidence>

    constructor (id: string, operation: Operation, sourceGroupID: string, targetGroupID: string,
                 policy: RemovalPolicy, targetConfigID: string, targets: seq<Target>)
      ensures this.id == id && this.operation == operation && this.sourceGroupID == sourceGroupID
      ensures this.targetGroupID == targetGroupID && this.policy == policy
      ensures this.targetConfigID == targetConfigID && this.targets == targets && results == []
    {
      this.id, this.operation, this.sourceGroupID, this.targetGroupID := id, operation, sourceGroupID, targetGroupID;
      this.policy, this.targetConfigID, this.targets, this.results := policy, targetConfigID, targets, [];
    }

    predicate RestoresPrevious(index: nat)
      requires index < |targets|
    {
      operation == Remove && policy == RestorePreGroup && targets[index].previousConfigID != ""
    }

    /** The configuration sent to a target before its membership changes; none is the empty id. */
    function PlannedID(index: nat): string
      requires index < |targets|
    {
      if RestoresPrevious(index) then targets[index].previousConfigID
      else if operation != Remove then targetConfigID
      else ""
    }

    function PlannedCall(index: nat, previousConfigID: string): Call
      requires index < |targets|
    {
      Call(targets[index].uid, PlannedID(index), if RestoresPrevious(index) then Rollback else Deploy, previousConfigID, id)
    }

    function UndoCall(checkpoint: Checkpoint): Call {
      Call(checkpoint.original.uid, checkpoint.previousConfigID, Rollback, "", id)
    }

    /** The membership fields a target has once its change went through. */
    function NewAgent(groups: map<string, Group>, agent: Agent): Agent {
      if operation == Remove then
        if sourceGroupID != "" && sourceGroupID in groups then RemovedFrom(agent, groups[sourceGroupID])
        else agent.(groupFields := map[])
      else if targetGroupID in groups then AssignedTo(agent, groups[targetGroupID])
      else agent
    }

    method Mark(index: nat, status: Status, configID: string, problems: seq<Problem>)
      modifies this`results
      ensures results == Marked(old(results), index, status, configID, problems)
    {
      if index >= |results| {
        return;
      }
      var result := results[index].(status := status);
      if configID != "" {
        result := result.(configID := configID);
      }
      results := results[index := result.(problems := problems)];
    }

    method MarkByAgent(uid: string, status: Status, problems: seq<Problem>)
      modifies this`results
      ensures results == Marked(old(results), IndexOf(old(results), uid), status, "", problems)
    {
      var index := 0;
      while index < |results|
        invariant 0 <= index <= |results| && results == old(results)
        invariant forall k :: 0 <= k < index ==> results[k].uid != uid
      {
        if results[index].uid == uid {
          Mark(index, status, results[index].configID, problems);
          return;
        }
        index := index + 1;
      }
    }

    method SetRollbackConfiguration(uid: string, configID: string)
      modifies this`results
      ensures results == WithRollback(old(results), IndexOf(old(results), uid), configID)
    {
      var index := 0;
      while index < |results|
        invariant 0 <= index <= |results| && results == old(results)
        invariant forall k :: 0 <= k < index ==> results[k].uid != uid
      {
        if results[index].uid == uid {
          results := results[index := results[index].(rollbackConfigID := configID)];
          return;
        }
        index := index + 1;
      }
    }
  }

  // ---------- Undoing one target ----------

  /** A previous configuration is to be sent again. */
  predicate Resends(checkpoint: Checkpoint) {
    checkpoint.configurationChanged && checkpoint.previousConfigID != ""
  }

  /** What compensating one checkpoint did: every problem it reports has its cause, and without a
      cause the step was taken. */
  ghost predicate Compensated(change: Change, checkpoint: Checkpoint, configurations: set<string>, problems: seq<Problem>,
                              before: map<string, Agent>, after: map<string, Agent>, sent: seq<Delivery>, faults: seq<Fault>) {
    var uid, previous := checkpoint.original.uid, checkpoint.previousConfigID;
    && (forall fault :: fault in faults ==>
         (fault == AgentWrite(uid) && checkpoint.membershipChanged) || (fault == ConfigurationRead(previous) && Resends(checkpoint)))
    && (WriteFailed in problems <==> AgentWrite(uid) in faults)
    && (NoPreviousConfiguration in problems <==> checkpoint.configurationChanged && previous == "")
    && (ConfigurationMissing in problems <==>
         Resends(checkpoint) && (previous !in configurations || ConfigurationRead(previous) in faults))
    && (DeliveryRefused in problems <==> |sent| == 1 && sent[0].answer.Refused?)
    && after == (if checkpoint.membershipChanged && WriteFailed !in problems then before[uid := checkpoint.original] else before)
    && (Resends(checkpoint) && ConfigurationMissing !in problems <==> |sent| == 1)
    && |sent| <= 1
    && (|sent| == 1 ==> sent[0].call == change.UndoCall(checkpoint))
    && (forall p :: p in problems ==> p in [WriteFailed, NoPreviousConfiguration, ConfigurationMissing, DeliveryRefused])
  }

  /** Nothing stands in the way of compensating the checkpoint. */
  ghost predicate Unhindered(checkpoint: Checkpoint, configurations: set<string>, sent: seq<Delivery>, faults: seq<Fault>) {
    && faults == [] && NoneRefused(sent)
    && Recoverable(checkpoint, configurations)
  }

  /** The configuration that was replaced is on record and still exists. */
  predicate Recoverable(checkpoint: Checkpoint, configurations: set<string>) {
    checkpoint.configurationChanged ==> checkpoint.previousConfigID != "" && checkpoint.previousConfigID in configurations
  }

  /** Compensation reports no problem exactly when nothing stands in its way. */
  lemma ProblemFreeIff(change: Change, checkpoint: Checkpoint, configurations: set<string>, problems: seq<Problem>,
                       before: map<string, Agent>, after: map<string, Agent>, sent: seq<Delivery>, faults: seq<Fault>)
    requires Compensated(change, checkpoint, configurations, problems, before, after, sent, faults)
    ensures problems == [] <==> Unhindered(checkpoint, configurations, sent, faults)
  {
    if faults != [] { assert faults[0] in faults; }
    if problems != [] { assert problems[0] in problems; }
  }

  ghost predicate Restorable(agents: map<string, Agent>, original: Agent) {
    && Normal(original.uid, original)
    && original.uid in agents
    && agents[original.uid].displayName == original.displayName
  }

  method RestoreMembership(checkpoint: Checkpoint, fleet: Control) returns (problems: seq<Problem>)
    requires Restorable(fleet.agents, checkpoint.original)
    modifies fleet`agents, fleet`faults
    ensures problems == [] || (problems == [WriteFailed] && checkpoint.membershipChanged)
    ensures fleet.faults == if problems == [] then old(fleet.faults) else old(fleet.faults) + [AgentWrite(checkpoint.original.uid)]
    ensures fleet.agents == if checkpoint.membershipChanged && problems == []
                            then old(fleet.agents)[checkpoint.original.uid := checkpoint.original] else old(fleet.agents)
  {
    problems := [];
    if checkpoint.membershipChanged {
      var ok := fleet.Upsert(checkpoint.original);
      if !ok {
        problems := [WriteFailed];
      }
    }
  }

  /** Sends the previous configuration again, if there is one to send. */
  method ResendConfiguration(change: Change, checkpoint: Checkpoint, fleet: Control) returns (problems: seq<Problem>)
    modifies change`results, fleet`deliveries, fleet`faults
    ensures |fleet.deliveries| >= |old(fleet.deliveries)| && fleet.deliveries[..|old(fleet.deliveries)|] == old(fleet.deliveries)
    ensures fleet.faults == old(fleet.faults) ||
      (fleet.faults == old(fleet.faults) + [ConfigurationRead(checkpoint.previousConfigID)] && Resends(checkpoint))
    ensures var sent := fleet.deliveries[|old(fleet.deliveries)|..];
      var found := fleet.faults == old(fleet.faults) && checkpoint.previousConfigID in fleet.configurations;
      && |sent| == (if Resends(checkpoint) && found then 1 else 0)
      && (|sent| == 1 ==> sent[0].call == change.UndoCall(checkpoint))
      && problems == (if !checkpoint.configurationChanged then []
                      else if checkpoint.previousConfigID == "" then [NoPreviousConfiguration]
                      else if !found then [ConfigurationMissing]
                      else if sent[0].answer.Refused? then [DeliveryRefused] else [])
      && change.results == (if |sent| == 1
                            then WithRollback(old(change.results), IndexOf(old(change.results), checkpoint.original.uid), checkpoint.previousConfigID)
                            else old(change.results))
  {
    problems := [];
    if checkpoint.configurationChanged {
      if checkpoint.previousConfigID == "" {
        return [NoPreviousConfiguration];
      }
      var found := fleet.HasConfiguration(checkpoint.previousConfigID);
      if !found {
        return [ConfigurationMissing];
      }
      change.SetRollbackConfiguration(checkpoint.original.uid, checkpoint.previousConfigID);
      var answer := fleet.Deliver(change.UndoCall(checkpoint));
      if answer.Refused? {
        problems := [DeliveryRefused];
      }
    }
  }

  method Compensate(change: Change, checkpoint: Checkpoint, fleet: Control) returns (problems: seq<Problem>)
    requires Restorable(fleet.agents, checkpoint.original)
    modifies change`results, fleet`agents, fleet`deliveries, fleet`faults
    ensures |fleet.deliveries| >= |old(fleet.deliveries)|
    ensures fleet.deliveries[..|old(fleet.deliveries)|] == old(fleet.deliveries)
    ensures old(fleet.faults) <= fleet.faults
    ensures Compensated(change, checkpoint, fleet.configurations, problems, old(fleet.agents), fleet.agents,
                        fleet.deliveries[|old(fleet.deliveries)|..], fleet.faults[|old(fleet.faults)|..])
    ensures change.results ==
      if |fleet.deliveries| > |old(fleet.deliveries)|
      then WithRollback(old(change.results), IndexOf(old(change.results), checkpoint.original.uid), checkpoint.previousConfigID)
      else old(change.results)
  {
    hide *;
    ghost var f0, d0, a0 := fleet.faults, fleet.deliveries, fleet.agents;
    var first := RestoreMembership(checkpoint, fleet);
    ghost var f1 := fleet.faults;
    var second := ResendConfiguration(change, checkpoint, fleet);
    problems := first + second;
    assert f1[|f0|..] == if first == [] then [] else [AgentWrite(checkpoint.original.uid)];
    assert fleet.faults[|f1|..] == if fleet.faults == f1 then [] else [ConfigurationRead(checkpoint.previousConfigID)];
    assert fleet.faults[|f0|..] == f1[|f0|..] + fleet.faults[|f1|..];
    BothSteps(change, checkpoint, fleet.configurations, first, second, a0, fleet.agents, fleet.deliveries[|d0|..], f1[|f0|..], fleet.faults[|f1|..]);
  }

  /** The two steps together compensate the checkpoint. */
  lemma BothSteps(change: Change, checkpoint: Checkpoint, configurations: set<string>, first: seq<Problem>, second: seq<Problem>,
                  before: map<string, Agent>, after: map<string, Agent>, sent: seq<Delivery>, unwritten: seq<Fault>, unread: seq<Fault>)
    requires first == [] || (first == [WriteFailed] && checkpoint.membershipChanged)
    requires unwritten == if first == [] then [] else [AgentWrite(checkpoint.original.uid)]
    requires after == if checkpoint.membershipChanged && first == [] then before[checkpoint.original.uid := checkpoint.original] else before
    requires unread == [] || (unread == [ConfigurationRead(checkpoint.previousConfigID)] && Resends(checkpoint))
    requires var found := unread == [] && checkpoint.previousConfigID in configurations;
      && |sent| == (if Resends(checkpoint) && found then 1 else 0)
      && (|sent| == 1 ==> sent[0].call == change.UndoCall(checkpoint))
      && second == (if !checkpoint.configurationChanged then []
                    else if checkpoint.previousConfigID == "" then [NoPreviousConfiguration]
                    else if !found then [ConfigurationMissing]
                    else if sent[0].answer.Refused? then [DeliveryRefused] else [])
    ensures Compensated(change, checkpoint, configurations, first + second, before, after, sent, unwritten + unread)
  {
  }

  // ---------- Undoing the changed prefix ----------

  ghost function ChangedUids(checkpoints: seq<Checkpoint>): set<string> {
    set i | 0 <= i < |checkpoints| && checkpoints[i].membershipChanged :: checkpoints[i].original.uid
  }

  /** The calls that undo the configuration changes, the latest change first. */
  ghost function UndoCalls(change: Change, checkpoints: seq<Checkpoint>): seq<Call> {
    if checkpoints == [] then []
    else UndoCalls(change, checkpoints[1..]) + (if checkpoints[0].configurationChanged then [change.UndoCall(checkpoints[0])] else [])
  }

  ghost function Calls(deliveries: seq<Delivery>): seq<Call> {
    seq(|deliveries|, i requires 0 <= i < |deliveries| => deliveries[i].call)
  }

  lemma CallsAppend(sent: seq<Delivery>, more: seq<Delivery>)
    ensures Calls(sent + more) == Calls(sent) + Calls(more)
    ensures |more| == 1 ==> Calls(more) == [more[0].call]
  {
  }

  ghost predicate NoneRefused(deliveries: seq<Delivery>) {
    forall i :: 0 <= i < |deliveries| ==> !deliveries[i].answer.Refused?
  }

  ghost predicate Accepted(deliveries: seq<Delivery>, call: Call) {
    exists i :: 0 <= i < |deliveries| && deliveries[i].call == call && !deliveries[i].answer.Refused?
  }

  ghost predicate Distinct(results: seq<Evidence>) {
    forall i, j :: 0 <= i < j < |results| ==> results[i].uid != results[j].uid
  }

  ghost predicate SameSubjects(before: seq<Evidence>, after: seq<Evidence>) {
    |before| == |after| && forall i :: 0 <= i < |after| ==> after[i].uid == before[i].uid && after[i].name == before[i].name
  }

  /** The entry of an undone target tells the truth: it says restored exactly when nothing went
      wrong, and then the stored record is the original one and the recorded previous
      configuration was sent again and accepted. */
  ghost predicate TellsTruth(change: Change, checkpoint: Checkpoint, entry: Evidence,
                             agents: map<string, Agent>, sent: seq<Delivery>) {
    && entry.uid == checkpoint.original.uid
    && entry.status == (if entry.problems == [] then Restored else RollbackFailed)
    && (entry.status == Restored ==>
        && (checkpoint.membershipChanged ==> entry.uid in agents && agents[entry.uid] == checkpoint.original)
        && (checkpoint.configurationChanged ==>
            entry.rollbackConfigID == checkpoint.previousConfigID != "" && Accepted(sent, change.UndoCall(checkpoint))))
    && (NoPreviousConfiguration in entry.problems <==> checkpoint.configurationChanged && checkpoint.previousConfigID == "")
  }

  /** The problems an entry lists are the ones that occurred. */
  ghost predicate Blames(checkpoint: Checkpoint, entry: Evidence, configurations: set<string>, sent: seq<Delivery>, faults: seq<Fault>) {
    var uid, previous := checkpoint.original.uid, checkpoint.previousConfigID;
    && (WriteFailed in entry.problems <==> AgentWrite(uid) in faults)
    && (DeliveryRefused in entry.problems <==> RefusedFor(sent, uid))
    && (NoPreviousConfiguration in entry.problems <==> checkpoint.configurationChanged && previous == "")
    && (Resends(checkpoint) && previous !in configurations ==> ConfigurationMissing in entry.problems)
    && (ConfigurationMissing in entry.problems ==>
         Resends(checkpoint) && (previous !in configurations || ConfigurationRead(previous) in faults))
    && (forall p :: p in entry.problems ==> p in [WriteFailed, NoPreviousConfiguration, ConfigurationMissing, DeliveryRefused])
  }

  ghost predicate RefusedFor(sent: seq<Delivery>, uid: string) {
    exists d :: d in sent && d.call.uid == uid && d.answer.Refused?
  }

  ghost predicate Undoable(checkpoints: seq<Checkpoint>, results: seq<Evidence>, agents: map<string, Agent>, pre: map<string, Agent>) {
    && |checkpoints| <= |results|
    && forall i :: 0 <= i < |checkpoints| ==>
        && results[i].uid == checkpoints[i].original.uid
        && checkpoints[i].original.uid in pre && checkpoints[i].original == pre[checkpoints[i].original.uid]
        && Restorable(agents, checkpoints[i].original)
  }

  /** The stored records and the calls made once the given checkpoints are undone; `clean` when
      nothing went wrong on the way. */
  ghost predicate Reverted(change: Change, undone: seq<Checkpoint>, clean: bool, pre: map<string, Agent>,
                           before: map<string, Agent>, after: map<string, Agent>, sent: seq<Delivery>) {
    RecordsBack(undone, clean, pre, before, after) && CallsBack(change, undone, clean, sent)
  }

  ghost predicate RecordsBack(undone: seq<Checkpoint>, clean: bool, pre: map<string, Agent>, before: map<string, Agent>, after: map<string, Agent>) {
    && after.Keys == before.Keys
    && (forall uid :: uid in after ==> after[uid] == before[uid] || (uid in ChangedUids(undone) && uid in pre && after[uid] == pre[uid]))
    && (clean ==> forall uid :: uid in ChangedUids(undone) ==> uid in after && uid in pre && after[uid] == pre[uid])
  }

  ghost predicate CallsBack(change: Change, undone: seq<Checkpoint>, clean: bool, sent: seq<Delivery>) {
    && (forall d :: d in sent ==> d.call in UndoCalls(change, undone))
    && (clean ==> Calls(sent) == UndoCalls(change, undone) && NoneRefused(sent))
  }

  lemma ChangedUidsCons(checkpoint: Checkpoint, rest: seq<Checkpoint>)
    ensures ChangedUids([checkpoint] + rest) ==
            (if checkpoint.membershipChanged then {checkpoint.original.uid} else {}) + ChangedUids(rest)
  {
    var all := [checkpoint] + rest;
    forall i | 0 <= i < |rest| && rest[i].membershipChanged ensures rest[i].original.uid in ChangedUids(all) {
      assert all[i + 1] == rest[i];
    }
    if checkpoint.membershipChanged {
      assert all[0] == checkpoint;
    }
  }

  lemma RecordBack(change: Change, rest: seq<Checkpoint>, checkpoint: Checkpoint, clean: bool, problems: seq<Problem>, pre: map<string, Agent>,
                   before: map<string, Agent>, middle: map<string, Agent>, after: map<string, Agent>)
    requires RecordsBack(rest, clean, pre, before, middle)
    requires after == if checkpoint.membershipChanged && WriteFailed !in problems
                      then middle[checkpoint.original.uid := checkpoint.original] else middle
    requires checkpoint.original.uid in middle && checkpoint.original.uid in pre && checkpoint.original == pre[checkpoint.original.uid]
    ensures RecordsBack([checkpoint] + rest, clean && problems == [], pre, before, after)
  {
    ChangedUidsCons(checkpoint, rest);
    hide ChangedUids;
  }

  lemma CallBack(change: Change, rest: seq<Checkpoint>, checkpoint: Checkpoint, clean: bool, problems: seq<Problem>,
                 sent: seq<Delivery>, more: seq<Delivery>)
    requires CallsBack(change, rest, clean, sent) && |more| <= 1
    requires |more| == 1 ==> checkpoint.configurationChanged && more[0].call == change.UndoCall(checkpoint)
    requires problems == [] ==> (|more| == 1 <==> checkpoint.configurationChanged) && NoneRefused(more)
    ensures CallsBack(change, [checkpoint] + rest, clean && problems == [], sent + more)
  {
    var all := [checkpoint] + rest;
    assert all[1..] == rest;
    assert UndoCalls(change, all) == UndoCalls(change, rest) + if checkpoint.configurationChanged then [change.UndoCall(checkpoint)] else [];
    hide UndoCalls;
    forall d | d in sent + more ensures d.call in UndoCalls(change, all) {
      if d in more { assert d == more[0]; }
    }
    CallsAppend(sent, more);
    if problems == [] && more == [] { assert Calls(more) == []; }
  }

  lemma RevertOneMore(change: Change, rest: seq<Checkpoint>, checkpoint: Checkpoint, clean: bool, problems: seq<Problem>, pre: map<string, Agent>,
                      before: map<string, Agent>, middle: map<string, Agent>, after: map<string, Agent>,
                      sent: seq<Delivery>, more: seq<Delivery>, configurations: set<string>, faults: seq<Fault>)
    requires Reverted(change, rest, clean, pre, before, middle, sent)
    requires Compensated(change, checkpoint, configurations, problems, middle, after, more, faults)
    requires checkpoint.original.uid in middle && checkpoint.original.uid in pre && checkpoint.original == pre[checkpoint.original.uid]
    ensures Reverted(change, [checkpoint] + rest, clean && problems == [], pre, before, after, sent + more)
  {
    hide RecordsBack, CallsBack, UndoCalls, ChangedUids;
    RecordBack(change, rest, checkpoint, clean, problems, pre, before, middle, after);
    CallBack(change, rest, checkpoint, clean, problems, sent, more);
  }

  ghost predicate Truthful(change: Change, checkpoints: seq<Checkpoint>, from: nat, results: seq<Evidence>,
                           agents: map<string, Agent>, sent: seq<Delivery>) {
    && |checkpoints| <= |results|
    && forall i :: from <= i < |checkpoints| ==> TellsTruth(change, checkpoints[i], results[i], agents, sent)
  }

  lemma AcceptedIn(sent: seq<Delivery>, more: seq<Delivery>, call: Call)
    ensures Accepted(sent, call) || Accepted(more, call) ==> Accepted(sent + more, call)
  {
    if i :| 0 <= i < |sent| && sent[i].call == call && !sent[i].answer.Refused? {
      assert (sent + more)[i] == sent[i];
    }
    if i :| 0 <= i < |more| && more[i].call == call && !more[i].answer.Refused? {
      assert (sent + more)[|sent| + i] == more[i];
    }
  }

  lemma TruthStays(change: Change, checkpoints: seq<Checkpoint>, index: nat, problems: seq<Problem>,
                   before: seq<Evidence>, after: seq<Evidence>, agents: map<string, Agent>, next: map<string, Agent>,
                   sent: seq<Delivery>, more: seq<Delivery>, configurations: set<string>, faults: seq<Fault>)
    requires index < |checkpoints| && Truthful(change, checkpoints, index + 1, before, agents, sent)
    requires SameSubjects(before, after) && Distinct(after)
    requires forall i :: index < i < |after| ==> after[i] == before[i]
    requires Compensated(change, checkpoints[index], configurations, problems, agents, next, more, faults)
    requires TellsTruth(change, checkpoints[index], after[index], next, more)
    ensures Truthful(change, checkpoints, index, after, next, sent + more)
  {
    forall i | index <= i < |checkpoints| ensures TellsTruth(change, checkpoints[i], after[i], next, sent + more) {
      AcceptedIn(sent, more, change.UndoCall(checkpoints[i]));
      if i > index {
        assert after[i].uid != after[index].uid;
      }
    }
  }

  /** What went wrong so far concerns the targets already undone. */
  ghost predicate Concerns(checkpoints: seq<Checkpoint>, from: nat, sent: seq<Delivery>, faults: seq<Fault>) {
    && (forall fault :: fault in faults && fault.AgentWrite? ==> IsOf(checkpoints, from, fault.uid))
    && (forall d :: d in sent ==> IsOf(checkpoints, from, d.call.uid))
  }

  ghost predicate IsOf(checkpoints: seq<Checkpoint>, from: nat, uid: string) {
    exists i :: from <= i < |checkpoints| && checkpoints[i].original.uid == uid
  }

  ghost predicate AllBlamed(checkpoints: seq<Checkpoint>, from: nat, results: seq<Evidence>, configurations: set<string>,
                            sent: seq<Delivery>, faults: seq<Fault>) {
    && |checkpoints| <= |results|
    && forall i :: from <= i < |checkpoints| ==> Blames(checkpoints[i], results[i], configurations, sent, faults)
  }

  /** A further turn adds problems to its own target only. */
  lemma OthersUnaffected(checkpoint: Checkpoint, entry: Evidence, configurations: set<string>, sent: seq<Delivery>, more: seq<Delivery>,
                         faults: seq<Fault>, added: seq<Fault>)
    requires Blames(checkpoint, entry, configurations, sent, faults)
    requires AgentWrite(checkpoint.original.uid) !in added
    requires forall d :: d in more ==> d.call.uid != checkpoint.original.uid
    ensures Blames(checkpoint, entry, configurations, sent + more, faults + added)
  {
    RefusedAppend(sent, more, checkpoint.original.uid);
  }

  lemma RefusedAppend(sent: seq<Delivery>, more: seq<Delivery>, uid: string)
    ensures RefusedFor(sent + more, uid) <==> RefusedFor(sent, uid) || RefusedFor(more, uid)
  {
    if RefusedFor(sent, uid) {
      var d :| d in sent && d.call.uid == uid && d.answer.Refused?;
      assert d in sent + more;
    }
    if RefusedFor(more, uid) {
      var d :| d in more && d.call.uid == uid && d.answer.Refused?;
      assert d in sent + more;
    }
  }

  /** The problems of a turn are not hidden by those of the turns before. */
  lemma EarlierUnaffected(checkpoint: Checkpoint, entry: Evidence, configurations: set<string>, sent: seq<Delivery>, more: seq<Delivery>,
                          faults: seq<Fault>, added: seq<Fault>)
    requires Blames(checkpoint, entry, configurations, more, added)
    requires AgentWrite(checkpoint.original.uid) !in faults
    requires forall d :: d in sent ==> d.call.uid != checkpoint.original.uid
    ensures Blames(checkpoint, entry, configurations, sent + more, faults + added)
  {
    RefusedAppend(sent, more, checkpoint.original.uid);
  }

  lemma TurnConcerns(change: Change, checkpoints: seq<Checkpoint>, index: nat, problems: seq<Problem>, configurations: set<string>,
                     agents: map<string, Agent>, next: map<string, Agent>, sent: seq<Delivery>, more: seq<Delivery>,
                     faults: seq<Fault>, added: seq<Fault>)
    requires index < |checkpoints| && Concerns(checkpoints, index + 1, sent, faults)
    requires Compensated(change, checkpoints[index], configurations, problems, agents, next, more, added)
    ensures Concerns(checkpoints, index, sent + more, faults + added)
    ensures forall d :: d in more ==> d.call.uid == checkpoints[index].original.uid
    ensures forall fault :: fault in added && fault.AgentWrite? ==> fault.uid == checkpoints[index].original.uid
  {
    forall uid | IsOf(checkpoints, index + 1, uid) ensures IsOf(checkpoints, index, uid) {
    }
    assert IsOf(checkpoints, index, checkpoints[index].original.uid);
    forall d | d in more ensures d.call.uid == checkpoints[index].original.uid {
      assert d == more[0];
    }
  }

  lemma BlameStays(change: Change, checkpoints: seq<Checkpoint>, index: nat, problems: seq<Problem>, configurations: set<string>,
                   before: seq<Evidence>, after: seq<Evidence>, agents: map<string, Agent>, next: map<string, Agent>,
                   sent: seq<Delivery>, more: seq<Delivery>, faults: seq<Fault>, added: seq<Fault>)
    requires index < |checkpoints| <= |after| && Distinct(after)
    requires forall i :: 0 <= i < |checkpoints| ==> after[i].uid == checkpoints[i].original.uid
    requires AllBlamed(checkpoints, index + 1, before, configurations, sent, faults) && Concerns(checkpoints, index + 1, sent, faults)
    requires |before| == |after| && forall i :: index < i < |after| ==> after[i] == before[i]
    requires Compensated(change, checkpoints[index], configurations, problems, agents, next, more, added)
    requires Blames(checkpoints[index], after[index], configurations, more, added)
    ensures AllBlamed(checkpoints, index, after, configurations, sent + more, faults + added)
  {
    TurnConcerns(change, checkpoints, index, problems, configurations, agents, next, sent, more, faults, added);
    hide Blames, Compensated;
    var uid := checkpoints[index].original.uid;
    forall i | index < i < |checkpoints| ensures checkpoints[i].original.uid != uid {
      assert after[i].uid != after[index].uid;
    }
    forall i | index <= i < |checkpoints| ensures Blames(checkpoints[i], after[i], configurations, sent + more, faults + added) {
      if i > index {
        OthersUnaffected(checkpoints[i], after[i], configurations, sent, more, faults, added);
      } else {
        EarlierUnaffected(checkpoints[i], after[i], configurations, sent, more, faults, added);
      }
    }
  }

  /** Marking an undone target touches no other entry, when no target is listed twice. */
  lemma MarkedEntry(was: seq<Evidence>, uid: string, index: nat, sent: bool, configID: string, status: Status, problems: seq<Problem>)
    requires index < |was| && was[index].uid == uid
    ensures var noted := if sent then WithRollback(was, IndexOf(was, uid), configID) else was;
      var now := Marked(noted, IndexOf(noted, uid), status, "", problems);
      && SameSubjects(was, now)
      && (forall i :: index < i < |now| ==> now[i] == was[i])
      && (Distinct(now) ==>
           && (forall i :: 0 <= i < index ==> now[i] == was[i])
           && now[index].status == status && now[index].problems == problems
           && (sent ==> now[index].rollbackConfigID == configID))
  {
    var noted := if sent then WithRollback(was, IndexOf(was, uid), configID) else was;
    assert IndexOf(was, uid) <= index;
    assert noted[index].uid == uid;
    assert IndexOf(noted, uid) <= index;
  }

  lemma CompensatedTells(change: Change, checkpoint: Checkpoint, problems: seq<Problem>, entry: Evidence,
                         before: map<string, Agent>, after: map<string, Agent>, sent: seq<Delivery>,
                         configurations: set<string>, faults: seq<Fault>)
    requires Compensated(change, checkpoint, configurations, problems, before, after, sent, faults)
    requires entry.uid == checkpoint.original.uid && entry.problems == problems
    requires entry.status == if problems == [] then Restored else RollbackFailed
    requires |sent| == 1 ==> entry.rollbackConfigID == checkpoint.previousConfigID
    ensures TellsTruth(change, checkpoint, entry, after, sent)
    ensures Blames(checkpoint, entry, configurations, sent, faults)
  {
    assert RefusedFor(sent, entry.uid) <==> |sent| == 1 && sent[0].answer.Refused?;
    if problems == [] && checkpoint.configurationChanged {
      assert sent[0].call == change.UndoCall(checkpoint) && !sent[0].answer.Refused?;
    }
  }

  lemma StillUndoable(change: Change, checkpoints: seq<Checkpoint>, index: nat, problems: seq<Problem>,
                      was: seq<Evidence>, now: seq<Evidence>, before: map<string, Agent>, after: map<string, Agent>,
                      sent: seq<Delivery>, pre: map<string, Agent>, configurations: set<string>, faults: seq<Fault>)
    requires index < |checkpoints| && Undoable(checkpoints, was, before, pre) && SameSubjects(was, now)
    requires Compensated(change, checkpoints[index], configurations, problems, before, after, sent, faults)
    ensures Undoable(checkpoints, now, after, pre)
  {
    var original := checkpoints[index].original;
    assert after == before || after == before[original.uid := original];
    hide Compensated;
    forall i | 0 <= i < |checkpoints| ensures Restorable(after, checkpoints[i].original) {
      assert Restorable(before, checkpoints[i].original);
    }
  }

  method UndoOne(change: Change, checkpoints: seq<Checkpoint>, index: nat, fleet: Control, ghost pre: map<string, Agent>)
    returns (problems: seq<Problem>)
    requires index < |checkpoints| && Undoable(checkpoints, change.results, fleet.agents, pre)
    modifies change`results, fleet`agents, fleet`deliveries, fleet`faults
    ensures Undoable(checkpoints, change.results, fleet.agents, pre)
    ensures |fleet.deliveries| >= |old(fleet.deliveries)|
    ensures fleet.deliveries[..|old(fleet.deliveries)|] == old(fleet.deliveries)
    ensures old(fleet.faults) <= fleet.faults
    ensures Compensated(change, checkpoints[index], fleet.configurations, problems, old(fleet.agents), fleet.agents,
                        fleet.deliveries[|old(fleet.deliveries)|..], fleet.faults[|old(fleet.faults)|..])
    ensures SameSubjects(old(change.results), change.results)
    ensures forall i :: index < i < |change.results| ==> change.results[i] == old(change.results)[i]
    ensures Distinct(change.results) ==> forall i :: 0 <= i < index ==> change.results[i] == old(change.results)[i]
    ensures Distinct(change.results) ==> TellsTruth(change, checkpoints[index], change.results[index], fleet.agents,
                                                    fleet.deliveries[|old(fleet.deliveries)|..])
    ensures Distinct(change.results) ==> Blames(checkpoints[index], change.results[index], fleet.configurations,
                                                fleet.deliveries[|old(fleet.deliveries)|..], fleet.faults[|old(fleet.faults)|..])
    ensures Distinct(change.results) ==>
      && change.results[index].problems == problems
      && change.results[index].status == if problems == [] then Restored else RollbackFailed
  {
    hide Compensated, TellsTruth, Blames, SameSubjects, Distinct, Marked, WithRollback;
    var checkpoint := checkpoints[index];
    ghost var was, before, d0, f0 := change.results, fleet.agents, fleet.deliveries, fleet.faults;
    problems := Compensate(change, checkpoint, fleet);
    ghost var sent, faults := fleet.deliveries[|d0|..], fleet.faults[|f0|..];
    var status := if problems == [] then Restored else RollbackFailed;
    MarkedEntry(was, checkpoint.original.uid, index, |fleet.deliveries| > |d0|, checkpoint.previousConfigID, status, problems);
    change.MarkByAgent(checkpoint.original.uid, status, problems);
    StillUndoable(change, checkpoints, index, problems, was, change.results, before, fleet.agents, sent, pre, fleet.configurations, faults);
    if Distinct(change.results) {
      SubjectAt(was, change.results, index);
      CompensatedTells(change, checkpoint, problems, change.results[index], before, fleet.agents, sent, fleet.configurations, faults);
    }
  }

  lemma SubjectAt(was: seq<Evidence>, now: seq<Evidence>, i: nat)
    requires SameSubjects(was, now) && i < |was|
    ensures i < |now| && now[i].uid == was[i].uid
  {
  }

  /** Nothing stands in the way of the checkpoints from here on. */
  ghost predicate AllClear(checkpoints: seq<Checkpoint>, from: nat, configurations: set<string>, sent: seq<Delivery>, faults: seq<Fault>) {
    && faults == [] && NoneRefused(sent)
    && forall i :: from <= i < |checkpoints| ==> Recoverable(checkpoints[i], configurations)
  }

  lemma ClearStep(checkpoints: seq<Checkpoint>, index: nat, configurations: set<string>, sent: seq<Delivery>, more: seq<Delivery>,
                  faults: seq<Fault>, added: seq<Fault>)
    requires index < |checkpoints|
    ensures AllClear(checkpoints, index, configurations, sent + more, faults + added) <==>
      && AllClear(checkpoints, index + 1, configurations, sent, faults)
      && Unhindered(checkpoints[index], configurations, more, added)
  {
    hide Recoverable;
    if NoneRefused(sent + more) {
      forall i | 0 <= i < |sent| ensures !sent[i].answer.Refused? { assert (sent + more)[i] == sent[i]; }
      forall i | 0 <= i < |more| ensures !more[i].answer.Refused? { assert (sent + more)[|sent| + i] == more[i]; }
    }
  }

  ghost predicate Progress(change: Change, checkpoints: seq<Checkpoint>, index: nat, clean: bool, pre: map<string, Agent>, configurations: set<string>,
                           agents0: map<string, Agent>, deliveries0: seq<Delivery>, faults0: seq<Fault>, results0: seq<Evidence>,
                           agents: map<string, Agent>, deliveries: seq<Delivery>, faults: seq<Fault>, results: seq<Evidence>) {
    && index <= |checkpoints|
    && Undoable(checkpoints, results, agents, pre)
    && |deliveries0| <= |deliveries| && deliveries[..|deliveries0|] == deliveries0
    && faults0 <= faults
    && Reverted(change, checkpoints[index..], clean, pre, agents0, agents, deliveries[|deliveries0|..])
    && (clean <==> AllClear(checkpoints, index, configurations, deliveries[|deliveries0|..], faults[|faults0|..]))
    && Concerns(checkpoints, index, deliveries[|deliveries0|..], faults[|faults0|..])
    && SameSubjects(results0, results)
    && (forall i :: |checkpoints| <= i < |results| ==> results[i] == results0[i])
    && (Distinct(results) ==>
        && Truthful(change, checkpoints, index, results, agents, deliveries[|deliveries0|..])
        && AllBlamed(checkpoints, index, results, configurations, deliveries[|deliveries0|..], faults[|faults0|..])
        && (clean <==> forall i :: index <= i < |checkpoints| ==> results[i].status == Restored))
  }

  method UndoNext(change: Change, checkpoints: seq<Checkpoint>, index: nat, fleet: Control, ghost pre: map<string, Agent>,
                  ghost clean: bool, ghost agents0: map<string, Agent>, ghost deliveries0: seq<Delivery>, ghost faults0: seq<Fault>,
                  ghost results0: seq<Evidence>)
    returns (problems: seq<Problem>)
    requires index < |checkpoints|
    requires Progress(change, checkpoints, index + 1, clean, pre, fleet.configurations, agents0, deliveries0, faults0, results0,
                      fleet.agents, fleet.deliveries, fleet.faults, change.results)
    modifies change`results, fleet`agents, fleet`deliveries, fleet`faults
    ensures Progress(change, checkpoints, index, clean && problems == [], pre, fleet.configurations, agents0, deliveries0, faults0, results0,
                     fleet.agents, fleet.deliveries, fleet.faults, change.results)
  {
    hide Reverted, Truthful, TellsTruth, Compensated, SameSubjects, Undoable, Distinct, AllClear, AllBlamed, Concerns, Blames, Unhindered;
    ghost var d1, a1, r1, f1 := fleet.deliveries, fleet.agents, change.results, fleet.faults;
    problems := UndoOne(change, checkpoints, index, fleet, pre);
    ghost var more, added := fleet.deliveries[|d1|..], fleet.faults[|f1|..];
    ghost var sent, faults := d1[|deliveries0|..], f1[|faults0|..];
    assert fleet.deliveries[|deliveries0|..] == sent + more;
    assert fleet.deliveries[..|deliveries0|] == deliveries0;
    assert fleet.faults[|faults0|..] == faults + added;
    assert checkpoints[index..] == [checkpoints[index]] + checkpoints[index + 1..];
    UndoableAt(checkpoints, r1, a1, pre, index);
    UndoableSubjects(checkpoints, change.results, fleet.agents, pre);
    RevertOneMore(change, checkpoints[index + 1..], checkpoints[index], clean, problems, pre, agents0, a1, fleet.agents, sent, more,
                  fleet.configurations, added);
    ProblemFreeIff(change, checkpoints[index], fleet.configurations, problems, a1, fleet.agents, more, added);
    ClearStep(checkpoints, index, fleet.configurations, sent, more, faults, added);
    TurnConcerns(change, checkpoints, index, problems, fleet.configurations, a1, fleet.agents, sent, more, faults, added);
    SubjectsStay(results0, r1, change.results);
    if Distinct(change.results) {
      TruthStays(change, checkpoints, index, problems, r1, change.results, a1, fleet.agents, sent, more, fleet.configurations, added);
      BlameStays(change, checkpoints, index, problems, fleet.configurations, r1, change.results, a1, fleet.agents, sent, more, faults, added);
      assert forall i :: index < i < |checkpoints| ==> change.results[i] == r1[i];
    }
  }

  lemma UndoableAt(checkpoints: seq<Checkpoint>, results: seq<Evidence>, agents: map<string, Agent>, pre: map<string, Agent>, index: nat)
    requires Undoable(checkpoints, results, agents, pre) && index < |checkpoints|
    ensures |checkpoints| <= |results| && checkpoints[index].original.uid in agents
    ensures checkpoints[index].original.uid in pre && checkpoints[index].original == pre[checkpoints[index].original.uid]
  {
  }

  lemma UndoableSubjects(checkpoints: seq<Checkpoint>, results: seq<Evidence>, agents: map<string, Agent>, pre: map<string, Agent>)
    requires Undoable(checkpoints, results, agents, pre)
    ensures |checkpoints| <= |results| && forall i :: 0 <= i < |checkpoints| ==> results[i].uid == checkpoints[i].original.uid
  {
  }

  lemma SubjectsStay(first: seq<Evidence>, middle: seq<Evidence>, last: seq<Evidence>)
    requires SameSubjects(first, middle) && SameSubjects(middle, last)
    ensures SameSubjects(first, last) && |middle| == |last|
    ensures Distinct(last) ==> Distinct(middle)
  {
  }

  /** The outcome of a rollback: stored records, calls and evidence. */
  ghost predicate RolledBack(change: Change, checkpoints: seq<Checkpoint>, restored: bool, pre: map<string, Agent>,
                             before: map<string, Agent>, after: map<string, Agent>, undo: seq<Delivery>,
                             was: seq<Evidence>, now: seq<Evidence>, configurations: set<string>, faults: seq<Fault>) {
    && Reverted(change, checkpoints, restored, pre, before, after, undo)
    && (restored <==> AllClear(checkpoints, 0, configurations, undo, faults))
    && |checkpoints| <= |now| && SameSubjects(was, now)
    && (forall i :: |checkpoints| <= i < |now| ==> now[i] == was[i])
    && (Distinct(now) ==>
        && Truthful(change, checkpoints, 0, now, after, undo)
        && AllBlamed(checkpoints, 0, now, configurations, undo, faults)
        && (restored ==> forall i :: 0 <= i < |checkpoints| ==> now[i].status == Restored))
  }

  lemma ProgressStarts(change: Change, checkpoints: seq<Checkpoint>, pre: map<string, Agent>, configurations: set<string>,
                       agents: map<string, Agent>, deliveries: seq<Delivery>, faults: seq<Fault>, results: seq<Evidence>)
    requires Undoable(checkpoints, results, agents, pre)
    ensures Progress(change, checkpoints, |checkpoints|, true, pre, configurations, agents, deliveries, faults, results,
                     agents, deliveries, faults, results)
  {
    assert deliveries[|deliveries|..] == [] && checkpoints[|checkpoints|..] == [] && faults[|faults|..] == [];
  }

  /** The rollback ends with the snapshot, whose failure is one more fault. */
  lemma ProgressEnds(change: Change, checkpoints: seq<Checkpoint>, clean: bool, pre: map<string, Agent>, configurations: set<string>,
                     agents0: map<string, Agent>, deliveries0: seq<Delivery>, faults0: seq<Fault>, results0: seq<Evidence>,
                     agents: map<string, Agent>, deliveries: seq<Delivery>, faults: seq<Fault>, results: seq<Evidence>, saved: bool)
    requires Progress(change, checkpoints, 0, clean, pre, configurations, agents0, deliveries0, faults0, results0, agents, deliveries, faults, results)
    ensures |deliveries0| <= |deliveries| && deliveries[..|deliveries0|] == deliveries0 && |checkpoints| <= |results|
    ensures var all := if saved then faults else faults + [SnapshotWrite];
      && faults0 <= all
      && RolledBack(change, checkpoints, clean && saved, pre, agents0, agents, deliveries[|deliveries0|..], results0, results,
                    configurations, all[|faults0|..])
    ensures Distinct(results) ==> (clean <==> forall i :: 0 <= i < |checkpoints| ==> results[i].status == Restored)
  {
    assert checkpoints[0..] == checkpoints;
    var undo, since := deliveries[|deliveries0|..], faults[|faults0|..];
    if !saved {
      assert (faults + [SnapshotWrite])[|faults0|..] == since + [SnapshotWrite];
      if Distinct(results) { SnapshotBlamesNobody(checkpoints, results, configurations, undo, since); }
    }
    hide TellsTruth, RecordsBack, CallsBack, NoneRefused, Blames, Recoverable, Undoable;
  }

  lemma SnapshotBlamesNobody(checkpoints: seq<Checkpoint>, results: seq<Evidence>, configurations: set<string>, sent: seq<Delivery>, faults: seq<Fault>)
    requires AllBlamed(checkpoints, 0, results, configurations, sent, faults)
    ensures AllBlamed(checkpoints, 0, results, configurations, sent, faults + [SnapshotWrite])
  {
    hide Blames;
    forall i | 0 <= i < |checkpoints| ensures Blames(checkpoints[i], results[i], configurations, sent, faults + [SnapshotWrite]) {
      assert sent + [] == sent;
      OthersUnaffected(checkpoints[i], results[i], configurations, sent, [], faults, [SnapshotWrite]);
    }
  }

  method RollbackBatch(change: Change, checkpoints: seq<Checkpoint>, fleet: Control, cause: Cause, ghost pre: map<string, Agent>)
    returns (outcome: Outcome)
    requires Undoable(checkpoints, change.results, fleet.agents, pre)
    modifies change`results, fleet`agents, fleet`deliveries, fleet`snapshot, fleet`faults
    ensures outcome == AllRestored(cause) || outcome == Incomplete(cause)
    ensures |fleet.deliveries| >= |old(fleet.deliveries)|
    ensures fleet.deliveries[..|old(fleet.deliveries)|] == old(fleet.deliveries)
    ensures old(fleet.faults) <= fleet.faults
    ensures RolledBack(change, checkpoints, outcome.AllRestored?, pre, old(fleet.agents), fleet.agents,
                       fleet.deliveries[|old(fleet.deliveries)|..], old(change.results), change.results,
                       fleet.configurations, fleet.faults[|old(fleet.faults)|..])
    ensures fleet.snapshot == fleet.agents || (fleet.snapshot == old(fleet.snapshot) && outcome.Incomplete?)
    ensures Distinct(change.results) && outcome.Incomplete? && (forall i :: 0 <= i < |checkpoints| ==> change.results[i].status == Restored)
      ==> fleet.snapshot == old(fleet.snapshot)
  {
    hide Progress, RolledBack, Undoable;
    var failures := 0;
    ghost var d0, a0, r0, f0 := fleet.deliveries, fleet.agents, change.results, fleet.faults;
    var index := |checkpoints|;
    ProgressStarts(change, checkpoints, pre, fleet.configurations, a0, d0, f0, r0);
    while index > 0
      invariant 0 <= index && failures >= 0 && fleet.snapshot == old(fleet.snapshot)
      invariant index <= |checkpoints|
      invariant Progress(change, checkpoints, index, failures == 0, pre, fleet.configurations, a0, d0, f0, r0,
                         fleet.agents, fleet.deliveries, fleet.faults, change.results)
    {
      index := index - 1;
      var problems := UndoNext(change, checkpoints, index, fleet, pre, failures == 0, a0, d0, f0, r0);
      if problems != [] {
        failures := failures + 1;
      }
    }
    ghost var undone := fleet.faults;
    var saved := fleet.SaveSnapshot();
    ProgressEnds(change, checkpoints, failures == 0, pre, fleet.configurations, a0, d0, f0, r0,
                 fleet.agents, fleet.deliveries, undone, change.results, saved);
    if !saved {
      failures := failures + 1;
    }
    outcome := if failures == 0 then AllRestored(cause) else Incomplete(cause);
  }
}
