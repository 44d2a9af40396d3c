/** A membership batch whose calls are answered by real deliveries: what its rollback can undo. */
module BatchDelivery {
  import opened Wrappers
  import opened Groups
  import opened Fleet
  import opened MembershipRollback
  import opened MembershipBatch
  import D = Delivery
  import R = DeliveryRuns
  import U = UndoRuns

  // ---------- Calls as orders ----------

  function ActionOf(action: Action): D.Action {
    if action == Deploy then D.Deploy else D.Rollback
  }

  function OrderOf(s: D.State, call: Call): D.Order
    requires call.configID in s.configs
  {
    D.Order(call.uid, s.configs[call.configID], ActionOf(call.action), call.previousConfigID, call.requestID)
  }

  /** All stores work; whether the agent can be reached is up to the agent. */
  function Working(send: D.SendResult): D.Calls {
    D.Calls(true, true, true, true, send, true, true)
  }

  function AnswerOf(result: D.Result): Answer {
    match result
    case Delivered => Sent
    case AlreadyCurrent => Answer.AlreadyCurrent
    case _ => Refused
  }

  function Delivered(s: D.State, call: Call, sends: string -> D.SendResult): (D.State, D.Result)
    requires call.configID in s.configs
  {
    D.Deliver(s, OrderOf(s, call), Working(sends(call.uid)))
  }

  /** The log of a batch between two reports: every call is answered by a delivery. */
  ghost predicate Answered(s: D.State, log: seq<Delivery>, sends: string -> D.SendResult)
    decreases |log|
  {
    log == [] ||
    (&& log[0].call.configID in s.configs
     && log[0].answer == AnswerOf(Delivered(s, log[0].call, sends).1)
     && Answered(Delivered(s, log[0].call, sends).0, log[1..], sends))
  }

  // ---------- What was sent stays in flight ----------

  /** The agent's newest delivery is in flight, and nothing is shown as applied to it. */
  ghost predicate Occupied(s: D.State, uid: string) {
    R.Past(s) && D.Busy(s, uid) && forall hash :: !U.Shown(s, uid, hash)
  }

  lemma SentOccupies(s: D.State, call: Call, sends: string -> D.SendResult)
    requires R.Past(s) && call.configID in s.configs && Delivered(s, call, sends).1 == D.Delivered
    ensures Occupied(Delivered(s, call, sends).0, call.uid)
  {
    R.DeliveredIsLatest(s, OrderOf(s, call), Working(sends(call.uid)));
    R.DeliverKeepsPast(s, OrderOf(s, call), Working(sends(call.uid)));
  }

  lemma OccupiedRefuses(s: D.State, call: Call, sends: string -> D.SendResult)
    requires call.configID in s.configs && Occupied(s, call.uid)
    ensures AnswerOf(Delivered(s, call, sends).1) == Refused
  {
    assert !U.Shown(s, call.uid, s.configs[call.configID].hash);
  }

  lemma StaysOccupied(s: D.State, call: Call, sends: string -> D.SendResult, uid: string)
    requires call.configID in s.configs && Occupied(s, uid)
    ensures Occupied(Delivered(s, call, sends).0, uid)
  {
    var order, calls := OrderOf(s, call), Working(sends(call.uid));
    var n := D.Latest(s.deployments, uid, None).value;
    R.DeliverKeepsPast(s, order, calls);
    U.DeliverAwaits(s, order, calls, uid, n);
    var t := D.Deliver(s, order, calls).0;
    assert U.Awaits(t, uid, n) && D.Busy(t, uid);
    assert Delivered(s, call, sends).0 == t;
    hide Delivered, OrderOf, Working;
    forall hash ensures !U.Shown(t, uid, hash) { U.DeliverHides(s, order, calls, uid, hash); }
  }

  lemma {:induction false} OccupiedToTheEnd(s: D.State, log: seq<Delivery>, sends: string -> D.SendResult, uid: string, j: nat)
    requires Answered(s, log, sends) && Occupied(s, uid) && j < |log| && log[j].call.uid == uid
    ensures log[j].answer.Refused?
    decreases |log|
  {
    hide Occupied, Delivered;
    if j == 0 {
      OccupiedRefuses(s, log[0].call, sends);
    } else {
      StaysOccupied(s, log[0].call, sends, uid);
      OccupiedToTheEnd(Delivered(s, log[0].call, sends).0, log[1..], sends, uid, j - 1);
    }
  }

  lemma FirstStep(s: D.State, log: seq<Delivery>, sends: string -> D.SendResult)
    requires Answered(s, log, sends) && R.Past(s) && log != []
    ensures log[0].call.configID in s.configs
    ensures var t := Delivered(s, log[0].call, sends).0; Answered(t, log[1..], sends) && R.Past(t)
    ensures log[0].answer.Sent? ==> Delivered(s, log[0].call, sends).1 == D.Delivered
  {
    R.DeliverKeepsPast(s, OrderOf(s, log[0].call), Working(sends(log[0].call.uid)));
  }

  /** Whatever is sent to an agent that was sent something before is refused. */
  lemma {:induction false} SecondIsRefused(s: D.State, log: seq<Delivery>, sends: string -> D.SendResult, i: nat, j: nat)
    requires Answered(s, log, sends) && R.Past(s)
    requires i < j < |log| && log[i].answer.Sent? && log[j].call.uid == log[i].call.uid
    ensures log[j].answer.Refused?
    decreases |log|
  {
    hide *;
    FirstStep(s, log, sends);
    var t := Delivered(s, log[0].call, sends).0;
    if i == 0 {
      SentOccupies(s, log[0].call, sends);
      OccupiedToTheEnd(t, log[1..], sends, log[0].call.uid, j - 1);
    } else {
      SecondIsRefused(t, log[1..], sends, i - 1, j - 1);
    }
  }

  // ---------- What the rollback can undo ----------

  /** The calls of the forward pass of a failed batch. */
  ghost function Forward(change: Change, assignments: map<string, string>, cause: Cause, log: seq<Delivery>): seq<Delivery>
    requires Within(cause, |change.targets|)
    requires |ForwardCalls(change, assignments, Attempted(cause, |change.targets|))| <= |log|
  {
    log[..|ForwardCalls(change, assignments, Attempted(cause, |change.targets|))|]
  }

  lemma CallAt(deliveries: seq<Delivery>, call: Call) returns (i: nat)
    requires call in MembershipRollback.Calls(deliveries)
    ensures i < |deliveries| && deliveries[i].call == call
  {
    i :| i < |deliveries| && MembershipRollback.Calls(deliveries)[i] == call;
  }

  lemma SomeCall(deliveries: seq<Delivery>, calls: seq<Call>)
    requires deliveries != [] && forall d :: d in deliveries ==> d.call in calls
    ensures calls != []
  {
    assert deliveries[0] in deliveries;
  }

  /** With real deliveries, working stores and no report in between, a failed batch is restored
      completely exactly when it had really sent nothing: nothing that was sent can be undone. */
  lemma {:induction false} RestoredIffNothingSent(change: Change, cause: Cause, restored: bool, groups: map<string, Group>, pre: map<string, Agent>,
                                                  assignments: map<string, string>, agents: map<string, Agent>, snapshot: map<string, Agent>,
                                                  log: seq<Delivery>, configurations: set<string>, faults: seq<Fault>,
                                                  s: D.State, sends: string -> D.SendResult)
    requires Settled(change, cause, restored, groups, pre, assignments, agents, snapshot, log, configurations, faults)
    requires faults == [] && Answered(s, log, sends) && R.Past(s)
    ensures restored <==> UndoOf(Forward(change, assignments, cause, log)) == []
  {
    hide TargetUids, ForwardAnswers, Answered;
    var sent := Forward(change, assignments, cause, log);
    var undo := log[|sent|..];
    if UndoOf(sent) == [] {
      if undo != [] { SomeCall(undo, UndoOf(sent)); }
    } else if restored {
      var call := UndoOf(sent)[0];
      var d := UndoneWasSent(sent, call);
      var i: nat :| i < |sent| && sent[i] == d;
      var j := CallAt(undo, call);
      assert log[i] == d && log[|sent| + j] == undo[j];
      SecondIsRefused(s, log, sends, i, |sent| + j);
    }
  }

  /** The same for the outcome of a batch. */
  lemma RealBatchRestoredIff(change: Change, outcome: Outcome, groups: map<string, Group>, pre: map<string, Agent>, file: map<string, Agent>,
                             assignments: map<string, string>, agents: map<string, Agent>, snapshot: map<string, Agent>,
                             log: seq<Delivery>, results: seq<Evidence>, configurations: set<string>, forward: seq<Fault>, undone: seq<Fault>,
                             s: D.State, sends: string -> D.SendResult)
    requires Achieved(change, outcome, groups, pre, file, assignments, agents, snapshot, log, results, configurations, forward, undone)
    requires outcome.AllRestored? || outcome.Incomplete?
    requires undone == [] && Answered(s, log, sends) && R.Past(s)
    ensures Within(outcome.cause, |change.targets|)
    ensures |ForwardCalls(change, assignments, Attempted(outcome.cause, |change.targets|))| <= |log|
    ensures outcome.AllRestored? <==> UndoOf(Forward(change, assignments, outcome.cause, log)) == []
  {
    hide Settled, Answered, Evidenced, ForwardFaulted, Resolvable, Fit;
    SettledBounds(change, outcome.cause, outcome.AllRestored?, groups, pre, assignments, agents, snapshot, log, configurations, undone);
    RestoredIffNothingSent(change, outcome.cause, outcome.AllRestored?, groups, pre, assignments, agents, snapshot, log, configurations, undone, s, sends);
  }

  lemma SettledBounds(change: Change, cause: Cause, restored: bool, groups: map<string, Group>, pre: map<string, Agent>, assignments: map<string, string>,
                      agents: map<string, Agent>, snapshot: map<string, Agent>, log: seq<Delivery>,
                      configurations: set<string>, faults: seq<Fault>)
    requires Settled(change, cause, restored, groups, pre, assignments, agents, snapshot, log, configurations, faults)
    ensures Within(cause, |change.targets|)
    ensures |ForwardCalls(change, assignments, Attempted(cause, |change.targets|))| <= |log|
    ensures ForwardAnswers(cause, Forward(change, assignments, cause, log))
    ensures MembershipRollback.Calls(Forward(change, assignments, cause, log)) == ForwardCalls(change, assignments, Attempted(cause, |change.targets|))
  {
  }

  // ---------- A batch of two targets that ends incomplete ----------

  /** Agent "a" shows "old" as applied and accepts what it is sent. Agent "b" was never sent anything
      and does not accept remote configurations. */
  ghost predicate TwoAgents(s: D.State, sends: string -> D.SendResult) {
    && s == D.State([], [D.Assignment("a", "old", "O", D.Applied, 0)],
                    map["old" := D.Configuration("old", "O"), "new" := D.Configuration("new", "N")], 1)
    && sends("a") == D.SendOk && sends("b") == D.SendUnsupported
  }

  /** Both agents are to get "new". */
  ghost predicate TwoTargets(change: Change) {
    && change.operation != Remove && change.targetConfigID == "new"
    && change.targets == [Target("a", "A", ""), Target("b", "B", "")]
  }

  function ToA(change: Change): Call {
    Call("a", "new", Deploy, "old", change.id)
  }

  function ToB(change: Change): Call {
    Call("b", "new", Deploy, "", change.id)
  }

  lemma {:induction false} TwoForwardCalls(change: Change)
    requires TwoTargets(change)
    ensures |change.targets| == 2
    ensures var assignments := map["a" := "old"];
      && ForwardCalls(change, assignments, 0) == [] && ForwardCalls(change, assignments, 1) == [ToA(change)]
      && ForwardCalls(change, assignments, 2) == [ToA(change), ToB(change)]
  {
    assert change.PlannedID(0) == "new" && change.PlannedID(1) == "new";
  }

  lemma {:induction false} AIsSent(s: D.State, sends: string -> D.SendResult, change: Change)
    requires TwoAgents(s, sends)
    ensures R.Past(s) && "new" in s.configs
    ensures var (t, result) := Delivered(s, ToA(change), sends);
      && result == D.Delivered && t.configs == s.configs && D.Newest(t.assignments, "b") == None
  {
    assert D.Newest(s.assignments, "a") == Some(s.assignments[0]);
    assert D.Latest([], "a", None) == None;
  }

  lemma {:induction false} BIsRefused(s: D.State, sends: string -> D.SendResult, change: Change)
    requires "new" in s.configs && D.Newest(s.assignments, "b") == None && sends("b") == D.SendUnsupported
    ensures AnswerOf(Delivered(s, ToB(change), sends).1) == Refused
  {
  }

  lemma {:induction false} TwoAnswers(s: D.State, sends: string -> D.SendResult, change: Change, log: seq<Delivery>)
    requires TwoAgents(s, sends) && Answered(s, log, sends)
    requires log != [] && log[0].call == ToA(change) && (|log| >= 2 ==> log[1].call == ToB(change))
    ensures log[0].answer.Sent? && (|log| >= 2 ==> log[1].answer.Refused?)
  {
    AIsSent(s, sends, change);
    hide Delivered;
    if |log| >= 2 {
      var t := Delivered(s, ToA(change), sends).0;
      BIsRefused(t, sends, change);
      assert Answered(t, log[1..], sends);
      assert log[1..][0] == log[1];
    }
  }

  /** With working stores, the batch neither is refused nor ends for another reason than a delivery. */
  lemma {:induction false} OnlyDeliveryFails(change: Change, outcome: Outcome, groups: map<string, Group>, pre: map<string, Agent>,
                                             file: map<string, Agent>, assignments: map<string, string>, agents: map<string, Agent>,
                                             snapshot: map<string, Agent>, log: seq<Delivery>, results: seq<Evidence>, configurations: set<string>)
    requires Achieved(change, outcome, groups, pre, file, assignments, agents, snapshot, log, results, configurations, [], [])
    ensures Ready(change, groups, configurations, pre) ==>
      outcome.Success? || ((outcome.AllRestored? || outcome.Incomplete?) && outcome.cause.DeliveryAt?)
    ensures outcome.Success? ==>
      && MembershipRollback.Calls(log) == ForwardCalls(change, assignments, |change.targets|) && NoneRefused(log)
    ensures outcome.AllRestored? || outcome.Incomplete? ==>
      && Within(outcome.cause, |change.targets|)
      && Settled(change, outcome.cause, outcome.AllRestored?, groups, pre, assignments, agents, snapshot, log, configurations, [])
  {
    hide Settled, Evidenced, Moved, Recorded, Eligible, Entry, ForwardCalls, NoneRefused;
    match outcome {
      case RejectedAt(k) => assert !Fit(change, k, groups, pre);
      case AllRestored(LookupAt(i)) => assert !Available(change, i, configurations);
      case Incomplete(LookupAt(i)) => assert !Available(change, i, configurations);
      case _ =>
    }
  }

  /** Agent "a" is sent the new configuration and agent "b" refuses it. Every store works, and the old
      configuration of "a" is on record and still exists, yet the batch ends incomplete: undoing "a"
      is refused, because what was sent to it is still in flight. */
  lemma {:induction false} TwoTargetsEndIncomplete(change: Change, outcome: Outcome, groups: map<string, Group>, pre: map<string, Agent>,
                                                   file: map<string, Agent>, agents: map<string, Agent>, snapshot: map<string, Agent>,
                                                   log: seq<Delivery>, results: seq<Evidence>, s: D.State, sends: string -> D.SendResult)
    requires TwoTargets(change) && Ready(change, groups, s.configs.Keys, pre)
    requires Achieved(change, outcome, groups, pre, file, map["a" := "old"], agents, snapshot, log, results, s.configs.Keys, [], [])
    requires TwoAgents(s, sends) && Answered(s, log, sends)
    ensures outcome == Incomplete(DeliveryAt(1))
    ensures |log| >= 2 && log[0].answer.Sent? && !NoneRefused(log[2..])
  {
    var assignments := map["a" := "old"];
    hide *;
    OnlyDeliveryFails(change, outcome, groups, pre, file, assignments, agents, snapshot, log, results, s.configs.Keys);
    TwoForwardCalls(change);
    AIsSent(s, sends, change);
    if outcome.Success? {
      assert log[..|log|] == log;
      CallsOf(log, log, [ToA(change), ToB(change)]);
      TwoAnswers(s, sends, change, log);
      RefusedShows(log, 1);
    } else {
      var cause := outcome.cause;
      RefusedForward(change, cause, outcome.AllRestored?, groups, pre, assignments, agents, snapshot, log, s.configs.Keys, s, sends);
    }
  }

  lemma {:induction false} CallsOf(sent: seq<Delivery>, log: seq<Delivery>, calls: seq<Call>)
    requires |sent| <= |log| && log[..|sent|] == sent && MembershipRollback.Calls(sent) == calls
    ensures |sent| == |calls| && forall i :: 0 <= i < |calls| ==> log[i].call == calls[i]
  {
    forall i | 0 <= i < |sent|
      ensures log[i].call == calls[i]
    {
      assert sent[i] == log[i] && MembershipRollback.Calls(sent)[i] == sent[i].call;
    }
  }

  lemma RefusedShows(log: seq<Delivery>, i: nat)
    requires i < |log| && log[i].answer.Refused?
    ensures !NoneRefused(log)
  {
  }

  lemma {:induction false} RefusedForward(change: Change, cause: Cause, restored: bool, groups: map<string, Group>, pre: map<string, Agent>,
                                          assignments: map<string, string>, agents: map<string, Agent>, snapshot: map<string, Agent>,
                                          log: seq<Delivery>, configurations: set<string>, s: D.State, sends: string -> D.SendResult)
    requires TwoTargets(change) && assignments == map["a" := "old"] && configurations == s.configs.Keys
    requires Settled(change, cause, restored, groups, pre, assignments, agents, snapshot, log, configurations, [])
    requires cause.DeliveryAt? && TwoAgents(s, sends) && Answered(s, log, sends)
    ensures cause == DeliveryAt(1) && !restored
    ensures |log| >= 2 && log[0].answer.Sent? && !NoneRefused(log[2..])
  {
    hide Answered, UndoOf, TargetUids, Moves, NoneRefused;
    TwoForwardCalls(change);
    AIsSent(s, sends, change);
    var sent := Forward(change, assignments, cause, log);
    SettledBounds(change, cause, restored, groups, pre, assignments, agents, snapshot, log, configurations, []);
    CallsOf(sent, log, ForwardCalls(change, assignments, cause.index + 1));
    assert log[|sent| - 1] == sent[|sent| - 1];
    FirstAnswers(s, sends, change, log, |sent|);
    OneToUndo(change, sent);
    RestoredIffNothingSent(change, cause, restored, groups, pre, assignments, agents, snapshot, log, configurations, [], s, sends);
    assert log[|sent|..] == log[2..];
  }

  lemma {:induction false} FirstAnswers(s: D.State, sends: string -> D.SendResult, change: Change, log: seq<Delivery>, k: nat)
    requires TwoAgents(s, sends) && Answered(s, log, sends)
    requires 1 <= k <= 2 && k <= |log| && log[0].call == ToA(change) && (k == 2 ==> log[1].call == ToB(change))
    requires log[k - 1].answer.Refused?
    ensures k == 2 && log[0].answer.Sent? && log[1].answer.Refused?
  {
    AnsweredPrefix(s, log, sends, k);
    TwoAnswers(s, sends, change, log[..k]);
  }

  lemma {:induction false} AnsweredPrefix(s: D.State, log: seq<Delivery>, sends: string -> D.SendResult, k: nat)
    requires Answered(s, log, sends) && k <= |log|
    ensures Answered(s, log[..k], sends)
    decreases k
  {
    hide Delivered;
    if k > 0 {
      AnsweredPrefix(Delivered(s, log[0].call, sends).0, log[1..], sends, k - 1);
      assert log[1..][..k - 1] == log[..k][1..];
    }
  }

  /** The configuration that "a" ran before is to be sent again. */
  lemma {:induction false} OneToUndo(change: Change, sent: seq<Delivery>)
    requires |sent| == 2 && sent[0].call == ToA(change) && sent[0].answer.Sent? && sent[1].answer.Refused?
    ensures UndoOf(sent) == [Undo(ToA(change))] && Undo(ToA(change)).configID == "old"
  {
    assert sent[1..][1..] == [];
    assert UndoOf(sent[1..]) == [];
  }
}
