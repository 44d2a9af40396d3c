/** The control plane as it runs: it writes the deployment record and the assignment step by
    step, and every method ends in the state its delivery step describes. */
module ControlPlane {
  import opened Wrappers
  import opened Delivery

  lemma {:induction false} UpsertTwice(assignments: seq<Assignment>, a: Assignment, b: Assignment)
    requires SameKey(a, b)
    ensures Upserted(Upserted(assignments, a), b) == Upserted(assignments, b)
  {
    if assignments != [] && !SameKey(assignments[0], a) {
      UpsertTwice(assignments[1..], a, b);
      var next := Upserted(assignments, a);
      assert next[0] == assignments[0] && next[1..] == Upserted(assignments[1..], a);
    }
  }

  lemma UpdateLast(deployments: seq<Deployment>, last: Deployment, status: Status)
    ensures Updated(deployments + [last], last.uid, last.hash, status) == deployments + [last.(status := status)]
  {
    var all := deployments + [last];
    assert all[|all| - 1] == last;
  }

  class ControlPlane {
    var deployments: seq<Deployment>
    var assignments: seq<Assignment>
    var clock: int
    const configs: map<string, Configuration>

    constructor (configs: map<string, Configuration>)
      ensures Value() == State([], [], configs, 0)
    {
      this.configs := configs;
      deployments, assignments, clock := [], [], 0;
    }

    function Value(): State
      reads this
    {
      State(deployments, assignments, configs, clock)
    }

    method UpsertAssignment(assignment: Assignment, ok: bool)
      modifies this`assignments
      ensures assignments == if ok then Upserted(old(assignments), assignment) else old(assignments)
    {
      if ok {
        var index := 0;
        while index < |assignments| && !SameKey(assignments[index], assignment)
          invariant 0 <= index <= |assignments| && assignments == old(assignments)
          invariant Upserted(assignments, assignment) == assignments[..index] + Upserted(assignments[index..], assignment)
        {
          index := index + 1;
        }
        if index < |assignments| {
          assert assignments[index := assignment] == assignments[..index] + ([assignment] + assignments[index + 1..]);
          assert assignments[index..][1..] == assignments[index + 1..];
          assignments := assignments[index := assignment];
        } else {
          assert assignments[..index] == assignments;
          assignments := assignments + [assignment];
        }
      }
    }

    method UpdateLatestByAgentHash(uid: string, hash: string, status: Status, ok: bool)
      modifies this`deployments
      ensures deployments == if ok then Updated(old(deployments), uid, hash, status) else old(deployments)
    {
      if ok {
        var found := Latest(deployments, uid, Some(hash));
        if found.Some? {
          deployments := deployments[found.value := deployments[found.value].(status := status)];
        }
      }
    }

    /** Records the delivery and its assignment as pending, sends it, and records how that went. */
    method Launch(order: Order, calls: Calls) returns (result: Result)
      requires calls.readAssignments && calls.readDeployments && calls.create
      requires !IsCurrent(Value(), order) && !Busy(Value(), order.uid)
      modifies this
      ensures (Value(), result) == Deliver(old(Value()), order, calls)
    {
      hide Upserted, Updated, Latest, Newest;
      var deployment := Deployment(order.uid, order.config.id, order.config.hash, order.action,
                                   order.previousConfigID, order.requestID, false, Pending);
      ghost var before, prior := deployments, assignments;
      deployments := deployments + [deployment];
      var assignment := Assignment(order.uid, order.config.id, order.config.hash, Pending, clock);
      UpsertAssignment(assignment, calls.assign);
      clock := clock + 2;
      if !calls.assign {
        UpdateLast(before, deployment, Failed);
        UpdateLatestByAgentHash(order.uid, order.config.hash, Failed, calls.update);
        return StoreFailed;
      }
      var status := SentStatus(calls.send);
      var sent := assignment.(status := status, updatedAt := clock - 1);
      UpsertTwice(prior, assignment, sent);
      UpsertAssignment(sent, calls.record);
      if calls.record {
        UpdateLast(before, deployment, status);
        UpdateLatestByAgentHash(order.uid, order.config.hash, status, calls.update);
      }
      result := if calls.send != SendOk then SendFailed else if calls.record then Delivered else StoreFailed;
    }

    method DeliverConfiguration(order: Order, calls: Calls) returns (result: Result)
      modifies this
      ensures (Value(), result) == Deliver(old(Value()), order, calls)
    {
      if !calls.readAssignments {
        return StoreFailed;
      }
      var latest := LatestAssignmentForAgent(assignments, order.uid);
      if order.action != Reconcile && latest.Some? && latest.value.hash == order.config.hash && latest.value.status == Applied {
        return AlreadyCurrent;
      }
      if !calls.readDeployments {
        return StoreFailed;
      }
      var recent := Latest(deployments, order.uid, None);
      if recent.Some? && InFlight(deployments[recent.value].status) {
        return InProgress;
      }
      if !calls.create {
        return StoreFailed;
      }
      result := Launch(order, calls);
    }

    method AttemptAutomaticRollback(uid: string, hash: string, claimed: bool, found: bool, calls: Calls) returns (effect: Effect)
      modifies this
      ensures (Value(), effect) == AutoRollback(old(Value()), uid, hash, claimed, found, calls)
    {
      var failed := Latest(deployments, uid, Some(hash));
      if failed == None || deployments[failed.value].action != Deploy || deployments[failed.value].previousConfigID == "" {
        return NOTHING;
      }
      var i := failed.value;
      if deployments[i].claimed || !claimed {
        return NOTHING;
      }
      deployments := deployments[i := deployments[i].(claimed := true)];
      var previous := deployments[i].previousConfigID;
      if !found || previous !in configs {
        return Effect(Some(i), None);
      }
      var n := |deployments|;
      var _ := DeliverConfiguration(Order(uid, configs[previous], Rollback, "", ""), calls);
      effect := Effect(Some(i), if |deployments| > n then Some(n) else None);
    }

    method HandleReport(uid: string, hash: string, status: Status, assignmentSaved: bool, deploymentSaved: bool,
                        claimed: bool, found: bool, calls: Calls) returns (effect: Effect)
      modifies this
      ensures (Value(), effect) ==
        Step(old(Value()), Report(uid, hash, status, assignmentSaved, deploymentSaved, claimed, found, calls))
    {
      if assignmentSaved {
        var index := NewestWithHash(assignments, uid, hash);
        if index.Some? {
          assignments := assignments[index.value := assignments[index.value].(status := status, updatedAt := clock)];
        }
      }
      UpdateLatestByAgentHash(uid, hash, status, deploymentSaved);
      clock := clock + 1;
      effect := NOTHING;
      if status == Failed || status == Unsupported {
        effect := AttemptAutomaticRollback(uid, hash, claimed, found, calls);
      }
    }
  }
}
