/** How long a configuration that was just sent cannot be undone: over any events, until a saved
    report makes the agent's newest delivery terminal. */
module UndoRuns {
  import opened Wrappers
  import opened Delivery
  import opened DeliveryRuns

  /** The newest delivery of the agent is the n-th record, and it is in flight. */
  predicate Awaits(s: State, uid: string, n: nat) {
    Latest(s.deployments, uid, None) == Some(n) && InFlight(s.deployments[n].status)
  }

  /** The agent's newest assignment says that the hash is applied. */
  predicate Shown(s: State, uid: string, hash: string) {
    var newest := Newest(s.assignments, uid);
    newest.Some? && newest.value.hash == hash && newest.value.status == Applied
  }

  /** A saved report that makes the agent's newest delivery terminal. */
  predicate Lands(s: State, e: Event, uid: string) {
    && e.Report? && e.uid == uid && e.deploymentSaved && !InFlight(e.status)
    && Latest(s.deployments, uid, Some(e.hash)).Some?
    && Latest(s.deployments, uid, Some(e.hash)) == Latest(s.deployments, uid, None)
  }

  /** A saved report that the hash is applied. */
  predicate Shows(e: Event, uid: string, hash: string) {
    e.Report? && e.uid == uid && e.assignmentSaved && e.hash == hash && e.status == Applied
  }

  // ---------- The newest assignment ----------

  lemma {:induction false} NewestAppend(assignments: seq<Assignment>, a: Assignment, uid: string)
    ensures Newest(assignments + [a], uid) ==
      var best := Newest(assignments, uid);
      if a.uid == uid && (best == None || a.updatedAt > best.value.updatedAt) then Some(a) else best
  {
    assert (assignments + [a])[..|assignments|] == assignments;
  }

  lemma {:induction false} NewestOther(assignments: seq<Assignment>, i: nat, a: Assignment, uid: string)
    requires i < |assignments| && assignments[i].uid != uid && a.uid != uid
    ensures Newest(assignments[i := a], uid) == Newest(assignments, uid)
  {
    var n := |assignments| - 1;
    var before := assignments[..n];
    if i == n {
      assert assignments == before + [assignments[n]] && assignments[i := a] == before + [a];
      NewestAppend(before, a, uid);
      NewestAppend(before, assignments[n], uid);
    } else {
      NewestOther(before, i, a, uid);
      assert assignments == before + [assignments[n]] && assignments[i := a] == before[i := a] + [assignments[n]];
      NewestAppend(before[i := a], assignments[n], uid);
      NewestAppend(before, assignments[n], uid);
    }
    hide Newest;
  }

  lemma {:induction false} UpsertedShape(assignments: seq<Assignment>, a: Assignment) returns (i: nat)
    ensures i <= |assignments|
    ensures i < |assignments| ==> SameKey(assignments[i], a) && Upserted(assignments, a) == assignments[i := a]
    ensures i == |assignments| ==> Upserted(assignments, a) == assignments + [a]
  {
    if assignments == [] || SameKey(assignments[0], a) {
      i := 0;
    } else {
      i := UpsertedShape(assignments[1..], a);
      i := i + 1;
      assert assignments == [assignments[0]] + assignments[1..];
    }
  }

  lemma {:induction false} UpsertedOther(assignments: seq<Assignment>, a: Assignment, uid: string)
    requires a.uid != uid
    ensures Newest(Upserted(assignments, a), uid) == Newest(assignments, uid)
  {
    var i := UpsertedShape(assignments, a);
    if i < |assignments| { NewestOther(assignments, i, a, uid); } else { NewestAppend(assignments, a, uid); }
  }

  /** An assignment newer than all others is the newest of its agent. */
  lemma {:induction false} UpsertedIsNewest(assignments: seq<Assignment>, a: Assignment)
    requires forall b :: b in assignments ==> b.updatedAt < a.updatedAt
    ensures Newest(Upserted(assignments, a), a.uid) == Some(a)
  {
    var newest := Newest(Upserted(assignments, a), a.uid);
    assert a in Upserted(assignments, a);
  }

  lemma {:induction false} ReportedNewest(assignments: seq<Assignment>, uid: string, hash: string, status: Status, now: int, other: string)
    requires forall b :: b in assignments ==> b.updatedAt < now
    ensures var next := Newest(Reported(assignments, uid, hash, status, now), other);
      if other == uid && NewestWithHash(assignments, uid, hash).Some?
      then next.Some? && next.value.hash == hash && next.value.status == status
      else next == Newest(assignments, other)
  {
    var found := NewestWithHash(assignments, uid, hash);
    if found.Some? {
      var reported := assignments[found.value].(status := status, updatedAt := now);
      var next := assignments[found.value := reported];
      if other == uid {
        assert next[found.value] == reported;
        var newest := Newest(next, uid);
        assert forall b :: b in next && b != reported ==> b in assignments;
      } else {
        NewestOther(assignments, found.value, reported, other);
      }
    }
  }

  // ---------- The two things every event keeps ----------

  lemma DeliverHides(s: State, order: Order, calls: Calls, uid: string, hash: string)
    requires Past(s) && !Shown(s, uid, hash)
    ensures !Shown(Deliver(s, order, calls).0, uid, hash)
  {
    hide Newest, Upserted, Latest;
    var t := Deliver(s, order, calls).0;
    if t.assignments != s.assignments {
      var a := Assignment(order.uid, order.config.id, order.config.hash,
                          if calls.record then SentStatus(calls.send) else Pending,
                          if calls.record then s.clock + 1 else s.clock);
      if order.uid == uid { UpsertedIsNewest(s.assignments, a); } else { UpsertedOther(s.assignments, a, uid); }
    }
  }

  lemma RollbackHides(s: State, agent: string, named: string, claimed: bool, found: bool, calls: Calls, uid: string, hash: string)
    requires Past(s) && !Shown(s, uid, hash)
    ensures !Shown(AutoRollback(s, agent, named, claimed, found, calls).0, uid, hash)
  {
    hide Deliver, Latest, Newest;
    var target := RollbackTarget(s, agent, named);
    if target.Some? && claimed {
      var i := target.value;
      var s1 := s.(deployments := s.deployments[i := s.deployments[i].(claimed := true)]);
      var previous := s.deployments[i].previousConfigID;
      if found && previous in s.configs {
        DeliverHides(s1, Order(agent, s.configs[previous], Rollback, "", ""), calls, uid, hash);
      }
    }
  }

  /** Only a saved report that the hash is applied shows it as applied. */
  lemma {:induction false} StepHides(s: State, e: Event, uid: string, hash: string)
    requires Past(s) && !Shown(s, uid, hash) && !Shows(e, uid, hash)
    ensures !Shown(Step(s, e).0, uid, hash)
  {
    hide Deliver, AutoRollback, Newest, Reported, Updated;
    match e {
      case Ordered(order, calls) => DeliverHides(s, order, calls, uid, hash);
      case Report(agent, named, status, assignmentSaved, deploymentSaved, claimed, found, calls) =>
        var s1 := Noted(s, agent, named, status, assignmentSaved, deploymentSaved);
        ReportedNewest(s.assignments, agent, named, status, s.clock, uid);
        NotedPast(s, agent, named, status, assignmentSaved, deploymentSaved);
        RollbackHides(s1, agent, named, claimed, found, calls, uid, hash);
      case Retried(agent, named, claimed, found, calls) => RollbackHides(s, agent, named, claimed, found, calls, uid, hash);
    }
  }

  lemma NotedPast(s: State, uid: string, hash: string, status: Status, assignmentSaved: bool, deploymentSaved: bool)
    requires Past(s)
    ensures Past(Noted(s, uid, hash, status, assignmentSaved, deploymentSaved))
  {
    hide Updated;
  }

  lemma DeliverAwaits(s: State, order: Order, calls: Calls, uid: string, n: nat)
    requires Awaits(s, uid, n)
    ensures Awaits(Deliver(s, order, calls).0, uid, n)
  {
    if order.uid == uid {
      assert Deliver(s, order, calls).0 == s;
    } else {
      DeliverAppends(s, order, calls);
      var t := Deliver(s, order, calls).0;
      hide Deliver;
      if t.deployments != s.deployments {
        var newest := Latest(t.deployments, uid, None);
        assert t.deployments[n] == s.deployments[n];
        if newest.Some? && newest.value < |s.deployments| { assert t.deployments[newest.value] == s.deployments[newest.value]; }
      }
    }
  }

  lemma RollbackAwaits(s: State, agent: string, named: string, claimed: bool, found: bool, calls: Calls, uid: string, n: nat)
    requires Awaits(s, uid, n)
    ensures Awaits(AutoRollback(s, agent, named, claimed, found, calls).0, uid, n)
  {
    hide Deliver;
    var target := RollbackTarget(s, agent, named);
    if target.Some? && claimed {
      var i := target.value;
      var s1 := s.(deployments := s.deployments[i := s.deployments[i].(claimed := true)]);
      SameSubjectsSameLatest(s.deployments, s1.deployments, uid);
      var previous := s.deployments[i].previousConfigID;
      if found && previous in s.configs {
        DeliverAwaits(s1, Order(agent, s.configs[previous], Rollback, "", ""), calls, uid, n);
      }
    }
  }

  lemma SameSubjectsSameLatest(before: seq<Deployment>, after: seq<Deployment>, uid: string)
    requires |before| == |after| && forall i :: 0 <= i < |before| ==> before[i].uid == after[i].uid
    ensures Latest(before, uid, None) == Latest(after, uid, None)
  {
    var a, b := Latest(before, uid, None), Latest(after, uid, None);
    if a.Some? { assert after[a.value].uid == uid; }
    if b.Some? { assert before[b.value].uid == uid; }
  }

  /** Only a landing report ends the wait for the agent's newest delivery. */
  lemma {:induction false} StepAwaits(s: State, e: Event, uid: string, n: nat)
    requires Awaits(s, uid, n) && !Lands(s, e, uid)
    ensures Awaits(Step(s, e).0, uid, n)
  {
    hide Deliver, AutoRollback, Reported;
    match e {
      case Ordered(order, calls) => DeliverAwaits(s, order, calls, uid, n);
      case Report(agent, named, status, assignmentSaved, deploymentSaved, claimed, found, calls) =>
        var s1 := Noted(s, agent, named, status, assignmentSaved, deploymentSaved);
        SameSubjectsSameLatest(s.deployments, s1.deployments, uid);
        assert Awaits(s1, uid, n);
        RollbackAwaits(s1, agent, named, claimed, found, calls, uid, n);
      case Retried(agent, named, claimed, found, calls) => RollbackAwaits(s, agent, named, claimed, found, calls, uid, n);
    }
  }

  // ---------- Over whole runs ----------

  /** No event of the run makes the agent's newest delivery terminal. */
  ghost predicate Quiet(s: State, events: seq<Event>, uid: string) {
    forall k :: 0 <= k < |events| ==> !Lands(Run(s, events[..k]).0, events[k], uid)
  }

  ghost predicate SomeShows(events: seq<Event>, uid: string, hash: string) {
    exists k :: 0 <= k < |events| && Shows(events[k], uid, hash)
  }

  lemma {:induction false} RunAwaits(s: State, events: seq<Event>, uid: string, n: nat)
    requires Awaits(s, uid, n) && Quiet(s, events, uid)
    ensures Awaits(Run(s, events).0, uid, n)
  {
    hide Step, Awaits, Lands;
    if events != [] {
      var last := |events| - 1;
      forall k | 0 <= k < last ensures !Lands(Run(s, events[..last][..k]).0, events[..last][k], uid) {
        assert events[..last][..k] == events[..k];
      }
      RunAwaits(s, events[..last], uid, n);
      StepAwaits(Run(s, events[..last]).0, events[last], uid, n);
    }
  }

  lemma {:induction false} RunHides(s: State, events: seq<Event>, uid: string, hash: string)
    requires Past(s) && !Shown(s, uid, hash)
    ensures Shown(Run(s, events).0, uid, hash) ==> SomeShows(events, uid, hash)
  {
    hide Step, Shown, Shows, Past;
    if events != [] {
      var last := |events| - 1;
      RunHides(s, events[..last], uid, hash);
      var t := Run(s, events[..last]).0;
      RunKeepsPast(s, events[..last]);
      if SomeShows(events[..last], uid, hash) {
        var k :| 0 <= k < last && Shows(events[..last][k], uid, hash);
        assert Shows(events[k], uid, hash);
      } else if !Shows(events[last], uid, hash) {
        StepHides(t, events[last], uid, hash);
      }
    }
  }

  lemma AwaitingRefuses(s: State, uid: string, n: nat, undo: Order, later: Calls)
    requires Awaits(s, uid, n) && undo.uid == uid && later.readAssignments && later.readDeployments
    ensures Deliver(s, undo, later) == (s, if IsCurrent(s, undo) then AlreadyCurrent else InProgress)
  {
  }

  /** When the agent's newest delivery lands, the agent is free, unless the report's own automatic
      rollback is already on its way. */
  lemma LandingFrees(s: State, e: Event, uid: string, n: nat)
    requires Awaits(s, uid, n) && Lands(s, e, uid)
    ensures var (t, effect) := Step(s, e);
      && (effect.launched.Some? ==> effect.launched.value < |t.deployments|)
      && (Busy(t, uid) <==> effect.launched.Some? && InFlight(t.deployments[effect.launched.value].status))
  {
    hide Reported;
    var s1 := Noted(s, e.uid, e.hash, e.status, e.assignmentSaved, e.deploymentSaved);
    SameSubjectsSameLatest(s.deployments, s1.deployments, uid);
    assert s1.deployments[n].status == e.status;
    RollbackBusy(s1, e, uid);
  }

  lemma RollbackBusy(s: State, e: Event, uid: string)
    requires e.Report? && e.uid == uid && !Busy(s, uid)
    ensures var (t, effect) := if e.status == Failed || e.status == Unsupported
                               then AutoRollback(s, uid, e.hash, e.claimed, e.found, e.calls) else (s, NOTHING);
      && (effect.launched.Some? ==> effect.launched.value < |t.deployments|)
      && (Busy(t, uid) <==> effect.launched.Some? && InFlight(t.deployments[effect.launched.value].status))
  {
    hide Deliver;
    var target := RollbackTarget(s, uid, e.hash);
    if (e.status == Failed || e.status == Unsupported) && target.Some? && e.claimed {
      var i := target.value;
      var s1 := s.(deployments := s.deployments[i := s.deployments[i].(claimed := true)]);
      SameSubjectsSameLatest(s.deployments, s1.deployments, uid);
      var previous := s.deployments[i].previousConfigID;
      if e.found && previous in s.configs {
        DeliverAppends(s1, Order(uid, s.configs[previous], Rollback, "", ""), e.calls);
      }
    }
  }

  /** From the moment a configuration was sent to an agent, and whatever else happens, undoing it
      changes nothing and is refused as in progress, for as long as no saved report makes the agent's
      newest delivery terminal; the one exception is an undo whose configuration a report has shown
      as applied. The first report that makes it terminal ends this, unless the report's own
      automatic rollback is in flight then. */
  lemma UndoRefusedIff(s: State, order: Order, calls: Calls, events: seq<Event>, e: Event, undo: Order, later: Calls)
    requires Past(s) && Deliver(s, order, calls).1 == Delivered && undo.uid == order.uid
    requires later.readAssignments && later.readDeployments
    requires Quiet(Deliver(s, order, calls).0, events, undo.uid)
    ensures var before := Run(Deliver(s, order, calls).0, events).0;
      var (t, effect) := Step(before, e);
      && Deliver(before, undo, later) == (before, if IsCurrent(before, undo) then AlreadyCurrent else InProgress)
      && (IsCurrent(before, undo) ==> SomeShows(events, undo.uid, undo.config.hash))
      && (effect.launched.Some? && Lands(before, e, undo.uid) ==> effect.launched.value < |t.deployments|)
      && (Deliver(t, undo, later).1 == InProgress <==>
            && !IsCurrent(t, undo)
            && (!Lands(before, e, undo.uid) || (effect.launched.Some? && InFlight(t.deployments[effect.launched.value].status))))
  {
    var uid, hash := undo.uid, undo.config.hash;
    var sent := Deliver(s, order, calls).0;
    var n := |s.deployments|;
    DeliveredIsLatest(s, order, calls);
    DeliverKeepsPast(s, order, calls);
    assert Awaits(sent, uid, n) && !Shown(sent, uid, hash);
    RunAwaits(sent, events, uid, n);
    RunHides(sent, events, uid, hash);
    var before := Run(sent, events).0;
    AwaitingRefuses(before, uid, n, undo, later);
    var t := Step(before, e).0;
    if Lands(before, e, uid) {
      LandingFrees(before, e, uid, n);
    } else {
      StepAwaits(before, e, uid, n);
      AwaitingRefuses(t, uid, n, undo, later);
    }
    hide Run, Step, Lands, Quiet, SomeShows;
  }
}
