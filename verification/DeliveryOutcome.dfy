/** What a delivery, a report and an automatic rollback leave in the stores, said by the records, the
    assignments and the calls that failed alone. */
module DeliveryOutcome {
  import opened Wrappers
  import opened Delivery
  import opened DeliveryRuns
  import opened UndoRuns

  /** The agent's newest assignment says that the configuration is applied. */
  predicate ShownApplied(s: State, order: Order) {
    exists i | 0 <= i < |s.assignments| ::
      && s.assignments[i].uid == order.uid && s.assignments[i].hash == order.config.hash && s.assignments[i].status == Applied
      && Newest(s.assignments, order.uid) == Some(s.assignments[i])
  }

  /** The agent's newest record is pending, sent or applying. */
  predicate Underway(s: State, uid: string) {
    exists i | 0 <= i < |s.deployments| ::
      && s.deployments[i].uid == uid && s.deployments[i].status in [Pending, Status.Sent, Applying]
      && forall j | i < j < |s.deployments| :: s.deployments[j].uid != uid
  }

  lemma ShownIsCurrent(s: State, order: Order)
    ensures IsCurrent(s, order) <==> order.action != Reconcile && ShownApplied(s, order)
  {
    var newest := Newest(s.assignments, order.uid);
    if newest.Some? {
      var i :| 0 <= i < |s.assignments| && s.assignments[i] == newest.value;
    }
  }

  lemma UnderwayIsBusy(s: State, uid: string)
    ensures Busy(s, uid) <==> Underway(s, uid)
  {
    var newest := Latest(s.deployments, uid, None);
    if Underway(s, uid) {
      var i :| 0 <= i < |s.deployments| && s.deployments[i].uid == uid && s.deployments[i].status in [Pending, Status.Sent, Applying]
        && forall j | i < j < |s.deployments| :: s.deployments[j].uid != uid;
      assert Selects(s.deployments[i], uid, None);
      assert newest == Some(i);
    }
  }

  /** A delivery is made unless a store cannot be read or written, the configuration is already shown as
      applied (which does not matter when reconciling drift), or another delivery is underway. */
  predicate Made(s: State, order: Order, calls: Calls) {
    && calls.readAssignments && calls.readDeployments && calls.create
    && !(order.action != Reconcile && ShownApplied(s, order)) && !Underway(s, order.uid)
  }

  /** What is answered, and that nothing changes unless the delivery is made. */
  lemma DeliveryAnswers(s: State, order: Order, calls: Calls)
    ensures var (t, result) := Deliver(s, order, calls);
      var current := order.action != Reconcile && ShownApplied(s, order);
      && (!Made(s, order, calls) ==> t == s)
      && (result == AlreadyCurrent <==> calls.readAssignments && current)
      && (result == InProgress <==> calls.readAssignments && !current && calls.readDeployments && Underway(s, order.uid))
      && (result == Delivered <==> Made(s, order, calls) && calls.assign && calls.record && calls.send == SendOk)
      && (result == SendFailed <==> Made(s, order, calls) && calls.assign && calls.send != SendOk)
  {
    ShownIsCurrent(s, order);
    UnderwayIsBusy(s, order.uid);
    hide IsCurrent, Busy, ShownApplied, Underway, Upserted;
  }

  /** A delivery that is made adds one record and changes no other. The record is for the ordered
      configuration; it says sent, unsupported or failed as the sending went, once both stores took
      that; failed when the assignment could not be written; and pending when a status is lost. */
  lemma DeliveryRecords(s: State, order: Order, calls: Calls)
    requires Made(s, order, calls)
    ensures var t := Deliver(s, order, calls).0;
      && |t.deployments| == |s.deployments| + 1 && t.deployments[..|s.deployments|] == s.deployments && t.configs == s.configs
      && var d := t.deployments[|s.deployments|];
      && d == Deployment(order.uid, order.config.id, order.config.hash, order.action, order.previousConfigID, order.requestID, false, d.status)
      && (d.status == Failed <==> calls.update && (!calls.assign || (calls.record && calls.send == SendError)))
      && (d.status == Unsupported <==> calls.update && calls.assign && calls.record && calls.send == SendUnsupported)
      && (d.status == Status.Sent <==> calls.update && calls.assign && calls.record && calls.send == SendOk)
      && (d.status == Pending <==> !calls.update || (calls.assign && !calls.record))
  {
    ShownIsCurrent(s, order);
    UnderwayIsBusy(s, order.uid);
    hide IsCurrent, Busy, ShownApplied, Underway, Upserted;
  }

  /** No delivery, whatever fails, adds a record that says applied or applying. */
  lemma NeverAddsApplied(s: State, order: Order, calls: Calls)
    ensures var t := Deliver(s, order, calls).0;
      s.deployments <= t.deployments && forall d :: d in t.deployments[|s.deployments|..] ==> d.status != Applied && d.status != Applying
  {
    DeliveryAnswers(s, order, calls);
    if Made(s, order, calls) {
      DeliveryRecords(s, order, calls);
      hide Made, Deliver;
    }
  }

  /** The agent's newest assignment after a delivery that was made: the ordered configuration, as the
      sending went, or pending when that is lost. Nobody else's assignments change, and without the
      assignment write none does. */
  lemma {:induction false} DeliveryAssigns(s: State, order: Order, calls: Calls)
    requires Made(s, order, calls) && Past(s)
    ensures var t := Deliver(s, order, calls).0;
      && (!calls.assign ==> t.assignments == s.assignments)
      && (calls.assign ==>
            var newest := Newest(t.assignments, order.uid);
            && newest.Some?
            && newest.value == Assignment(order.uid, order.config.id, order.config.hash, newest.value.status, newest.value.updatedAt)
            && newest.value.updatedAt >= s.clock
            && newest.value.status == (if !calls.record then Pending else match calls.send
                                                                       case SendOk => Status.Sent
                                                                       case SendUnsupported => Unsupported
                                                                       case SendError => Failed))
      && forall a: Assignment :: a.uid != order.uid ==> (a in t.assignments <==> a in s.assignments)
  {
    ShownIsCurrent(s, order);
    UnderwayIsBusy(s, order.uid);
    hide IsCurrent, Busy, ShownApplied, Underway, Upserted, Latest;
    var t := Deliver(s, order, calls).0;
    if calls.assign {
      var a := Assignment(order.uid, order.config.id, order.config.hash, if calls.record then SentStatus(calls.send) else Pending,
                          if calls.record then s.clock + 1 else s.clock);
      UpsertedIsNewest(s.assignments, a);
      OthersKept(s.assignments, a);
    }
  }

  lemma OthersKept(assignments: seq<Assignment>, a: Assignment)
    ensures forall b: Assignment :: b.uid != a.uid ==> (b in Upserted(assignments, a) <==> b in assignments)
  {
    var i := UpsertedShape(assignments, a);
    var next := Upserted(assignments, a);
    forall b: Assignment | b.uid != a.uid && b in assignments ensures b in next {
      var k :| 0 <= k < |assignments| && assignments[k] == b;
      assert next[k] == b;
    }
  }

  // ---------- Automatic rollbacks ----------

  /** The i-th record is the newest one of the hash for the agent. */
  predicate NewestOf(deployments: seq<Deployment>, i: nat, uid: string, hash: string) {
    && i < |deployments| && deployments[i].uid == uid && deployments[i].hash == hash
    && forall j | i < j < |deployments| :: !(deployments[j].uid == uid && deployments[j].hash == hash)
  }

  lemma NewestIsLatest(deployments: seq<Deployment>, uid: string, hash: string)
    ensures forall i: nat :: NewestOf(deployments, i, uid, hash) <==> Latest(deployments, uid, Some(hash)) == Some(i)
  {
    var latest := Latest(deployments, uid, Some(hash));
    forall i: nat | NewestOf(deployments, i, uid, hash) ensures latest == Some(i) {
      assert Selects(deployments[i], uid, Some(hash));
    }
  }

  /** The record is a deploy with a recorded predecessor that no rollback has claimed. */
  predicate Claimable(d: Deployment) {
    d.action == Deploy && d.previousConfigID != "" && !d.claimed
  }

  function ClaimedAt(s: State, i: nat): State
    requires i < |s.deployments|
  {
    s.(deployments := s.deployments[i := s.deployments[i].(claimed := true)])
  }

  function BackTo(s: State, uid: string, id: string): Order
    requires id in s.configs
  {
    Order(uid, s.configs[id], Rollback, "", "")
  }

  /** An automatic rollback claims the agent's newest record of the hash exactly when it is claimable and
      the claim works, and claims nothing else. It then delivers the recorded predecessor, exactly when
      that can be found and such a delivery is made; it adds that one record and changes no other. */
  lemma RollsBack(s: State, uid: string, hash: string, claimed: bool, found: bool, calls: Calls)
    ensures var (t, effect) := AutoRollback(s, uid, hash, claimed, found, calls);
      && (forall i: nat :: effect.claimed == Some(i) <==> claimed && NewestOf(s.deployments, i, uid, hash) && Claimable(s.deployments[i]))
      && (effect.claimed == None ==> t == s && effect.launched == None)
      && (effect.claimed.Some? ==>
            var i := effect.claimed.value;
            var previous := s.deployments[i].previousConfigID;
            && (effect.launched.Some? <==> found && previous in s.configs && Made(ClaimedAt(s, i), BackTo(s, uid, previous), calls))
            && t == if effect.launched.Some? then Deliver(ClaimedAt(s, i), BackTo(s, uid, previous), calls).0 else ClaimedAt(s, i))
      && (effect.launched.Some? ==> effect.launched.value == |s.deployments|)
  {
    NewestIsLatest(s.deployments, uid, hash);
    var target := RollbackTarget(s, uid, hash);
    if target.Some? && claimed {
      var i := target.value;
      var previous := s.deployments[i].previousConfigID;
      if found && previous in s.configs {
        var s1 := ClaimedAt(s, i);
        DeliveryAnswers(s1, BackTo(s, uid, previous), calls);
        if Made(s1, BackTo(s, uid, previous), calls) { DeliveryRecords(s1, BackTo(s, uid, previous), calls); }
      }
    }
    hide Deliver, Made, Latest;
  }

  /** The state once a report is noted, before any rollback: the agent's newest record of the hash has
      the reported status, if that is saved, and no other record changes. */
  ghost predicate RecordsNoted(s: State, e: Event, t: State)
    requires e.Report?
  {
    && t.configs == s.configs && |t.deployments| == |s.deployments|
    && forall i: nat :: i < |s.deployments| ==>
         t.deployments[i] == s.deployments[i].(status := if e.deploymentSaved && NewestOf(s.deployments, i, e.uid, e.hash)
                                                         then e.status else s.deployments[i].status)
  }

  /** The agent's assignment of the hash updated last; among equally old ones the first. */
  ghost predicate NewestEntry(assignments: seq<Assignment>, i: nat, uid: string, hash: string) {
    && i < |assignments| && assignments[i].uid == uid && assignments[i].hash == hash
    && forall j: nat | j < |assignments| && assignments[j].uid == uid && assignments[j].hash == hash ::
         assignments[j].updatedAt < assignments[i].updatedAt || (assignments[j].updatedAt == assignments[i].updatedAt && i <= j)
  }

  /** That assignment has the reported status and the time of the report, if that is saved and there is
      one; no other assignment changes. */
  ghost predicate AssignmentsNoted(s: State, e: Event, t: State)
    requires e.Report?
  {
    if e.assignmentSaved && exists i: nat :: NewestEntry(s.assignments, i, e.uid, e.hash)
    then exists i: nat :: NewestEntry(s.assignments, i, e.uid, e.hash)
                          && t.assignments == s.assignments[i := s.assignments[i].(status := e.status, updatedAt := s.clock)]
    else t.assignments == s.assignments
  }

  lemma EntryNoted(assignments: seq<Assignment>, uid: string, hash: string)
    ensures match NewestWithHash(assignments, uid, hash)
      case Some(i) => NewestEntry(assignments, i, uid, hash)
      case None => forall i: nat :: !NewestEntry(assignments, i, uid, hash)
  {
    match NewestWithHash(assignments, uid, hash)
    case Some(i) =>
      forall j: nat | j < |assignments| && assignments[j].uid == uid && assignments[j].hash == hash
        ensures assignments[j].updatedAt < assignments[i].updatedAt || (assignments[j].updatedAt == assignments[i].updatedAt && i <= j)
      {
        assert assignments[j] in assignments;
      }
    case None =>
  }

  /** A report is noted in both stores; one that says failed or unsupported, and no other, then tries
      the automatic rollback. */
  lemma ReportNoted(s: State, e: Event) returns (noted: State)
    requires e.Report?
    ensures RecordsNoted(s, e, noted) && AssignmentsNoted(s, e, noted) && noted.clock == s.clock + 1
    ensures Step(s, e) == if e.status == Failed || e.status == Unsupported
                          then AutoRollback(noted, e.uid, e.hash, e.claimed, e.found, e.calls) else (noted, Effect(None, None))
  {
    noted := Noted(s, e.uid, e.hash, e.status, e.assignmentSaved, e.deploymentSaved);
    NewestIsLatest(s.deployments, e.uid, e.hash);
    EntryNoted(s.assignments, e.uid, e.hash);
    hide AutoRollback, Latest, NewestWithHash, NewestOf, NewestEntry;
  }

  /** After a saved report the agent's newest assignment is the one reported on. */
  lemma {:induction false} ReportShows(s: State, e: Event, i: nat)
    requires e.Report? && Past(s) && e.assignmentSaved && NewestEntry(s.assignments, i, e.uid, e.hash)
    ensures var t := Noted(s, e.uid, e.hash, e.status, e.assignmentSaved, e.deploymentSaved);
      var newest := Newest(t.assignments, e.uid);
      newest.Some? && newest.value.hash == e.hash && newest.value.status == e.status
  {
    assert s.assignments[i] in s.assignments;
    ReportedNewest(s.assignments, e.uid, e.hash, e.status, s.clock, e.uid);
    hide Newest, Updated;
  }
}
