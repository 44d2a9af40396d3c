/** What the steps of a deployment request come to, said by the fields of the request, the groups, agents
    and assignments, and the deployment log alone. */
module RequestOutcome {
  import opened Wrappers
  import opened Groups
  import opened Names
  import opened Requests
  import opened Places
  import D = Delivery
  import R = DeliveryRuns
  import U = UndoRuns
  import O = DeliveryOutcome

  // ---------- The last applied configuration ----------

  /** The agent's records behind the n-th one. */
  function Later(deployments: seq<D.Deployment>, uid: string, n: nat): set<int> {
    set m: int | n < m < |deployments| && deployments[m].uid == uid :: m
  }

  /** The n-th record is the agent's newest applied one, and among its newest records. */
  ghost predicate NewestApplied(deployments: seq<D.Deployment>, uid: string, limit: nat, n: nat) {
    && n < |deployments| && deployments[n].uid == uid && deployments[n].status == D.Applied
    && (forall m :: m in Later(deployments, uid, n) ==> deployments[m].status != D.Applied)
    && |Later(deployments, uid, n)| < limit
  }

  lemma LaterSnoc(deployments: seq<D.Deployment>, last: D.Deployment, uid: string, n: nat)
    requires n < |deployments|
    ensures Later(deployments + [last], uid, n) ==
      Later(deployments, uid, n) + if last.uid == uid then {|deployments|} else {}
    ensures |Later(deployments + [last], uid, n)| == |Later(deployments, uid, n)| + if last.uid == uid then 1 else 0
  {
    var all := deployments + [last];
    var more: set<int> := if last.uid == uid then {|deployments|} else {};
    assert all[|deployments|] == last && forall i :: 0 <= i < |deployments| ==> all[i] == deployments[i];
    assert Later(all, uid, n) == Later(deployments, uid, n) + more;
    assert |deployments| !in Later(deployments, uid, n);
  }

  lemma AppliedSnoc(deployments: seq<D.Deployment>, last: D.Deployment, uid: string, limit: nat, n: nat)
    requires n < |deployments|
    ensures NewestApplied(deployments + [last], uid, limit, n) <==>
      if last.uid != uid then NewestApplied(deployments, uid, limit, n)
      else last.status != D.Applied && limit > 0 && NewestApplied(deployments, uid, limit - 1, n)
  {
    LaterSnoc(deployments, last, uid, n);
    var all := deployments + [last];
    assert all[|deployments|] == last && forall i :: 0 <= i < |deployments| ==> all[i] == deployments[i];
    hide Later;
  }

  /** The configuration an approval takes as the agent's last applied one is that of its newest applied
      record among its newest ones, or empty when there is none. */
  lemma {:induction false} LastAppliedIs(deployments: seq<D.Deployment>, uid: string, limit: nat)
    ensures (exists n: nat :: NewestApplied(deployments, uid, limit, n) && LastApplied(deployments, uid, limit) == deployments[n].configID)
         || (LastApplied(deployments, uid, limit) == "" && forall n: nat :: !NewestApplied(deployments, uid, limit, n))
  {
    if deployments == [] || limit == 0 { return; }
    var k := |deployments| - 1;
    var before, last := deployments[..k], deployments[k];
    assert deployments == before + [last];
    forall n: nat | n < k
      ensures NewestApplied(deployments, uid, limit, n) <==>
        if last.uid != uid then NewestApplied(before, uid, limit, n)
        else last.status != D.Applied && NewestApplied(before, uid, limit - 1, n)
    {
      AppliedSnoc(before, last, uid, limit, n);
    }
    if last.uid == uid && last.status == D.Applied {
      assert Later(deployments, uid, k) == {};
      assert NewestApplied(deployments, uid, limit, k);
    } else {
      var rest := if last.uid != uid then limit else limit - 1;
      LastAppliedIs(before, uid, rest);
      hide NewestApplied;
      assert !NewestApplied(deployments, uid, limit, k) by { NotApplied(deployments, uid, limit, k); }
      if n: nat :| NewestApplied(before, uid, rest, n) && LastApplied(before, uid, rest) == before[n].configID {
        assert n < k by { InLog(before, uid, rest, n); }
        assert NewestApplied(deployments, uid, limit, n);
      } else {
        forall n: nat ensures !NewestApplied(deployments, uid, limit, n) {
          if NewestApplied(deployments, uid, limit, n) { InLog(deployments, uid, limit, n); }
        }
      }
    }
  }

  lemma NotApplied(deployments: seq<D.Deployment>, uid: string, limit: nat, n: nat)
    requires n < |deployments| && (deployments[n].uid != uid || deployments[n].status != D.Applied)
    ensures !NewestApplied(deployments, uid, limit, n)
  {
  }

  lemma InLog(deployments: seq<D.Deployment>, uid: string, limit: nat, n: nat)
    requires NewestApplied(deployments, uid, limit, n)
    ensures n < |deployments|
  {
  }

  // ---------- Other agents do not matter ----------

  /** Nothing about the agent has changed: its records are the same, there is no new one, and its newest
      assignment is the same. */
  ghost predicate SameFor(s: D.State, t: D.State, uid: string) {
    && |s.deployments| <= |t.deployments| && t.configs == s.configs
    && (forall i :: 0 <= i < |s.deployments| ==> t.deployments[i].uid == s.deployments[i].uid)
    && (forall i :: 0 <= i < |s.deployments| && s.deployments[i].uid == uid ==> t.deployments[i] == s.deployments[i])
    && (forall i :: |s.deployments| <= i < |t.deployments| ==> t.deployments[i].uid != uid)
    && D.Newest(t.assignments, uid) == D.Newest(s.assignments, uid)
  }

  lemma DeliverSameFor(s: D.State, order: D.Order, calls: D.Calls, uid: string)
    requires order.uid != uid
    ensures SameFor(s, D.Deliver(s, order, calls).0, uid)
  {
    hide D.Upserted, D.Newest, D.Latest;
    var t := D.Deliver(s, order, calls).0;
    if t.assignments != s.assignments {
      var a := D.Assignment(order.uid, order.config.id, order.config.hash, if calls.record then D.SentStatus(calls.send) else D.Pending,
                            if calls.record then s.clock + 1 else s.clock);
      U.UpsertedOther(s.assignments, a, uid);
    }
  }

  lemma RollbackSameFor(s: D.State, agent: string, hash: string, claimed: bool, found: bool, calls: D.Calls, uid: string)
    requires agent != uid
    ensures SameFor(s, D.AutoRollback(s, agent, hash, claimed, found, calls).0, uid)
  {
    hide D.Deliver, D.Latest, D.Newest;
    var target := D.RollbackTarget(s, agent, hash);
    if target.Some? && claimed {
      assert s.deployments[target.value].uid == agent by { TargetOf(s, agent, hash); }
      var s1 := s.(deployments := s.deployments[target.value := s.deployments[target.value].(claimed := true)]);
      var previous := s.deployments[target.value].previousConfigID;
      if found && previous in s.configs {
        DeliverSameFor(s1, D.Order(agent, s.configs[previous], D.Rollback, "", ""), calls, uid);
      }
    }
  }

  lemma TargetOf(s: D.State, uid: string, hash: string)
    ensures D.RollbackTarget(s, uid, hash).Some? ==> s.deployments[D.RollbackTarget(s, uid, hash).value].uid == uid
  {
  }

  lemma SameForTransitive(s: D.State, t: D.State, u: D.State, uid: string)
    requires SameFor(s, t, uid) && SameFor(t, u, uid)
    ensures SameFor(s, u, uid)
  {
  }

  lemma SameForItself(s: D.State, uid: string)
    ensures SameFor(s, s, uid)
  {
  }

  /** An agent about which nothing has changed is treated alike. */
  lemma SameForMade(s: D.State, t: D.State, order: D.Order, calls: D.Calls)
    requires SameFor(s, t, order.uid)
    ensures O.Made(s, order, calls) <==> O.Made(t, order, calls)
  {
    hide D.Newest, D.Latest;
    O.ShownIsCurrent(s, order);
    O.ShownIsCurrent(t, order);
    if O.Underway(s, order.uid) {
      var i :| 0 <= i < |s.deployments| && s.deployments[i].uid == order.uid && s.deployments[i].status in [D.Pending, D.Status.Sent, D.Applying]
        && forall j | i < j < |s.deployments| :: s.deployments[j].uid != order.uid;
      assert t.deployments[i] == s.deployments[i];
      assert O.Underway(t, order.uid);
    }
    if O.Underway(t, order.uid) {
      var i :| 0 <= i < |t.deployments| && t.deployments[i].uid == order.uid && t.deployments[i].status in [D.Pending, D.Status.Sent, D.Applying]
        && forall j | i < j < |t.deployments| :: t.deployments[j].uid != order.uid;
      assert i < |s.deployments|;
      assert t.deployments[i] == s.deployments[i];
      assert O.Underway(s, order.uid);
    }
    hide O.ShownApplied, O.Underway;
    MadeByCurrent(s, order);
    MadeByCurrent(t, order);
  }

  lemma MadeByCurrent(s: D.State, order: D.Order)
    ensures order.action != D.Reconcile && O.ShownApplied(s, order) <==>
      order.action != D.Reconcile && D.Newest(s.assignments, order.uid).Some?
      && D.Newest(s.assignments, order.uid).value.hash == order.config.hash && D.Newest(s.assignments, order.uid).value.status == D.Applied
  {
    O.ShownIsCurrent(s, order);
  }

  lemma {:induction false} SameForLastApplied(s: D.State, t: D.State, uid: string)
    requires SameFor(s, t, uid)
    ensures forall limit :: LastApplied(t.deployments, uid, limit) == LastApplied(s.deployments, uid, limit)
  {
    SkipOthers(t.deployments, |s.deployments|, uid);
    SameLastApplied(s.deployments, t.deployments[..|s.deployments|], uid);
  }

  lemma {:induction false} SkipOthers(deployments: seq<D.Deployment>, n: nat, uid: string)
    requires n <= |deployments| && forall i :: n <= i < |deployments| ==> deployments[i].uid != uid
    ensures forall limit :: LastApplied(deployments, uid, limit) == LastApplied(deployments[..n], uid, limit)
  {
    if n < |deployments| {
      var k := |deployments| - 1;
      SkipOthers(deployments[..k], n, uid);
      assert deployments[..k][..n] == deployments[..n];
      forall limit: nat ensures LastApplied(deployments, uid, limit) == LastApplied(deployments[..k], uid, limit) { }
    } else {
      assert deployments[..n] == deployments;
    }
  }

  lemma {:induction false} SameLastApplied(a: seq<D.Deployment>, b: seq<D.Deployment>, uid: string)
    requires |a| == |b| && forall i :: 0 <= i < |a| ==> a[i].uid == b[i].uid && (a[i].uid == uid ==> a[i] == b[i])
    ensures forall limit :: LastApplied(a, uid, limit) == LastApplied(b, uid, limit)
  {
    if a != [] {
      var k := |a| - 1;
      SameLastApplied(a[..k], b[..k], uid);
      forall limit: nat ensures LastApplied(a, uid, limit) == LastApplied(b, uid, limit) { }
    }
  }

  // ---------- What an approval sends ----------

  /** The delivery to this agent is made and accepted. */
  predicate Accepted(plane: D.State, uid: string, config: D.Configuration, rollout: Rollout) {
    && rollout.historyRead && O.Made(plane, D.Order(uid, config, D.Deploy, "", ""), rollout.calls)
    && rollout.calls.assign && rollout.calls.record && rollout.calls.send == D.SendOk
  }

  /** No agent is an eligible target twice. */
  predicate OnceEach(targets: seq<Target>) {
    forall i, j | 0 <= i < j < |targets| && targets[i].eligible && targets[j].eligible :: targets[i].uid != targets[j].uid
  }

  lemma MadeAlike(plane: D.State, uid: string, config: D.Configuration, previous: string, id: string, calls: D.Calls)
    ensures O.Made(plane, D.Order(uid, config, D.Deploy, previous, id), calls)
       <==> O.Made(plane, D.Order(uid, config, D.Deploy, "", ""), calls)
  {
  }

  lemma {:induction false} TurnSameFor(plane: D.State, id: string, request: Request, config: D.Configuration, k: nat, rollouts: seq<Rollout>, uid: string)
    requires k < |request.targets| && (request.targets[k].eligible ==> request.targets[k].uid != uid)
    ensures SameFor(DeployTo(plane, id, request, config, k, rollouts).0, DeployTo(plane, id, request, config, k + 1, rollouts).0, uid)
  {
    var before := DeployTo(plane, id, request, config, k, rollouts).0;
    var target, rollout := request.targets[k], RolloutAt(rollouts, k);
    SameForItself(before, uid);
    if target.eligible && rollout.historyRead {
      var order := D.Order(target.uid, config, D.Deploy, LastApplied(before.deployments, target.uid, RECENT_LIMIT), id);
      DeliverSameFor(before, order, rollout.calls, uid);
      var sent := D.Deliver(before, order, rollout.calls).0;
      RollbackSameFor(sent, target.uid, config.hash, rollout.claimed, rollout.found, rollout.undoCalls, uid);
      var undone := D.AutoRollback(sent, target.uid, config.hash, rollout.claimed, rollout.found, rollout.undoCalls).0;
      SameForTransitive(before, sent, undone, uid);
    }
    hide SameFor, D.Deliver, D.AutoRollback, LastApplied;
  }

  lemma {:induction false} TurnsSameFor(plane: D.State, id: string, request: Request, config: D.Configuration, from: nat, k: nat,
                                      rollouts: seq<Rollout>, uid: string)
    requires from <= k <= |request.targets|
    requires forall i :: from <= i < k && request.targets[i].eligible ==> request.targets[i].uid != uid
    ensures SameFor(DeployTo(plane, id, request, config, from, rollouts).0, DeployTo(plane, id, request, config, k, rollouts).0, uid)
    decreases k - from
  {
    hide *;
    var start := DeployTo(plane, id, request, config, from, rollouts).0;
    if from == k {
      SameForItself(start, uid);
    } else {
      TurnsSameFor(plane, id, request, config, from, k - 1, rollouts, uid);
      TurnSameFor(plane, id, request, config, k - 1, rollouts, uid);
      SameForTransitive(start, DeployTo(plane, id, request, config, k - 1, rollouts).0, DeployTo(plane, id, request, config, k, rollouts).0, uid);
    }
  }

  /** A deploy record for the agent since the n-th record. */
  ghost predicate DeployRecord(deployments: seq<D.Deployment>, from: nat, n: nat, uid: string) {
    from <= n < |deployments| && deployments[n].uid == uid && deployments[n].action == D.Deploy
  }

  /** The record names the approved configuration, the request, and what the agent applied last; and it
      has the status the delivery left. */
  ghost predicate RecordOf(d: D.Deployment, uid: string, config: D.Configuration, previous: string, id: string, calls: D.Calls) {
    && d == D.Deployment(uid, config.id, config.hash, D.Deploy, previous, id, d.claimed, d.status)
    && (d.status == D.Status.Sent <==> calls.update && calls.assign && calls.record && calls.send == D.SendOk)
    && (d.status == D.Unsupported <==> calls.update && calls.assign && calls.record && calls.send == D.SendUnsupported)
    && (d.status == D.Failed <==> calls.update && (!calls.assign || (calls.record && calls.send == D.SendError)))
  }

  /** The previous configuration recorded for the agent. */
  ghost predicate PreviousIs(deployments: seq<D.Deployment>, uid: string, previous: string) {
    || (exists n: nat :: NewestApplied(deployments, uid, 100, n) && previous == deployments[n].configID)
    || (previous == "" && forall n: nat :: !NewestApplied(deployments, uid, 100, n))
  }

  lemma LastAppliedIsPrevious(deployments: seq<D.Deployment>, uid: string)
    ensures PreviousIs(deployments, uid, LastApplied(deployments, uid, RECENT_LIMIT))
  {
    LastAppliedIs(deployments, uid, RECENT_LIMIT);
  }

  /** One turn: the target's own delivery, which is recorded exactly when it is made. */
  lemma {:induction false} TurnDeploys(before: D.State, uid: string, id: string, config: D.Configuration, rollout: Rollout)
    returns (after: D.State, n: nat)
    requires rollout.historyRead
    ensures var order := D.Order(uid, config, D.Deploy, LastApplied(before.deployments, uid, RECENT_LIMIT), id);
      var (sent, result) := D.Deliver(before, order, rollout.calls);
      && after == (if result == D.Delivered then sent
                   else D.AutoRollback(sent, uid, config.hash, rollout.claimed, rollout.found, rollout.undoCalls).0)
      && n == |before.deployments| <= |after.deployments|
      && (forall i :: 0 <= i < n ==> after.deployments[i].uid == before.deployments[i].uid)
      && (O.Made(before, order, rollout.calls) ==>
            n < |after.deployments| && RecordOf(after.deployments[n], uid, config, order.previousConfigID, id, rollout.calls))
      && forall i :: 0 <= i < |after.deployments| && DeployRecord(after.deployments, n, i, uid) ==>
           i == n && O.Made(before, order, rollout.calls)
  {
    var order := D.Order(uid, config, D.Deploy, LastApplied(before.deployments, uid, RECENT_LIMIT), id);
    var (sent, result) := D.Deliver(before, order, rollout.calls);
    hide LastApplied;
    n := |before.deployments|;
    DeliverRecord(before, order, rollout.calls);
    O.DeliveryAnswers(before, order, rollout.calls);
    if O.Made(before, order, rollout.calls) { O.DeliveryRecords(before, order, rollout.calls); }
    hide D.Deliver, O.Made;
    after := sent;
    if result != D.Delivered {
      RollbackRecord(sent, uid, config.hash, rollout.claimed, rollout.found, rollout.undoCalls);
      hide D.AutoRollback;
      after := D.AutoRollback(sent, uid, config.hash, rollout.claimed, rollout.found, rollout.undoCalls).0;
      forall i | |sent.deployments| <= i < |after.deployments| ensures after.deployments[i].action == D.Rollback {
        assert after.deployments[i] in after.deployments[|sent.deployments|..];
      }
    }
  }

  /** After the targets were visited, an eligible target has exactly one deploy record more when its
      history was read and its delivery is made, and none otherwise. */
  lemma {:induction false} TargetDeployed(plane: D.State, id: string, request: Request, config: D.Configuration, rollouts: seq<Rollout>, k: nat)
    returns (previous: string, n: nat)
    requires k < |request.targets| && request.targets[k].eligible && OnceEach(request.targets)
    ensures PreviousIs(plane.deployments, request.targets[k].uid, previous)
    ensures var uid, rollout := request.targets[k].uid, RolloutAt(rollouts, k);
      var t := DeployTo(plane, id, request, config, |request.targets|, rollouts).0;
      var made := rollout.historyRead && O.Made(plane, D.Order(uid, config, D.Deploy, previous, id), rollout.calls);
      && (made ==> DeployRecord(t.deployments, |plane.deployments|, n, uid)
                   && RecordOf(t.deployments[n], uid, config, previous, id, rollout.calls))
      && forall i :: 0 <= i < |t.deployments| && DeployRecord(t.deployments, |plane.deployments|, i, uid) ==> made && i == n
  {
    hide *;
    var uid := request.targets[k].uid;
    var before := DeployTo(plane, id, request, config, k, rollouts).0;
    var after := DeployTo(plane, id, request, config, k + 1, rollouts).0;
    var t := DeployTo(plane, id, request, config, |request.targets|, rollouts).0;
    previous := LastApplied(plane.deployments, uid, RECENT_LIMIT);
    LastAppliedIsPrevious(plane.deployments, uid);
    OthersDiffer(request.targets, k);
    NoTurn(plane, id, request, config, rollouts);
    TurnsSameFor(plane, id, request, config, 0, k, rollouts, uid);
    TurnsSameFor(plane, id, request, config, k + 1, |request.targets|, rollouts, uid);
    n := TurnResult(plane, id, request, config, rollouts, k, before, after);
    RecordsOfAgent(plane, before, after, t, uid, n);
  }

  lemma OthersDiffer(targets: seq<Target>, k: nat)
    requires k < |targets| && targets[k].eligible && OnceEach(targets)
    ensures forall j :: 0 <= j < |targets| && j != k && targets[j].eligible ==> targets[j].uid != targets[k].uid
  {
  }

  lemma NoTurn(plane: D.State, id: string, request: Request, config: D.Configuration, rollouts: seq<Rollout>)
    ensures DeployTo(plane, id, request, config, 0, rollouts) == (plane, 0)
  {
  }

  lemma {:induction false} TurnResult(plane: D.State, id: string, request: Request, config: D.Configuration, rollouts: seq<Rollout>, k: nat,
                                      before: D.State, after: D.State) returns (n: nat)
    requires k < |request.targets| && request.targets[k].eligible
    requires before == DeployTo(plane, id, request, config, k, rollouts).0 && after == DeployTo(plane, id, request, config, k + 1, rollouts).0
    requires SameFor(plane, before, request.targets[k].uid)
    ensures var uid, rollout := request.targets[k].uid, RolloutAt(rollouts, k);
      var previous := LastApplied(plane.deployments, uid, RECENT_LIMIT);
      var made := rollout.historyRead && O.Made(plane, D.Order(uid, config, D.Deploy, previous, id), rollout.calls);
      && n == |before.deployments| <= |after.deployments|
      && (forall i :: 0 <= i < n ==> after.deployments[i].uid == before.deployments[i].uid)
      && (made ==> DeployRecord(after.deployments, n, n, uid) && RecordOf(after.deployments[n], uid, config, previous, id, rollout.calls))
      && forall i :: 0 <= i < |after.deployments| && DeployRecord(after.deployments, n, i, uid) ==> i == n && made
  {
    var uid, rollout := request.targets[k].uid, RolloutAt(rollouts, k);
    var previous := LastApplied(plane.deployments, uid, RECENT_LIMIT);
    n := |before.deployments|;
    SameForLastApplied(plane, before, uid);
    if rollout.historyRead {
      SameForMade(plane, before, D.Order(uid, config, D.Deploy, previous, id), rollout.calls);
      var turned, at := TurnDeploys(before, uid, id, config, rollout);
      assert turned == after;
    } else {
      assert after == before;
    }
    hide DeployTo, O.Made, LastApplied, D.Deliver, D.AutoRollback, SameFor;
  }

  /** The agent's deploy records of the whole approval are those of its own turn. */
  lemma RecordsOfAgent(plane: D.State, before: D.State, after: D.State, t: D.State, uid: string, n: nat)
    requires SameFor(plane, before, uid) && SameFor(after, t, uid) && n == |before.deployments| <= |after.deployments|
    requires forall i :: 0 <= i < n ==> after.deployments[i].uid == before.deployments[i].uid
    ensures |plane.deployments| <= n
    ensures DeployRecord(after.deployments, n, n, uid) ==>
      DeployRecord(t.deployments, |plane.deployments|, n, uid) && t.deployments[n] == after.deployments[n]
    ensures forall i :: 0 <= i < |t.deployments| && DeployRecord(t.deployments, |plane.deployments|, i, uid) ==>
      i < |after.deployments| && DeployRecord(after.deployments, n, i, uid)
  {
  }

  /** Some delivery failed exactly when one of the eligible targets did not accept its own. */
  lemma {:induction false} FailuresExactly(plane: D.State, id: string, request: Request, config: D.Configuration, rollouts: seq<Rollout>, k: nat)
    requires k <= |request.targets| && OnceEach(request.targets)
    ensures DeployTo(plane, id, request, config, k, rollouts).1 > 0 <==>
      exists i :: 0 <= i < k && request.targets[i].eligible && !Accepted(plane, request.targets[i].uid, config, RolloutAt(rollouts, i))
  {
    if k > 0 {
      FailuresExactly(plane, id, request, config, rollouts, k - 1);
      if request.targets[k - 1].eligible { TurnFails(plane, id, request, config, rollouts, k - 1); }
    }
    hide Accepted, D.Deliver, D.AutoRollback, LastApplied, OnceEach;
  }

  lemma {:induction false} TurnFails(plane: D.State, id: string, request: Request, config: D.Configuration, rollouts: seq<Rollout>, k: nat)
    requires k < |request.targets| && request.targets[k].eligible && OnceEach(request.targets)
    ensures DeployTo(plane, id, request, config, k + 1, rollouts).1 == DeployTo(plane, id, request, config, k, rollouts).1 +
      (if Accepted(plane, request.targets[k].uid, config, RolloutAt(rollouts, k)) then 0 else 1)
  {
    var uid, rollout := request.targets[k].uid, RolloutAt(rollouts, k);
    var before := DeployTo(plane, id, request, config, k, rollouts).0;
    var previous := LastApplied(before.deployments, uid, RECENT_LIMIT);
    var order := D.Order(uid, config, D.Deploy, previous, id);
    OthersDiffer(request.targets, k);
    NoTurn(plane, id, request, config, rollouts);
    TurnsSameFor(plane, id, request, config, 0, k, rollouts, uid);
    hide SameFor, OnceEach;
    SameForMade(plane, before, order, rollout.calls);
    O.DeliveryAnswers(before, order, rollout.calls);
    MadeAlike(plane, uid, config, previous, id, rollout.calls);
    hide D.Deliver, D.AutoRollback, LastApplied, O.Made;
  }

  // ---------- An approval ----------

  /** The label as it applies to the agent: the operator's value, else the reported one. */
  function LabelOf(agent: Agent, key: string): string {
    if key in agent.labels then agent.labels[key] else if key in agent.reportedLabels then agent.reportedLabels[key] else ""
  }

  /** The agent is in the group and carries the labels. */
  predicate Belongs(agent: Agent, group: Group, labels: Fields) {
    MatchesIdentity(group, agent) && forall key | key in labels :: LabelOf(agent, key) == labels[key]
  }

  /** The agent's newest assignment is this configuration, in one of these statuses. */
  predicate AssignedAs(assignments: seq<D.Assignment>, uid: string, hash: string, statuses: seq<D.Status>) {
    var newest := D.Newest(assignments, uid);
    newest.Some? && newest.value.hash == hash && newest.value.status in statuses
  }

  /** Whether a configuration may go to the agent, and if not, why. */
  predicate ReadinessIs(readiness: Readiness, agent: Agent, enabled: bool, hash: string, assignments: seq<D.Assignment>) {
    var basic := enabled && !agent.retired && agent.connected && agent.acceptsRemoteConfig;
    match readiness
    case GroupDisabled => !enabled
    case Retired => enabled && agent.retired
    case Offline => enabled && !agent.retired && !agent.connected
    case Unsupported => enabled && !agent.retired && agent.connected && !agent.acceptsRemoteConfig
    case AlreadyDeployed => basic && AssignedAs(assignments, agent.uid, hash, [D.Applied])
    case Busy => basic && AssignedAs(assignments, agent.uid, hash, [D.Pending, D.Status.Sent, D.Applying])
    case Ready => basic && !AssignedAs(assignments, agent.uid, hash, [D.Applied, D.Pending, D.Status.Sent, D.Applying])
  }

  lemma ReadinessExactly(agent: Agent, enabled: bool, hash: string, assignments: seq<D.Assignment>)
    ensures forall readiness :: ReadinessIs(readiness, agent, enabled, hash, assignments) <==>
      readiness == ReadinessFor(agent, enabled, hash, assignments)
  {
  }

  lemma BelongsExactly(agent: Agent, group: Group, labels: Fields)
    ensures Belongs(agent, group, labels) <==> MatchesIdentity(group, agent) && LabelsMatch(agent, labels)
  {
    hide MatchesIdentity;
    forall key ensures Lookup(EffectiveLabels(agent), key) == LabelOf(agent, key) { }
  }

  /** The target is still a ready member. */
  predicate StillThere(w: World, request: Request, uid: string)
    requires request.groupID in w.groups
  {
    exists i | 0 <= i < |w.agents| ::
      && w.agents[i].uid == uid && Belongs(w.agents[i], w.groups[request.groupID], request.labels)
      && ReadinessIs(Ready, w.agents[i], w.groups[request.groupID].enabled, request.hash, w.plane.assignments)
  }

  /** The approval is allowed: the request is pending and not expired, the reviewer is not the requester
      but the assigned reviewer if there is one, group and configuration are as submitted, and there are
      eligible targets, all of them still ready members. */
  predicate MayApprove(w: World, e: Event)
    requires e.Approve?
  {
    && e.id in w.requests && e.valid
    && var request := w.requests[e.id];
    && request.status == PendingApproval && (e.swept ==> e.now < request.expiresAt)
    && Fold(e.reviewer) != Fold(request.requestedBy)
    && (request.assignedReviewer != "" ==> Fold(e.reviewer) == Fold(request.assignedReviewer) && e.reviewerAllowed)
    && request.groupID in w.groups && w.groups[request.groupID].enabled
    && SameSelector(w.groups[request.groupID].selector, request.selector)
    && request.configID in w.artifacts && w.artifacts[request.configID].groupID == request.groupID
    && w.artifacts[request.configID].config.hash == request.hash
    && (exists i | 0 <= i < |request.targets| :: request.targets[i].eligible)
    && forall i | 0 <= i < |request.targets| && request.targets[i].eligible :: StillThere(w, request, request.targets[i].uid)
  }

  lemma {:induction false} EligiblesExactly(targets: seq<Target>)
    ensures Eligibles(targets) > 0 <==> exists i :: 0 <= i < |targets| && targets[i].eligible
  {
    if targets != [] { EligiblesExactly(targets[..|targets| - 1]); }
  }

  lemma StillThereExactly(w: World, request: Request, uid: string)
    requires request.groupID in w.groups
    ensures StillThere(w, request, uid) <==> StillReady(w, request, w.groups[request.groupID], uid)
  {
    var group := w.groups[request.groupID];
    forall i | 0 <= i < |w.agents|
      ensures Belongs(w.agents[i], group, request.labels) <==> MatchesIdentity(group, w.agents[i]) && LabelsMatch(w.agents[i], request.labels)
      ensures ReadinessIs(Ready, w.agents[i], group.enabled, request.hash, w.plane.assignments)
         <==> ReadinessFor(w.agents[i], group.enabled, request.hash, w.plane.assignments) == Ready
    {
      BelongsExactly(w.agents[i], group, request.labels);
      ReadinessExactly(w.agents[i], group.enabled, request.hash, w.plane.assignments);
    }
    hide Belongs, ReadinessIs, MatchesIdentity, LabelsMatch, ReadinessFor;
  }

  lemma ApprovableExactly(w: World, request: Request, e: Event)
    requires e.Approve? && e.id in w.requests && w.requests[e.id] == request && (e.swept ==> e.now < request.expiresAt)
    ensures Approvable(w, request, e.reviewer, e.reviewerAllowed, e.valid) <==> MayApprove(w, e)
  {
    hide StillThere, StillReady, SameSelector, Eligibles, Fold;
    EligiblesExactly(request.targets);
    if request.groupID in w.groups { AllStillThere(w, request); }
  }

  lemma AllStillThere(w: World, request: Request)
    requires request.groupID in w.groups
    ensures (forall i | 0 <= i < |request.targets| && request.targets[i].eligible :: StillThere(w, request, request.targets[i].uid))
      <==> forall i | 0 <= i < |request.targets| && request.targets[i].eligible ::
             StillReady(w, request, w.groups[request.groupID], request.targets[i].uid)
  {
    hide StillThere, StillReady;
    forall i | 0 <= i < |request.targets|
      ensures StillThere(w, request, request.targets[i].uid) <==> StillReady(w, request, w.groups[request.groupID], request.targets[i].uid)
    {
      StillThereExactly(w, request, request.targets[i].uid);
    }
  }

  /** A request as the sweep of expired ones leaves it. */
  ghost predicate SweptTo(before: Request, after: Request, swept: bool, now: int) {
    after == if swept && before.status == PendingApproval && before.expiresAt <= now then before.(status := Expired) else before
  }

  /** Requests other than this one are swept and else untouched. */
  ghost predicate OthersSwept(w: World, t: World, id: string, swept: bool, now: int) {
    && t == w.(plane := t.plane, requests := t.requests) && t.requests.Keys == w.requests.Keys
    && forall other :: other in w.requests && other != id ==> SweptTo(w.requests[other], t.requests[other], swept, now)
  }

  /** An approval that is not allowed sends nothing. One that is allowed notes the reviewer, sends the
      configuration (`TargetDeployed` says to whom) and leaves the request failed exactly when some
      eligible target did not accept it and that can be saved, and deploying else. */
  lemma {:induction false} ApprovalOutcome(w: World, e: Event)
    requires e.Approve?
    ensures var t := Step(w, e);
      && OthersSwept(w, t, e.id, e.swept, e.now)
      && (!MayApprove(w, e) ==> t.plane == w.plane && (e.id in w.requests ==> SweptTo(w.requests[e.id], t.requests[e.id], e.swept, e.now)))
      && (MayApprove(w, e) && OnceEach(w.requests[e.id].targets) ==>
            var request, config := w.requests[e.id], w.artifacts[w.requests[e.id].configID].config;
            && t.plane == DeployTo(w.plane, e.id, request, config, |request.targets|, e.rollouts).0
            && var failed := exists i :: 0 <= i < |request.targets| && request.targets[i].eligible
                                         && !Accepted(w.plane, request.targets[i].uid, config, RolloutAt(e.rollouts, i));
            t.requests[e.id] == request.(status := if failed && e.saved then Failed else Deploying, reviewedBy := e.reviewer))
  {
    hide Accepted, OnceEach, MayApprove, Approvable;
    if e.id in w.requests {
      var request := w.requests[e.id];
      if e.swept && request.status == PendingApproval && request.expiresAt <= e.now {
        NotApprovable(w, e);
      } else {
        SweptRequest(w, e);
        if MayApprove(w, e) {
          ApprovedFacts(w, e);
          if OnceEach(request.targets) {
            SameDeploys(w.plane, e.id, request, request.(status := Deploying, reviewedBy := e.reviewer),
                        w.artifacts[request.configID].config, |request.targets|, e.rollouts);
            FailuresExactly(w.plane, e.id, request, w.artifacts[request.configID].config, e.rollouts, |request.targets|);
          }
        }
      }
    } else {
      NotApprovable(w, e);
    }
    hide DeployTo;
  }

  lemma ApprovedFacts(w: World, e: Event)
    requires e.Approve? && MayApprove(w, e)
    ensures e.id in w.requests && w.requests[e.id].configID in w.artifacts
  {
  }

  lemma NotApprovable(w: World, e: Event)
    requires e.Approve?
    requires e.id in w.requests ==> e.swept && w.requests[e.id].status == PendingApproval && w.requests[e.id].expiresAt <= e.now
    ensures !MayApprove(w, e)
    ensures var requests := Swept(w, e.swept, e.now);
      e.id in requests ==> !Approvable(w, requests[e.id], e.reviewer, e.reviewerAllowed, e.valid)
  {
    hide Unchanged, MayReview, StillReady, Eligibles;
  }

  lemma SweptRequest(w: World, e: Event)
    requires e.Approve? && e.id in w.requests
    requires !(e.swept && w.requests[e.id].status == PendingApproval && w.requests[e.id].expiresAt <= e.now)
    ensures var requests := Swept(w, e.swept, e.now);
      && e.id in requests && requests[e.id] == w.requests[e.id]
      && (Approvable(w, requests[e.id], e.reviewer, e.reviewerAllowed, e.valid) <==> MayApprove(w, e))
  {
    if e.swept && w.requests[e.id].expiresAt <= e.now {
      hide Unchanged, MayReview, StillReady, Eligibles, StillThere;
    } else {
      ApprovableExactly(w, w.requests[e.id], e);
      hide Approvable, MayApprove;
    }
  }

  lemma {:induction false} SameDeploys(plane: D.State, id: string, a: Request, b: Request, config: D.Configuration, k: nat, rollouts: seq<Rollout>)
    requires a.targets == b.targets && k <= |a.targets|
    ensures DeployTo(plane, id, a, config, k, rollouts) == DeployTo(plane, id, b, config, k, rollouts)
  {
    if k > 0 { SameDeploys(plane, id, a, b, config, k - 1, rollouts); }
    hide D.Deliver, D.AutoRollback, LastApplied;
  }

  // ---------- Submissions ----------

  /** The members with the labels among the agents from one place on, in their order at these places. */
  ghost predicate MembersAt(agents: seq<Agent>, from: nat, group: Group, labels: Fields, members: seq<Agent>, places: seq<nat>) {
    && |places| == |members| && Increasing(places)
    && (forall i :: 0 <= i < |places| ==> from <= places[i] < |agents| && members[i] == agents[places[i]])
    && (forall k :: from <= k < |agents| ==> (k in places <==> Belongs(agents[k], group, labels)))
  }

  lemma {:induction false} MembersListed(agents: seq<Agent>, from: nat, group: Group, labels: Fields) returns (places: seq<nat>)
    requires from <= |agents|
    ensures MembersAt(agents, from, group, labels, Members(agents[from..], group, labels), places)
    decreases |agents| - from
  {
    places := [];
    if from < |agents| {
      var rest := MembersListed(agents, from + 1, group, labels);
      assert agents[from..] == [agents[from]] + agents[from + 1..];
      MembersStep(agents, from, group, labels);
      hide *;
      var members := Members(agents[from + 1..], group, labels);
      if Belongs(agents[from], group, labels) {
        MemberMore(agents, from, group, labels, members, rest);
        places := [from] + rest;
      } else {
        NoMemberMore(agents, from, group, labels, members, rest);
        places := rest;
      }
    }
  }

  lemma MembersStep(agents: seq<Agent>, from: nat, group: Group, labels: Fields)
    requires from < |agents|
    ensures Members(agents[from..], group, labels) ==
      (if Belongs(agents[from], group, labels) then [agents[from]] + Members(agents[from + 1..], group, labels)
       else Members(agents[from + 1..], group, labels))
  {
    assert agents[from..][0] == agents[from] && agents[from..][1..] == agents[from + 1..];
    BelongsExactly(agents[from], group, labels);
    hide Belongs, MatchesIdentity, LabelsMatch;
  }

  lemma NoMemberMore(agents: seq<Agent>, from: nat, group: Group, labels: Fields, members: seq<Agent>, rest: seq<nat>)
    requires from < |agents| && MembersAt(agents, from + 1, group, labels, members, rest) && !Belongs(agents[from], group, labels)
    ensures MembersAt(agents, from, group, labels, members, rest)
  {
    hide Belongs, Increasing;
    forall k | k in rest ensures from < k { var i :| 0 <= i < |rest| && rest[i] == k; }
  }

  lemma MemberMore(agents: seq<Agent>, from: nat, group: Group, labels: Fields, members: seq<Agent>, rest: seq<nat>)
    requires from < |agents| && MembersAt(agents, from + 1, group, labels, members, rest) && Belongs(agents[from], group, labels)
    ensures MembersAt(agents, from, group, labels, [agents[from]] + members, [from] + rest)
  {
    hide Belongs, Increasing;
    forall k | k in rest ensures from < k { var i :| 0 <= i < |rest| && rest[i] == k; }
    InFront(from, rest);
  }

  /** A request may be submitted: its id is new, reviewer and form are accepted, the group is enabled and
      owns the configuration, and some member with the labels is ready for it. */
  predicate MaySubmit(w: World, e: Event)
    requires e.Submit?
  {
    && e.id !in w.requests && e.reviewerAllowed && e.valid
    && e.groupID in w.groups && w.groups[e.groupID].enabled
    && e.configID in w.artifacts && w.artifacts[e.configID].groupID == e.groupID
    && exists k | 0 <= k < |w.agents| ::
         && Belongs(w.agents[k], w.groups[e.groupID], e.labels)
         && ReadinessIs(Ready, w.agents[k], true, w.artifacts[e.configID].config.hash, w.plane.assignments)
  }

  /** The new request: its targets are exactly the members with the labels, in the order of the agents
      at these places, each with its readiness and eligible exactly when ready. */
  ghost predicate Submitted(w: World, e: Event, request: Request, places: seq<nat>)
    requires e.Submit? && e.groupID in w.groups && e.configID in w.artifacts
  {
    var group, hash := w.groups[e.groupID], w.artifacts[e.configID].config.hash;
    && request == Request(e.groupID, group.selector, e.labels, e.configID, hash, request.targets, e.requestedBy,
                          e.assignedReviewer, |w.plane.deployments|, e.expiresAt, "", PendingApproval)
    && TargetsAt(w, group, e.labels, hash, request.targets, places)
  }

  ghost predicate TargetsAt(w: World, group: Group, labels: Fields, hash: string, targets: seq<Target>, places: seq<nat>) {
    && |places| == |targets| && Increasing(places)
    && (forall k :: 0 <= k < |w.agents| ==> (k in places <==> Belongs(w.agents[k], group, labels)))
    && forall i :: 0 <= i < |places| ==>
         && places[i] < |w.agents|
         && targets[i].uid == w.agents[places[i]].uid
         && ReadinessIs(targets[i].readiness, w.agents[places[i]], true, hash, w.plane.assignments)
         && (targets[i].eligible <==> targets[i].readiness == Ready)
  }

  /** A submission that is allowed adds one pending request; any other submission changes nothing. */
  lemma {:induction false} SubmitOutcome(w: World, e: Event) returns (places: seq<nat>)
    requires e.Submit?
    ensures !MaySubmit(w, e) ==> Step(w, e) == w
    ensures MaySubmit(w, e) ==>
      var t := Step(w, e);
      && t == w.(requests := t.requests) && e.id in t.requests && t.requests == w.requests[e.id := t.requests[e.id]]
      && Submitted(w, e, t.requests[e.id], places)
  {
    hide MembersAt, Belongs, ReadinessIs, Members, Eligibles, Preview, Snapshot, TargetsAt;
    places := [];
    if e.groupID in w.groups && e.configID in w.artifacts && w.groups[e.groupID].enabled {
      places := MembersListed(w.agents, 0, w.groups[e.groupID], e.labels);
      assert w.agents[0..] == w.agents;
      SnapshotExactly(w, e, places);
    }
  }

  lemma SnapshotExactly(w: World, e: Event, places: seq<nat>)
    requires e.Submit? && e.groupID in w.groups && e.configID in w.artifacts && w.groups[e.groupID].enabled
    requires MembersAt(w.agents, 0, w.groups[e.groupID], e.labels, Members(w.agents, w.groups[e.groupID], e.labels), places)
    ensures TargetsAt(w, w.groups[e.groupID], e.labels, w.artifacts[e.configID].config.hash, Snapshot(w, e), places)
    ensures Eligibles(Snapshot(w, e)) > 0 <==>
      exists k | 0 <= k < |w.agents| ::
        && Belongs(w.agents[k], w.groups[e.groupID], e.labels)
        && ReadinessIs(Ready, w.agents[k], true, w.artifacts[e.configID].config.hash, w.plane.assignments)
  {
    hide *;
    var group, hash := w.groups[e.groupID], w.artifacts[e.configID].config.hash;
    var members, targets := Members(w.agents, group, e.labels), Snapshot(w, e);
    SnapshotIs(w, e);
    EligiblesExactly(targets);
    PreviewExactly(members, hash, w.plane.assignments);
    TargetsListed(w, group, e.labels, hash, targets, members, places);
    SubmittableExactly(w, e, targets, members, places);
  }

  lemma SnapshotIs(w: World, e: Event)
    requires e.Submit? && e.groupID in w.groups && e.configID in w.artifacts && w.groups[e.groupID].enabled
    ensures Snapshot(w, e) == Preview(Members(w.agents, w.groups[e.groupID], e.labels), true, w.artifacts[e.configID].config.hash, w.plane.assignments)
  {
  }

  lemma TargetsListed(w: World, group: Group, labels: Fields, hash: string, targets: seq<Target>, members: seq<Agent>, places: seq<nat>)
    requires MembersAt(w.agents, 0, group, labels, members, places) && |targets| == |members|
    requires forall i :: 0 <= i < |members| ==>
      && targets[i].uid == members[i].uid && ReadinessIs(targets[i].readiness, members[i], true, hash, w.plane.assignments)
      && (targets[i].eligible <==> targets[i].readiness == Ready)
    ensures TargetsAt(w, group, labels, hash, targets, places)
  {
    hide Belongs, ReadinessIs;
  }

  lemma PreviewExactly(members: seq<Agent>, hash: string, assignments: seq<D.Assignment>)
    ensures var targets := Preview(members, true, hash, assignments);
      forall i :: 0 <= i < |members| ==>
        && targets[i].uid == members[i].uid && ReadinessIs(targets[i].readiness, members[i], true, hash, assignments)
        && (targets[i].eligible <==> targets[i].readiness == Ready)
        && (targets[i].eligible <==> ReadinessIs(Ready, members[i], true, hash, assignments))
  {
    hide ReadinessIs, ReadinessFor;
    var targets := Preview(members, true, hash, assignments);
    forall i | 0 <= i < |members|
      ensures targets[i].uid == members[i].uid && ReadinessIs(targets[i].readiness, members[i], true, hash, assignments)
      ensures targets[i].eligible <==> targets[i].readiness == Ready
      ensures targets[i].eligible <==> ReadinessIs(Ready, members[i], true, hash, assignments)
    {
      ReadinessExactly(members[i], true, hash, assignments);
    }
  }

  lemma SubmittableExactly(w: World, e: Event, targets: seq<Target>, members: seq<Agent>, places: seq<nat>)
    requires e.Submit? && e.groupID in w.groups && e.configID in w.artifacts && w.groups[e.groupID].enabled
    requires MembersAt(w.agents, 0, w.groups[e.groupID], e.labels, members, places) && |targets| == |members|
    requires forall i :: 0 <= i < |members| ==>
      (targets[i].eligible <==> ReadinessIs(Ready, members[i], true, w.artifacts[e.configID].config.hash, w.plane.assignments))
    ensures (exists i :: 0 <= i < |targets| && targets[i].eligible) <==>
      exists k | 0 <= k < |w.agents| ::
        && Belongs(w.agents[k], w.groups[e.groupID], e.labels)
        && ReadinessIs(Ready, w.agents[k], true, w.artifacts[e.configID].config.hash, w.plane.assignments)
  {
    hide Belongs, ReadinessIs;
    if i :| 0 <= i < |targets| && targets[i].eligible {
      assert places[i] in places && w.agents[places[i]] == members[i];
    }
    if k :| 0 <= k < |w.agents| && Belongs(w.agents[k], w.groups[e.groupID], e.labels)
            && ReadinessIs(Ready, w.agents[k], true, w.artifacts[e.configID].config.hash, w.plane.assignments) {
      assert k in places;
      var i :| 0 <= i < |places| && places[i] == k;
      assert targets[i].eligible;
    }
  }

  /** When every agent is listed once, no agent is a target of a new request twice. */
  lemma {:induction false} SubmittedOnceEach(w: World, e: Event)
    requires e.Submit? && MaySubmit(w, e) && forall i, j :: 0 <= i < j < |w.agents| ==> w.agents[i].uid != w.agents[j].uid
    ensures e.id in Step(w, e).requests && OnceEach(Step(w, e).requests[e.id].targets)
  {
    var places := SubmitOutcome(w, e);
    hide Step, TargetsAt, OnceEach;
    OnceEachAt(w, w.groups[e.groupID], e.labels, w.artifacts[e.configID].config.hash, Step(w, e).requests[e.id].targets, places);
    hide MaySubmit;
  }

  lemma OnceEachAt(w: World, group: Group, labels: Fields, hash: string, targets: seq<Target>, places: seq<nat>)
    requires TargetsAt(w, group, labels, hash, targets, places)
    requires forall i, j :: 0 <= i < j < |w.agents| ==> w.agents[i].uid != w.agents[j].uid
    ensures OnceEach(targets)
  {
    hide Belongs, ReadinessIs;
    forall i, j | 0 <= i < j < |targets| ensures targets[i].uid != targets[j].uid { assert places[i] < places[j]; }
  }

  // ---------- Turning a request away, and the end of one ----------

  /** A pending request that has not expired, when the sweep is made. */
  predicate StillPending(w: World, id: string, swept: bool, now: int) {
    id in w.requests && w.requests[id].status == PendingApproval && (swept ==> now < w.requests[id].expiresAt)
  }

  lemma SweptOne(w: World, id: string, swept: bool, now: int)
    requires id in w.requests
    ensures var requests := Swept(w, swept, now);
      && id in requests && SweptTo(w.requests[id], requests[id], swept, now)
      && (requests[id].status == PendingApproval <==> StillPending(w, id, swept, now))
      && (StillPending(w, id, swept, now) ==> requests[id] == w.requests[id])
      && requests[id] == w.requests[id].(status := requests[id].status)
  {
  }

  /** Changing one request leaves the others swept. */
  lemma SweptOthers(w: World, t: World, id: string, swept: bool, now: int)
    requires t == w.(plane := t.plane, requests := t.requests) && t.requests.Keys == Swept(w, swept, now).Keys
    requires forall other :: other in t.requests && other != id ==> t.requests[other] == Swept(w, swept, now)[other]
    ensures OthersSwept(w, t, id, swept, now)
  {
  }

  /** A reviewer who is not the requester, and is the assigned one if there is one, may send a pending
      request back or reject it; anything else only sweeps. */
  lemma {:induction false} DeclineOutcome(w: World, e: Event)
    requires e.Decline?
    ensures var t := Step(w, e);
      && t.plane == w.plane && OthersSwept(w, t, e.id, e.swept, e.now)
      && (e.id in w.requests ==>
            var request := w.requests[e.id];
            if StillPending(w, e.id, e.swept, e.now) && Fold(e.reviewer) != Fold(request.requestedBy)
               && (request.assignedReviewer != "" ==> Fold(e.reviewer) == Fold(request.assignedReviewer) && e.reviewerAllowed)
            then t.requests[e.id] == request.(status := if e.sendBack then SentBack else Rejected, reviewedBy := e.reviewer)
            else SweptTo(request, t.requests[e.id], e.swept, e.now))
  {
    SweptOthers(w, Step(w, e), e.id, e.swept, e.now);
    if e.id in w.requests { SweptOne(w, e.id, e.swept, e.now); }
    hide Fold, Swept, SweptTo, StillPending, OthersSwept;
  }

  /** The requester or an Admin may cancel a pending request; anything else only sweeps. */
  lemma {:induction false} CancelOutcome(w: World, e: Event)
    requires e.Cancel?
    ensures var t := Step(w, e);
      && t.plane == w.plane && OthersSwept(w, t, e.id, e.swept, e.now)
      && (e.id in w.requests ==>
            var request := w.requests[e.id];
            if StillPending(w, e.id, e.swept, e.now) && (e.admin || Fold(e.actor) == Fold(request.requestedBy))
            then t.requests[e.id] == request.(status := Cancelled, reviewedBy := e.actor)
            else SweptTo(request, t.requests[e.id], e.swept, e.now))
  {
    SweptOthers(w, Step(w, e), e.id, e.swept, e.now);
    if e.id in w.requests { SweptOne(w, e.id, e.swept, e.now); }
    hide Fold, Swept, SweptTo, StillPending, OthersSwept;
  }

  /** A sweep expires exactly the pending requests whose time has come. */
  lemma {:induction false} ExpireOutcome(w: World, now: int)
    ensures var t := Step(w, Expire(now));
      && t == w.(requests := t.requests) && t.requests.Keys == w.requests.Keys
      && forall id :: id in w.requests ==> SweptTo(w.requests[id], t.requests[id], true, now)
  {
  }

  /** The n-th record is the agent's newest one of the requested configuration, is not older than the
      request, and is among the agent's newest records. */
  ghost predicate Decides(deployments: seq<D.Deployment>, request: Request, uid: string, n: nat) {
    && request.createdAt <= n && O.NewestOf(deployments, n, uid, request.hash)
    && |Later(deployments, uid, n)| < 20
  }

  /** The record that decides about the target has one of these statuses. */
  ghost predicate Reports(deployments: seq<D.Deployment>, request: Request, uid: string, statuses: seq<D.Status>) {
    exists n: nat :: Decides(deployments, request, uid, n) && deployments[n].status in statuses
  }

  /** A check fails a deploying request exactly when the record that decides about one of its eligible
      targets is failed or unsupported. It completes the request exactly when it does not fail it, there
      are eligible targets and all of them have applied. Nothing else changes. */
  lemma {:induction false} RefreshOutcome(w: World, id: string)
    ensures var t := Step(w, Refresh(id));
      && t == w.(requests := t.requests) && t.requests.Keys == w.requests.Keys
      && (forall other :: other in w.requests && other != id ==> t.requests[other] == w.requests[other])
      && (id in w.requests ==>
            var request, log := w.requests[id], w.plane.deployments;
            var failed := exists i :: 0 <= i < |request.targets| && request.targets[i].eligible
                                      && Reports(log, request, request.targets[i].uid, [D.Failed, D.Unsupported]);
            var applied := (exists i :: 0 <= i < |request.targets| && request.targets[i].eligible)
                           && forall i :: 0 <= i < |request.targets| && request.targets[i].eligible ==>
                                Reports(log, request, request.targets[i].uid, [D.Applied]);
            t.requests[id] ==
              if request.status != Deploying then request
              else if failed then request.(status := Failed)
              else if applied then request.(status := Completed)
              else request)
  {
    if id in w.requests { TallyReports(w.plane.deployments, w.requests[id]); }
    hide Reports, Count;
  }

  lemma {:induction false} TallyReports(log: seq<D.Deployment>, request: Request)
    ensures var tally := Count(log, request, request.targets);
      && (tally.failed > 0 <==> exists i :: 0 <= i < |request.targets| && request.targets[i].eligible
                                           && Reports(log, request, request.targets[i].uid, [D.Failed, D.Unsupported]))
      && (tally.eligible > 0 <==> exists i :: 0 <= i < |request.targets| && request.targets[i].eligible)
      && (tally.applied == tally.eligible <==> forall i :: 0 <= i < |request.targets| && request.targets[i].eligible ==>
                                                 Reports(log, request, request.targets[i].uid, [D.Applied]))
  {
    AppliedAtMostEligible(log, request, request.targets);
    EligiblePositive(log, request, request.targets);
    FailedPositive(log, request, request.targets);
    forall i | 0 <= i < |request.targets|
      ensures Outcome(log, request, request.targets[i]) == Some(D.Applied) <==> Reports(log, request, request.targets[i].uid, [D.Applied])
      ensures (Outcome(log, request, request.targets[i]) == Some(D.Failed) || Outcome(log, request, request.targets[i]) == Some(D.Unsupported))
         <==> Reports(log, request, request.targets[i].uid, [D.Failed, D.Unsupported])
    {
      OutcomeReports(log, request, request.targets[i], [D.Applied]);
      OutcomeReports(log, request, request.targets[i], [D.Failed, D.Unsupported]);
    }
    hide Outcome, Reports, Count;
  }

  lemma {:induction false} FailedPositive(deployments: seq<D.Deployment>, request: Request, targets: seq<Target>)
    ensures Count(deployments, request, targets).failed > 0 <==>
      exists i :: 0 <= i < |targets| && targets[i].eligible &&
        (Outcome(deployments, request, targets[i]) == Some(D.Failed) || Outcome(deployments, request, targets[i]) == Some(D.Unsupported))
  {
    if targets != [] { FailedPositive(deployments, request, targets[..|targets| - 1]); }
    hide Outcome;
  }

  lemma OutcomeReports(deployments: seq<D.Deployment>, request: Request, target: Target, statuses: seq<D.Status>)
    ensures Reports(deployments, request, target.uid, statuses) <==>
      Outcome(deployments, request, target).Some? && Outcome(deployments, request, target).value in statuses
  {
    NewestSinceIs(deployments, target.uid, request.hash, request.createdAt, HISTORY_LIMIT);
    hide NewestSince;
  }

  lemma NewestOfSnoc(before: seq<D.Deployment>, last: D.Deployment, uid: string, hash: string, n: nat)
    ensures O.NewestOf(before + [last], n, uid, hash) <==>
      if last.uid == uid && last.hash == hash then n == |before| else O.NewestOf(before, n, uid, hash)
  {
    var all := before + [last];
    assert all[|before|] == last && forall i :: 0 <= i < |before| ==> all[i] == before[i];
  }

  lemma {:induction false} NewestSinceIs(deployments: seq<D.Deployment>, uid: string, hash: string, since: nat, limit: nat)
    ensures forall n: nat :: NewestSince(deployments, uid, hash, since, limit) == Some(n) <==>
      since <= n && O.NewestOf(deployments, n, uid, hash) && |Later(deployments, uid, n)| < limit
  {
    if deployments == [] || limit == 0 { return; }
    var k := |deployments| - 1;
    var before, last := deployments[..k], deployments[k];
    assert deployments == before + [last];
    var rest := if last.uid != uid then limit else limit - 1;
    NewestSinceIs(before, uid, hash, since, rest);
    assert Later(deployments, uid, k) == {};
    hide Later, O.NewestOf;
    forall n: nat
      ensures NewestSince(deployments, uid, hash, since, limit) == Some(n) <==>
        since <= n && O.NewestOf(deployments, n, uid, hash) && |Later(deployments, uid, n)| < limit
    {
      NewestOfSnoc(before, last, uid, hash, n);
      if n < k {
        LaterSnoc(before, last, uid, n);
      } else if O.NewestOf(before, n, uid, hash) {
        NewestInLog(before, n, uid, hash);
      }
    }
  }

  lemma NewestInLog(deployments: seq<D.Deployment>, n: nat, uid: string, hash: string)
    requires O.NewestOf(deployments, n, uid, hash)
    ensures n < |deployments|
  {
  }

  // ---------- What a failed delivery of an approval triggers ----------

  lemma {:induction false} TurnsKeepPast(plane: D.State, id: string, request: Request, config: D.Configuration, k: nat, rollouts: seq<Rollout>)
    requires k <= |request.targets| && R.Past(plane)
    ensures R.Past(DeployTo(plane, id, request, config, k, rollouts).0)
  {
    if k > 0 {
      TurnsKeepPast(plane, id, request, config, k - 1, rollouts);
      var before := DeployTo(plane, id, request, config, k - 1, rollouts).0;
      var target, rollout := request.targets[k - 1], RolloutAt(rollouts, k - 1);
      if target.eligible && rollout.historyRead {
        var order := D.Order(target.uid, config, D.Deploy, LastApplied(before.deployments, target.uid, RECENT_LIMIT), id);
        R.DeliverKeepsPast(before, order, rollout.calls);
        R.AutoRollbackKeepsPast(D.Deliver(before, order, rollout.calls).0, target.uid, config.hash, rollout.claimed, rollout.found, rollout.undoCalls);
      }
      hide R.Past, D.Deliver, D.AutoRollback, LastApplied;
    }
  }

  /** A delivery that was made but not accepted, with the stores working: the record is failed or
      unsupported, and the recorded predecessor is delivered as a rollback, once the claim works and it
      can be found. */
  lemma {:induction false} RefusedTurnRollsBack(before: D.State, order: D.Order, rollout: Rollout)
    requires R.Past(before) && order.action == D.Deploy && O.Made(before, order, rollout.calls)
    requires rollout.calls.assign && rollout.calls.record && rollout.calls.update && rollout.calls.send != D.SendOk
    requires order.previousConfigID != "" && order.previousConfigID in before.configs && rollout.claimed && rollout.found
    requires rollout.undoCalls.readAssignments && rollout.undoCalls.readDeployments && rollout.undoCalls.create
    ensures var sent := D.Deliver(before, order, rollout.calls).0;
      var t := D.AutoRollback(sent, order.uid, order.config.hash, true, true, rollout.undoCalls).0;
      var n, back := |before.deployments|, before.configs[order.previousConfigID];
      && |t.deployments| == n + 2
      && t.deployments[n].uid == order.uid && t.deployments[n].status in [D.Failed, D.Unsupported] && t.deployments[n].claimed
      && t.deployments[n + 1] == D.Deployment(order.uid, back.id, back.hash, D.Rollback, "", "", false, t.deployments[n + 1].status)
      && t.deployments[n + 1].status != D.Applied
  {
    var n := |before.deployments|;
    var sent := D.Deliver(before, order, rollout.calls).0;
    O.DeliveryRecords(before, order, rollout.calls);
    O.DeliveryAssigns(before, order, rollout.calls);
    assert O.NewestOf(sent.deployments, n, order.uid, order.config.hash);
    O.RollsBack(sent, order.uid, order.config.hash, true, true, rollout.undoCalls);
    var claimed, undo := O.ClaimedAt(sent, n), O.BackTo(sent, order.uid, order.previousConfigID);
    assert !O.ShownApplied(claimed, undo);
    assert !O.Underway(claimed, order.uid);
    O.DeliveryRecords(claimed, undo, rollout.undoCalls);
    O.NeverAddsApplied(claimed, undo, rollout.undoCalls);
    hide D.Deliver, D.AutoRollback;
  }

  /** So it is for every eligible target of an approval. */
  lemma {:induction false} RefusedTargetRollsBack(plane: D.State, id: string, request: Request, config: D.Configuration, rollouts: seq<Rollout>, k: nat)
    returns (previous: string, n: nat)
    requires k < |request.targets| && request.targets[k].eligible && OnceEach(request.targets) && R.Past(plane)
    ensures PreviousIs(plane.deployments, request.targets[k].uid, previous)
    ensures var uid, rollout := request.targets[k].uid, RolloutAt(rollouts, k);
      var t := DeployTo(plane, id, request, config, |request.targets|, rollouts).0;
      rollout.historyRead && O.Made(plane, D.Order(uid, config, D.Deploy, previous, id), rollout.calls)
      && rollout.calls.assign && rollout.calls.record && rollout.calls.update && rollout.calls.send != D.SendOk
      && previous != "" && previous in plane.configs && rollout.claimed && rollout.found
      && rollout.undoCalls.readAssignments && rollout.undoCalls.readDeployments && rollout.undoCalls.create
      ==>
      && |plane.deployments| <= n < |t.deployments| - 1
      && t.deployments[n].uid == uid && t.deployments[n].status in [D.Failed, D.Unsupported]
      && t.deployments[n + 1] == D.Deployment(uid, plane.configs[previous].id, plane.configs[previous].hash, D.Rollback, "", "", false,
                                              t.deployments[n + 1].status)
  {
    hide *;
    var uid, rollout := request.targets[k].uid, RolloutAt(rollouts, k);
    var before := DeployTo(plane, id, request, config, k, rollouts).0;
    var after := DeployTo(plane, id, request, config, k + 1, rollouts).0;
    var t := DeployTo(plane, id, request, config, |request.targets|, rollouts).0;
    previous := LastApplied(plane.deployments, uid, RECENT_LIMIT);
    LastAppliedIsPrevious(plane.deployments, uid);
    OthersDiffer(request.targets, k);
    NoTurn(plane, id, request, config, rollouts);
    TurnsSameFor(plane, id, request, config, 0, k, rollouts, uid);
    TurnsSameFor(plane, id, request, config, k + 1, |request.targets|, rollouts, uid);
    SameForLastApplied(plane, before, uid);
    var order := D.Order(uid, config, D.Deploy, previous, id);
    SameForMade(plane, before, order, rollout.calls);
    SameForSizes(plane, before, uid);
    SameForSizes(after, t, uid);
    n := |before.deployments|;
    TurnsKeepPast(plane, id, request, config, k, rollouts);
    if rollout.historyRead && O.Made(before, order, rollout.calls)
       && rollout.calls.assign && rollout.calls.record && rollout.calls.update && rollout.calls.send != D.SendOk
       && previous != "" && previous in plane.configs && rollout.claimed && rollout.found
       && rollout.undoCalls.readAssignments && rollout.undoCalls.readDeployments && rollout.undoCalls.create {
      RefusedTurnRollsBack(before, order, rollout);
      RefusedTurn(plane, id, request, config, rollouts, k, previous);
    }
  }

  lemma SameForSizes(s: D.State, t: D.State, uid: string)
    requires SameFor(s, t, uid)
    ensures |s.deployments| <= |t.deployments| && t.configs == s.configs
    ensures forall i :: 0 <= i < |s.deployments| && s.deployments[i].uid == uid ==> t.deployments[i] == s.deployments[i]
  {
  }

  lemma RefusedTurn(plane: D.State, id: string, request: Request, config: D.Configuration, rollouts: seq<Rollout>, k: nat, previous: string)
    requires k < |request.targets| && request.targets[k].eligible && RolloutAt(rollouts, k).historyRead
    requires RolloutAt(rollouts, k).claimed && RolloutAt(rollouts, k).found && RolloutAt(rollouts, k).calls.send != D.SendOk
    requires previous == LastApplied(DeployTo(plane, id, request, config, k, rollouts).0.deployments, request.targets[k].uid, RECENT_LIMIT)
    ensures var rollout := RolloutAt(rollouts, k);
      var sent := D.Deliver(DeployTo(plane, id, request, config, k, rollouts).0,
                            D.Order(request.targets[k].uid, config, D.Deploy, previous, id), rollout.calls).0;
      DeployTo(plane, id, request, config, k + 1, rollouts).0
        == D.AutoRollback(sent, request.targets[k].uid, config.hash, true, true, rollout.undoCalls).0
  {
    var before := DeployTo(plane, id, request, config, k, rollouts).0;
    O.DeliveryAnswers(before, D.Order(request.targets[k].uid, config, D.Deploy, previous, id), RolloutAt(rollouts, k).calls);
    hide D.Deliver, D.AutoRollback, LastApplied, O.Made;
  }
}
