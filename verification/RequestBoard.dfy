/** The handlers behind the group page, which update the request store step by step; each ends in
    the world its event describes. */
module RequestBoard {
  import opened Wrappers
  import opened Groups
  import opened Names
  import opened Requests
  import D = Delivery

  class Board {
    var groups: map<string, Group>
    var agents: seq<Agent>
    var artifacts: map<string, Artifact>
    var plane: D.State
    var requests: map<string, Request>

    constructor (groups: map<string, Group>, agents: seq<Agent>, artifacts: map<string, Artifact>, plane: D.State)
      ensures Value() == World(groups, agents, artifacts, plane, map[])
    {
      this.groups, this.agents, this.artifacts, this.plane, this.requests := groups, agents, artifacts, plane, map[];
    }

    function Value(): World
      reads this
    {
      World(groups, agents, artifacts, plane, requests)
    }

    /** Compare-and-set: moves a request on only if it is in the expected status. */
    method Review(id: string, from: Status, to: Status, reviewer: string) returns (ok: bool)
      modifies this`requests
      ensures ok <==> id in old(requests) && old(requests)[id].status == from
      ensures requests == if ok then old(requests)[id := old(requests)[id].(status := to, reviewedBy := reviewer)] else old(requests)
    {
      ok := id in requests && requests[id].status == from;
      if ok {
        requests := requests[id := requests[id].(status := to, reviewedBy := reviewer)];
      }
    }

    method UpdateStatus(id: string, from: Status, to: Status) returns (ok: bool)
      modifies this`requests
      ensures ok <==> id in old(requests) && old(requests)[id].status == from
      ensures requests == if ok then old(requests)[id := old(requests)[id].(status := to)] else old(requests)
    {
      ok := id in requests && requests[id].status == from;
      if ok {
        requests := requests[id := requests[id].(status := to)];
      }
    }

    method ExpirePending(now: int)
      modifies this`requests
      ensures requests == Expiring(old(requests), now)
    {
      var remaining := requests.Keys;
      while remaining != {}
        invariant remaining <= requests.Keys == old(requests).Keys
        invariant forall id :: id in requests ==>
          requests[id] == if id in remaining then old(requests)[id] else Expiring(old(requests), now)[id]
        decreases |remaining|
      {
        var id :| id in remaining;
        if requests[id].status == PendingApproval && requests[id].expiresAt <= now {
          requests := requests[id := requests[id].(status := Expired)];
        }
        remaining := remaining - {id};
      }
    }

    method SubmitRequest(e: Event)
      requires e.Submit?
      modifies this`requests
      ensures Value() == Step(old(Value()), e)
    {
      if e.id in requests || !e.reviewerAllowed || !e.valid || e.groupID !in groups || !groups[e.groupID].enabled {
        return;
      }
      if e.configID !in artifacts || artifacts[e.configID].groupID != e.groupID {
        return;
      }
      var group := groups[e.groupID];
      var config := artifacts[e.configID].config;
      var members := Members(agents, group, e.labels);
      var targets, eligible := PreviewGroupConfiguration(members, group.enabled, config.hash, plane.assignments);
      if eligible == 0 {
        return;
      }
      requests := requests[e.id := Request(e.groupID, group.selector, e.labels, e.configID, config.hash, targets, e.requestedBy,
                                           e.assignedReviewer, |plane.deployments|, e.expiresAt, "", PendingApproval)];
    }

    /** Re-checks every eligible target before anything is sent. */
    method AllStillReady(request: Request) returns (ready: bool)
      requires request.groupID in groups
      ensures ready <==> forall i :: 0 <= i < |request.targets| && request.targets[i].eligible ==>
        StillReady(Value(), request, groups[request.groupID], request.targets[i].uid)
    {
      var index := 0;
      while index < |request.targets|
        invariant 0 <= index <= |request.targets|
        invariant forall i :: 0 <= i < index && request.targets[i].eligible ==>
          StillReady(Value(), request, groups[request.groupID], request.targets[i].uid)
      {
        if request.targets[index].eligible && !StillReady(Value(), request, groups[request.groupID], request.targets[index].uid) {
          return false;
        }
        index := index + 1;
      }
      ready := true;
    }

    method DeployTargets(id: string, request: Request, config: D.Configuration, rollouts: seq<Rollout>) returns (failures: nat)
      modifies this`plane
      ensures (plane, failures) == DeployTo(old(plane), id, request, config, |request.targets|, rollouts)
    {
      failures := 0;
      var index := 0;
      while index < |request.targets|
        invariant 0 <= index <= |request.targets|
        invariant (plane, failures) == DeployTo(old(plane), id, request, config, index, rollouts)
      {
        var target, rollout := request.targets[index], RolloutAt(rollouts, index);
        if target.eligible {
          if !rollout.historyRead {
            failures := failures + 1;
          } else {
            var previous := LastApplied(plane.deployments, target.uid, RECENT_LIMIT);
            var (after, result) := D.Deliver(plane, D.Order(target.uid, config, D.Deploy, previous, id), rollout.calls);
            plane := after;
            if result != D.Delivered {
              plane := D.AutoRollback(plane, target.uid, config.hash, rollout.claimed, rollout.found, rollout.undoCalls).0;
              failures := failures + 1;
            }
          }
        }
        index := index + 1;
      }
    }

    /** All checks of an approval, the re-check of every target last. */
    method MayDeploy(e: Event, request: Request) returns (ok: bool)
      requires e.Approve?
      ensures ok == Approvable(Value(), request, e.reviewer, e.reviewerAllowed, e.valid)
    {
      if request.status != PendingApproval || !MayReview(request, e.reviewer, e.reviewerAllowed) {
        return false;
      }
      if !Unchanged(Value(), request) || !e.valid || Eligibles(request.targets) == 0 {
        return false;
      }
      ok := AllStillReady(request);
    }

    method ApproveDeployment(e: Event)
      requires e.Approve?
      modifies this`plane, this`requests
      ensures Value() == Step(old(Value()), e)
    {
      hide DeployTo, Approvable, Expiring;
      if e.swept {
        ExpirePending(e.now);
      }
      if e.id !in requests {
        return;
      }
      RequestsDoNotMatter(old(Value()), requests, requests[e.id], e);
      var ok := MayDeploy(e, requests[e.id]);
      if !ok {
        return;
      }
      ApprovableFacts(Value(), requests[e.id], e);
      ok := Review(e.id, PendingApproval, Deploying, e.reviewer);
      var request := requests[e.id];
      var failures := DeployTargets(e.id, request, artifacts[request.configID].config, e.rollouts);
      if failures > 0 && e.saved {
        ok := UpdateStatus(e.id, Deploying, Failed);
      }
    }

    method DeclineDeployment(e: Event)
      requires e.Decline?
      modifies this`requests
      ensures Value() == Step(old(Value()), e)
    {
      if e.swept {
        ExpirePending(e.now);
      }
      if e.id in requests && MayReview(requests[e.id], e.reviewer, e.reviewerAllowed) {
        var _ := Review(e.id, PendingApproval, if e.sendBack then SentBack else Rejected, e.reviewer);
      }
    }

    method CancelDeployment(e: Event)
      requires e.Cancel?
      modifies this`requests
      ensures Value() == Step(old(Value()), e)
    {
      if e.swept {
        ExpirePending(e.now);
      }
      if e.id in requests && (e.admin || SameName(e.actor, requests[e.id].requestedBy)) {
        var _ := Review(e.id, PendingApproval, Cancelled, e.actor);
      }
    }

    method RefreshRequest(id: string)
      modifies this`requests
      ensures Value() == Step(old(Value()), Refresh(id))
    {
      if id in requests && requests[id].status == Deploying {
        var tally := TallyTargets(plane.deployments, requests[id]);
        if tally.failed > 0 {
          var _ := UpdateStatus(id, Deploying, Failed);
        } else if tally.eligible > 0 && tally.applied == tally.eligible {
          var _ := UpdateStatus(id, Deploying, Completed);
        }
      }
    }
  }

  /** Whether a request may be approved depends on the groups, agents and artifacts only. */
  lemma RequestsDoNotMatter(w: World, requests: map<string, Request>, request: Request, e: Event)
    requires e.Approve?
    ensures Approvable(w.(requests := requests), request, e.reviewer, e.reviewerAllowed, e.valid)
        <==> Approvable(w, request, e.reviewer, e.reviewerAllowed, e.valid)
  {
    var v := w.(requests := requests);
    if request.groupID in w.groups {
      forall i | 0 <= i < |request.targets|
        ensures StillReady(v, request, w.groups[request.groupID], request.targets[i].uid)
            <==> StillReady(w, request, w.groups[request.groupID], request.targets[i].uid)
      {
      }
    }
  }

  lemma ApprovableFacts(w: World, request: Request, e: Event)
    requires e.Approve? && Approvable(w, request, e.reviewer, e.reviewerAllowed, e.valid)
    ensures request.status == PendingApproval && request.configID in w.artifacts
  {
  }
}
