/** Group deployment requests: a snapshot of targets is submitted, reviewed by someone else,
    deployed to the eligible targets, and completed once all of them report the configuration
    applied. Status changes are compare-and-set. */
module Requests {
  import opened Wrappers
  import opened Groups
  import opened Names
  import D = Delivery

  datatype Status = PendingApproval | Deploying | Completed | Rejected | Failed | Expired | Cancelled | SentBack

  datatype Target = Target(uid: string, readiness: Readiness, eligible: bool)

  datatype Readiness = Ready | GroupDisabled | Retired | Offline | Unsupported | AlreadyDeployed | Busy

  datatype Artifact = Artifact(config: D.Configuration, groupID: string)

  /** `createdAt` is the length of the deployment log at submission: records from there on are newer. */
  datatype Request = Request(groupID: string, selector: Fields, labels: Fields, configID: string, hash: string,
                             targets: seq<Target>, requestedBy: string, assignedReviewer: string,
                             createdAt: nat, expiresAt: int, reviewedBy: string, status: Status)

  datatype World = World(groups: map<string, Group>, agents: seq<Agent>, artifacts: map<string, Artifact>,
                         plane: D.State, requests: map<string, Request>)

  predicate Terminal(status: Status) {
    status != PendingApproval && status != Deploying
  }

  // ---------- Comparing selectors ----------

  /** Compares by length and by reading the other side, where an absent key reads as empty. */
  predicate SameSelector(left: Fields, right: Fields) {
    |left| == |right| && forall key | key in left :: Lookup(right, key) == left[key]
  }

  lemma {:induction false} SubsetOfSameSize<T>(a: set<T>, b: set<T>)
    requires a <= b && |a| == |b|
    ensures a == b
  {
    assert b == a + (b - a);
    assert |b| == |a| + |b - a|;
  }

  /** On selectors without empty values the comparison is equality. */
  lemma {:induction false} SameSelectorIsEquality(left: Fields, right: Fields)
    requires forall key :: key in left ==> left[key] != ""
    ensures SameSelector(left, right) <==> left == right
  {
    if SameSelector(left, right) {
      assert left.Keys <= right.Keys;
      assert |left.Keys| == |left| && |right.Keys| == |right|;
      SubsetOfSameSize(left.Keys, right.Keys);
    }
  }

  // ---------- Readiness ----------

  function MemberReadiness(agent: Agent, enabled: bool): Readiness {
    if !enabled then GroupDisabled
    else if agent.retired then Retired
    else if !agent.connected then Offline
    else if !agent.acceptsRemoteConfig then Unsupported
    else Ready
  }

  function ReadinessFor(agent: Agent, enabled: bool, hash: string, assignments: seq<D.Assignment>): Readiness {
    var basic := MemberReadiness(agent, enabled);
    var latest := D.Newest(assignments, agent.uid);
    if basic != Ready || latest == None || latest.value.hash != hash then basic
    else if latest.value.status == D.Applied then AlreadyDeployed
    else if D.InFlight(latest.value.status) then Busy
    else Ready
  }

  predicate LabelsMatch(agent: Agent, labels: Fields) {
    Satisfies(EffectiveLabels(agent), labels)
  }

  function Members(agents: seq<Agent>, group: Group, labels: Fields): (members: seq<Agent>)
    ensures forall a :: a in members <==> a in agents && MatchesIdentity(group, a) && LabelsMatch(a, labels)
  {
    if agents == [] then []
    else (if MatchesIdentity(group, agents[0]) && LabelsMatch(agents[0], labels) then [agents[0]] else []) + Members(agents[1..], group, labels)
  }

  function Preview(members: seq<Agent>, enabled: bool, hash: string, assignments: seq<D.Assignment>): (targets: seq<Target>)
    ensures |targets| == |members|
  {
    seq(|members|, i requires 0 <= i < |members| =>
      var readiness := ReadinessFor(members[i], enabled, hash, assignments);
      Target(members[i].uid, readiness, readiness == Ready))
  }

  function Eligibles(targets: seq<Target>): nat {
    if targets == [] then 0
    else Eligibles(targets[..|targets| - 1]) + (if targets[|targets| - 1].eligible then 1 else 0)
  }

  /** The entry of a target as listed, before its assignment is looked at. */
  function Listed(member: Agent, enabled: bool): Target {
    Target(member.uid, MemberReadiness(member, enabled), false)
  }

  /** Rewrites one entry: the newest assignment may make it ineligible. */
  method CheckAssignment(entry: Target, hash: string, assignments: seq<D.Assignment>, ghost member: Agent, ghost enabled: bool)
    returns (checked: Target)
    requires entry == Listed(member, enabled)
    ensures var readiness := ReadinessFor(member, enabled, hash, assignments);
      checked == Target(member.uid, readiness, readiness == Ready)
  {
    checked := entry;
    if entry.readiness == Ready {
      var latest := D.LatestAssignmentForAgent(assignments, entry.uid);
      if latest.Some? && latest.value.hash == hash && latest.value.status == D.Applied {
        checked := entry.(readiness := AlreadyDeployed);
      } else if latest.Some? && latest.value.hash == hash && D.InFlight(latest.value.status) {
        checked := entry.(readiness := Busy);
      } else {
        checked := entry.(eligible := true);
      }
    }
  }

  method ListTargets(members: seq<Agent>, enabled: bool) returns (preview: seq<Target>)
    ensures |preview| == |members| && forall i | 0 <= i < |members| :: preview[i] == Listed(members[i], enabled)
  {
    hide MemberReadiness;
    preview := [];
    for m := 0 to |members|
      invariant |preview| == m && forall i | 0 <= i < m :: preview[i] == Listed(members[i], enabled)
    {
      preview := preview + [Target(members[m].uid, MemberReadiness(members[m], enabled), false)];
    }
  }

  /** Rewrites the preview entries that an assignment makes ineligible and counts the rest. */
  method PreviewGroupConfiguration(members: seq<Agent>, enabled: bool, hash: string, assignments: seq<D.Assignment>)
    returns (preview: seq<Target>, eligible: nat)
    ensures preview == Preview(members, enabled, hash, assignments)
    ensures eligible == Eligibles(preview)
  {
    hide ReadinessFor, Listed;
    preview := ListTargets(members, enabled);
    ghost var expected := Preview(members, enabled, hash, assignments);
    eligible := 0;
    for index := 0 to |preview|
      invariant |preview| == |members| && preview[..index] == expected[..index]
      invariant forall i | index <= i < |members| :: preview[i] == Listed(members[i], enabled)
      invariant eligible == Eligibles(expected[..index])
    {
      var checked := CheckAssignment(preview[index], hash, assignments, members[index], enabled);
      assert checked == expected[index];
      assert expected[..index + 1][..index] == expected[..index];
      preview := preview[index := checked];
      if checked.eligible { eligible := eligible + 1; }
    }
    assert preview == expected && expected[..|expected|] == expected;
  }

  // ---------- Completion ----------

  const HISTORY_LIMIT: nat := 20

  /** The newest record of the hash made since submission, among the agent's newest records. */
  function NewestSince(deployments: seq<D.Deployment>, uid: string, hash: string, since: nat, budget: nat): (found: Option<nat>)
    ensures found.Some? ==> since <= found.value < |deployments| && D.Latest(deployments, uid, Some(hash)) == found
  {
    if deployments == [] || budget == 0 then None
    else
      var n := |deployments| - 1;
      if deployments[n].uid != uid then NewestSince(deployments[..n], uid, hash, since, budget)
      else if deployments[n].hash == hash && n >= since then Some(n)
      else if deployments[n].hash == hash then None
      else NewestSince(deployments[..n], uid, hash, since, budget - 1)
  }

  /** What the scan of the deployment histories found: eligible targets, applied ones, failed ones. */
  datatype Tally = Tally(eligible: nat, applied: nat, failed: nat)

  function Outcome(deployments: seq<D.Deployment>, request: Request, target: Target): Option<D.Status> {
    var found := NewestSince(deployments, target.uid, request.hash, request.createdAt, HISTORY_LIMIT);
    if found == None then None else Some(deployments[found.value].status)
  }

  function Count(deployments: seq<D.Deployment>, request: Request, targets: seq<Target>): Tally {
    if targets == [] then Tally(0, 0, 0)
    else
      var rest, target := Count(deployments, request, targets[..|targets| - 1]), targets[|targets| - 1];
      if !target.eligible then rest
      else
        var outcome := Outcome(deployments, request, target);
        Tally(rest.eligible + 1,
              rest.applied + (if outcome == Some(D.Applied) then 1 else 0),
              rest.failed + (if outcome == Some(D.Failed) || outcome == Some(D.Unsupported) then 1 else 0))
  }

  method TallyTargets(deployments: seq<D.Deployment>, request: Request) returns (tally: Tally)
    ensures tally == Count(deployments, request, request.targets)
  {
    var eligible, applied, failed := 0, 0, 0;
    var index := 0;
    while index < |request.targets|
      invariant 0 <= index <= |request.targets|
      invariant Tally(eligible, applied, failed) == Count(deployments, request, request.targets[..index])
    {
      assert request.targets[..index + 1][..index] == request.targets[..index];
      var target := request.targets[index];
      if target.eligible {
        eligible := eligible + 1;
        match Outcome(deployments, request, target) {
          case Some(Applied) => applied := applied + 1;
          case Some(Failed) => failed := failed + 1;
          case Some(Unsupported) => failed := failed + 1;
          case _ =>
        }
      }
      index := index + 1;
    }
    assert request.targets[..index] == request.targets;
    tally := Tally(eligible, applied, failed);
  }

  lemma {:induction false} AppliedAtMostEligible(deployments: seq<D.Deployment>, request: Request, targets: seq<Target>)
    ensures var tally := Count(deployments, request, targets);
      && tally.applied + tally.failed <= tally.eligible
      && (tally.applied == tally.eligible <==>
          forall i :: 0 <= i < |targets| && targets[i].eligible ==> Outcome(deployments, request, targets[i]) == Some(D.Applied))
  {
    if targets != [] {
      AppliedAtMostEligible(deployments, request, targets[..|targets| - 1]);
    }
  }

  // ---------- Steps ----------

  /** The results of the calls made to deploy to one target. */
  datatype Rollout = Rollout(historyRead: bool, calls: D.Calls, claimed: bool, found: bool, undoCalls: D.Calls)

  /** `swept` tells whether the expiry sweep before a review reached the store; a failed sweep is
      logged and the review goes on. */
  datatype Event =
    | Submit(id: string, groupID: string, configID: string, labels: Fields, requestedBy: string, assignedReviewer: string,
             reviewerAllowed: bool, valid: bool, expiresAt: int)
    | Approve(id: string, reviewer: string, now: int, swept: bool, reviewerAllowed: bool, valid: bool, rollouts: seq<Rollout>, saved: bool)
    | Decline(id: string, reviewer: string, now: int, swept: bool, reviewerAllowed: bool, sendBack: bool)
    | Cancel(id: string, actor: string, now: int, swept: bool, admin: bool)
    | Expire(now: int)
    | Refresh(id: string)
    | Elsewhere(groups: map<string, Group>, agents: seq<Agent>, artifacts: map<string, Artifact>, plane: D.State)

  predicate Submittable(w: World, e: Event)
    requires e.Submit?
  {
    && e.id !in w.requests && e.reviewerAllowed && e.valid
    && e.groupID in w.groups && w.groups[e.groupID].enabled
    && e.configID in w.artifacts && w.artifacts[e.configID].groupID == e.groupID
    && Eligibles(Snapshot(w, e)) > 0
  }

  function Snapshot(w: World, e: Event): seq<Target>
    requires e.Submit? && e.groupID in w.groups && e.configID in w.artifacts
  {
    var group := w.groups[e.groupID];
    Preview(Members(w.agents, group, e.labels), group.enabled, w.artifacts[e.configID].config.hash, w.plane.assignments)
  }

  function NewRequest(w: World, e: Event): Request
    requires e.Submit? && e.groupID in w.groups && e.configID in w.artifacts
  {
    Request(e.groupID, w.groups[e.groupID].selector, e.labels, e.configID, w.artifacts[e.configID].config.hash, Snapshot(w, e),
            e.requestedBy, e.assignedReviewer, |w.plane.deployments|, e.expiresAt, "", PendingApproval)
  }

  function Expiring(requests: map<string, Request>, now: int): map<string, Request> {
    map id | id in requests ::
      if requests[id].status == PendingApproval && requests[id].expiresAt <= now then requests[id].(status := Expired) else requests[id]
  }

  /** The reviewer is someone else than the requester, and the assigned one if one was assigned. */
  predicate MayReview(request: Request, reviewer: string, allowed: bool) {
    && !SameName(reviewer, request.requestedBy)
    && (request.assignedReviewer != "" ==> SameName(reviewer, request.assignedReviewer) && allowed)
  }

  /** The target is still a member with the requested labels and is ready for the configuration. */
  predicate StillReady(w: World, request: Request, group: Group, uid: string) {
    exists i | 0 <= i < |w.agents| ::
      && w.agents[i].uid == uid
      && MatchesIdentity(group, w.agents[i]) && LabelsMatch(w.agents[i], request.labels)
      && ReadinessFor(w.agents[i], group.enabled, request.hash, w.plane.assignments) == Ready
  }

  predicate Unchanged(w: World, request: Request) {
    && request.groupID in w.groups && w.groups[request.groupID].enabled
    && SameSelector(w.groups[request.groupID].selector, request.selector)
    && request.configID in w.artifacts && w.artifacts[request.configID].groupID == request.groupID
    && w.artifacts[request.configID].config.hash == request.hash
  }

  predicate Approvable(w: World, request: Request, reviewer: string, allowed: bool, valid: bool) {
    && request.status == PendingApproval
    && MayReview(request, reviewer, allowed)
    && Unchanged(w, request) && valid
    && Eligibles(request.targets) > 0
    && forall i | 0 <= i < |request.targets| && request.targets[i].eligible ::
         StillReady(w, request, w.groups[request.groupID], request.targets[i].uid)
  }

  const RECENT_LIMIT: nat := 100

  /** The configuration an agent applied last, among its newest records. */
  function LastApplied(deployments: seq<D.Deployment>, uid: string, budget: nat): string {
    if deployments == [] || budget == 0 then ""
    else
      var last := deployments[|deployments| - 1];
      if last.uid != uid then LastApplied(deployments[..|deployments| - 1], uid, budget)
      else if last.status == D.Applied then last.configID
      else LastApplied(deployments[..|deployments| - 1], uid, budget - 1)
  }

  function RolloutAt(rollouts: seq<Rollout>, i: nat): Rollout {
    if i < |rollouts| then rollouts[i]
    else Rollout(false, D.Calls(false, false, false, false, D.SendError, false, false), false, false,
                 D.Calls(false, false, false, false, D.SendError, false, false))
  }

  /** Delivers to the first k targets that are eligible; a refused delivery is a failure and
      triggers the automatic rollback of what was sent before. */
  function DeployTo(plane: D.State, id: string, request: Request, config: D.Configuration, k: nat, rollouts: seq<Rollout>): (result: (D.State, nat))
    requires k <= |request.targets|
  {
    if k == 0 then (plane, 0)
    else
      var (before, failures) := DeployTo(plane, id, request, config, k - 1, rollouts);
      var target, rollout := request.targets[k - 1], RolloutAt(rollouts, k - 1);
      if !target.eligible then (before, failures)
      else if !rollout.historyRead then (before, failures + 1)
      else
        var previous := LastApplied(before.deployments, target.uid, RECENT_LIMIT);
        var (after, result) := D.Deliver(before, D.Order(target.uid, config, D.Deploy, previous, id), rollout.calls);
        if result == D.Delivered then (after, failures)
        else (D.AutoRollback(after, target.uid, config.hash, rollout.claimed, rollout.found, rollout.undoCalls).0, failures + 1)
  }

  /** The requests once the expired ones have been swept, when the handler sweeps. */
  function Swept(w: World, swept: bool, now: int): map<string, Request> {
    if swept then Expiring(w.requests, now) else w.requests
  }

  function AfterApproval(w: World, e: Event): World
    requires e.Approve?
  {
    var requests := Swept(w, e.swept, e.now);
    if e.id in requests && Approvable(w, requests[e.id], e.reviewer, e.reviewerAllowed, e.valid) then
      var request := requests[e.id].(status := Deploying, reviewedBy := e.reviewer);
      var (plane, failures) := DeployTo(w.plane, e.id, request, w.artifacts[request.configID].config, |request.targets|, e.rollouts);
      w.(plane := plane, requests := requests[e.id := if failures > 0 && e.saved then request.(status := Failed) else request])
    else w.(requests := requests)
  }

  function AfterDecline(w: World, e: Event): World
    requires e.Decline?
  {
    var requests := Swept(w, e.swept, e.now);
    if e.id in requests && requests[e.id].status == PendingApproval && MayReview(requests[e.id], e.reviewer, e.reviewerAllowed) then
      w.(requests := requests[e.id := requests[e.id].(status := if e.sendBack then SentBack else Rejected, reviewedBy := e.reviewer)])
    else w.(requests := requests)
  }

  function AfterCancel(w: World, e: Event): World
    requires e.Cancel?
  {
    var requests := Swept(w, e.swept, e.now);
    if e.id in requests && requests[e.id].status == PendingApproval && (e.admin || SameName(e.actor, requests[e.id].requestedBy)) then
      w.(requests := requests[e.id := requests[e.id].(status := Cancelled, reviewedBy := e.actor)])
    else w.(requests := requests)
  }

  function AfterRefresh(w: World, id: string): World {
    if id !in w.requests || w.requests[id].status != Deploying then w
    else
      var tally := Count(w.plane.deployments, w.requests[id], w.requests[id].targets);
      if tally.failed > 0 then w.(requests := w.requests[id := w.requests[id].(status := Failed)])
      else if tally.eligible > 0 && tally.applied == tally.eligible then w.(requests := w.requests[id := w.requests[id].(status := Completed)])
      else w
  }

  function Step(w: World, e: Event): World {
    match e
    case Submit(id, _, _, _, _, _, _, _, _) =>
      if Submittable(w, e) then w.(requests := w.requests[id := NewRequest(w, e)]) else w
    case Approve(_, _, _, _, _, _, _, _) => AfterApproval(w, e)
    case Decline(_, _, _, _, _, _) => AfterDecline(w, e)
    case Cancel(_, _, _, _, _) => AfterCancel(w, e)
    case Expire(now) => w.(requests := Expiring(w.requests, now))
    case Refresh(id) => AfterRefresh(w, id)
    case Elsewhere(groups, agents, artifacts, plane) => World(groups, agents, artifacts, plane, w.requests)
  }

  // ---------- The life of a request ----------

  /** Nothing but status and reviewer ever changes. */
  ghost predicate SameSnapshot(before: Request, after: Request) {
    after == before.(status := after.status, reviewedBy := after.reviewedBy)
  }

  ghost predicate AllApplied(w: World, request: Request) {
    && (exists i :: 0 <= i < |request.targets| && request.targets[i].eligible)
    && forall i :: 0 <= i < |request.targets| && request.targets[i].eligible ==>
         var newest := D.Latest(w.plane.deployments, request.targets[i].uid, Some(request.hash));
         newest.Some? && newest.value >= request.createdAt && w.plane.deployments[newest.value].status == D.Applied
  }

  ghost predicate ApprovedBy(w: World, e: Event, id: string) {
    && e.Approve? && e.id == id && id in w.requests && (e.swept ==> e.now < w.requests[id].expiresAt)
    && Approvable(w, w.requests[id], e.reviewer, e.reviewerAllowed, e.valid)
  }

  /** The only moves there are, each with its justification. */
  ghost predicate Move(w: World, e: Event, id: string, before: Request, after: Request) {
    || after == before
    || (before.status == PendingApproval && after.status in [Expired, Rejected, SentBack, Cancelled])
    || (before.status == PendingApproval && after.status in [Deploying, Failed] && ApprovedBy(w, e, id) && after.reviewedBy == e.reviewer)
    || (before.status == Deploying && after.status == Failed && e.Refresh? && after.reviewedBy == before.reviewedBy)
    || (before.status == Deploying && after.status == Completed && e.Refresh? && e.id == id
        && after.reviewedBy == before.reviewedBy && AllApplied(w, before))
  }

  lemma {:induction false} CompletedTally(w: World, request: Request)
    requires var tally := Count(w.plane.deployments, request, request.targets); tally.eligible > 0 && tally.applied == tally.eligible
    ensures AllApplied(w, request)
  {
    AppliedAtMostEligible(w.plane.deployments, request, request.targets);
    EligiblePositive(w.plane.deployments, request, request.targets);
  }

  lemma ExpiringMoves(w: World, e: Event, now: int, id: string)
    requires id in w.requests
    ensures var next := Expiring(w.requests, now);
      && next.Keys == w.requests.Keys
      && SameSnapshot(w.requests[id], next[id]) && Move(w, e, id, w.requests[id], next[id])
      && (next[id].status == PendingApproval ==> next[id] == w.requests[id] && now < w.requests[id].expiresAt)
  {
    hide AllApplied, Approvable;
  }

  lemma {:induction false} ApproveMoves(w: World, e: Event, id: string)
    requires id in w.requests && e.Approve?
    ensures id in Step(w, e).requests
    ensures SameSnapshot(w.requests[id], Step(w, e).requests[id]) && Move(w, e, id, w.requests[id], Step(w, e).requests[id])
  {
    ExpiringMoves(w, e, e.now, id);
    hide Expiring, DeployTo, AllApplied, Unchanged, MayReview, StillReady, Eligibles;
  }

  lemma {:induction false} RefreshMoves(w: World, e: Event, id: string)
    requires id in w.requests && e.Refresh?
    ensures id in Step(w, e).requests
    ensures SameSnapshot(w.requests[id], Step(w, e).requests[id]) && Move(w, e, id, w.requests[id], Step(w, e).requests[id])
  {
    hide Count, AllApplied, Approvable;
    if e.id == id && w.requests[id].status == Deploying {
      var tally := Count(w.plane.deployments, w.requests[id], w.requests[id].targets);
      if tally.failed == 0 && tally.eligible > 0 && tally.applied == tally.eligible {
        CompletedTally(w, w.requests[id]);
      }
    }
  }

  /** Turning a pending request away is a move, also after the sweep of expired ones. */
  lemma TurnedAway(w: World, e: Event, id: string, requests: map<string, Request>, key: string, status: Status, reviewer: string)
    requires id in w.requests && id in requests && key in requests
    requires SameSnapshot(w.requests[id], requests[id]) && Move(w, e, id, w.requests[id], requests[id])
    requires requests[id].status == PendingApproval ==> requests[id] == w.requests[id]
    requires requests[key].status == PendingApproval && status in [Rejected, SentBack, Cancelled]
    ensures var next := requests[key := requests[key].(status := status, reviewedBy := reviewer)];
      SameSnapshot(w.requests[id], next[id]) && Move(w, e, id, w.requests[id], next[id])
  {
    hide AllApplied, ApprovedBy;
  }

  lemma SweptMoves(w: World, e: Event, id: string)
    requires id in w.requests && (e.Decline? || e.Cancel?)
    ensures var requests := Swept(w, e.swept, e.now);
      && id in requests
      && SameSnapshot(w.requests[id], requests[id]) && Move(w, e, id, w.requests[id], requests[id])
      && (requests[id].status == PendingApproval ==> requests[id] == w.requests[id])
  {
    ExpiringMoves(w, e, e.now, id);
    Unmoved(w, e, id);
    hide Expiring, Move, SameSnapshot;
  }

  lemma {:induction false} DeclineMoves(w: World, e: Event, id: string)
    requires id in w.requests && e.Decline?
    ensures id in Step(w, e).requests
    ensures SameSnapshot(w.requests[id], Step(w, e).requests[id]) && Move(w, e, id, w.requests[id], Step(w, e).requests[id])
  {
    var requests := Swept(w, e.swept, e.now);
    assert Step(w, e) == AfterDecline(w, e);
    hide Step, Swept, MayReview, Move, SameSnapshot;
    SweptMoves(w, e, id);
    if e.id in requests && requests[e.id].status == PendingApproval {
      TurnedAway(w, e, id, requests, e.id, if e.sendBack then SentBack else Rejected, e.reviewer);
    }
  }

  lemma {:induction false} CancelMoves(w: World, e: Event, id: string)
    requires id in w.requests && e.Cancel?
    ensures id in Step(w, e).requests
    ensures SameSnapshot(w.requests[id], Step(w, e).requests[id]) && Move(w, e, id, w.requests[id], Step(w, e).requests[id])
  {
    var requests := Swept(w, e.swept, e.now);
    assert Step(w, e) == AfterCancel(w, e);
    hide Step, Swept, Move, SameSnapshot;
    SweptMoves(w, e, id);
    if e.id in requests && requests[e.id].status == PendingApproval {
      TurnedAway(w, e, id, requests, e.id, Cancelled, e.actor);
    }
  }

  lemma Unmoved(w: World, e: Event, id: string)
    requires id in w.requests
    ensures SameSnapshot(w.requests[id], w.requests[id]) && Move(w, e, id, w.requests[id], w.requests[id])
  {
  }

  lemma {:induction false} OtherMoves(w: World, e: Event, id: string)
    requires id in w.requests && (e.Submit? || e.Expire? || e.Elsewhere?)
    ensures id in Step(w, e).requests
    ensures SameSnapshot(w.requests[id], Step(w, e).requests[id]) && Move(w, e, id, w.requests[id], Step(w, e).requests[id])
  {
    if e.Expire? { ExpiringMoves(w, e, e.now, id); }
    hide NewRequest, AllApplied, ApprovedBy, Expiring, AfterApproval, AfterDecline, AfterCancel, AfterRefresh, Submittable;
  }

  lemma {:induction false} StepMoves(w: World, e: Event, id: string)
    requires id in w.requests
    ensures id in Step(w, e).requests
    ensures SameSnapshot(w.requests[id], Step(w, e).requests[id]) && Move(w, e, id, w.requests[id], Step(w, e).requests[id])
  {
    hide *;
    if e.Approve? {
      ApproveMoves(w, e, id);
    } else if e.Refresh? {
      RefreshMoves(w, e, id);
    } else if e.Decline? {
      DeclineMoves(w, e, id);
    } else if e.Cancel? {
      CancelMoves(w, e, id);
    } else {
      OtherMoves(w, e, id);
    }
  }

  /** A check completes a deploying request exactly when it has eligible targets and the newest
      listed record of each is applied. */
  lemma {:induction false} RefreshCompletesIff(w: World, id: string)
    requires id in w.requests && w.requests[id].status == Deploying
    ensures var request := w.requests[id];
      Step(w, Refresh(id)).requests[id].status == Completed <==>
        && (exists i :: 0 <= i < |request.targets| && request.targets[i].eligible)
        && forall i :: 0 <= i < |request.targets| && request.targets[i].eligible ==>
             Outcome(w.plane.deployments, request, request.targets[i]) == Some(D.Applied)
  {
    var request := w.requests[id];
    AppliedAtMostEligible(w.plane.deployments, request, request.targets);
    EligiblePositive(w.plane.deployments, request, request.targets);
  }

  lemma {:induction false} EligiblePositive(deployments: seq<D.Deployment>, request: Request, targets: seq<Target>)
    ensures Count(deployments, request, targets).eligible > 0 <==> exists i :: 0 <= i < |targets| && targets[i].eligible
  {
    if targets != [] {
      EligiblePositive(deployments, request, targets[..|targets| - 1]);
    }
  }

  // ---------- What an approval deploys ----------

  /** A record made by an approval: the approved configuration for an eligible target under the
      request's id, or the rollback of an earlier record. */
  ghost predicate FromApproval(d: D.Deployment, id: string, request: Request, config: D.Configuration) {
    || d.action == D.Rollback
    || (d.action == D.Deploy && d.configID == config.id && d.hash == config.hash && d.requestID == id
        && exists i :: 0 <= i < |request.targets| && request.targets[i].eligible && request.targets[i].uid == d.uid)
  }

  lemma {:induction false} DeliverRecord(s: D.State, order: D.Order, calls: D.Calls)
    ensures var t := D.Deliver(s, order, calls).0;
      && s.deployments <= t.deployments && t.configs == s.configs
      && forall d :: d in t.deployments[|s.deployments|..] ==>
           d.uid == order.uid && d.configID == order.config.id && d.hash == order.config.hash && d.action == order.action && d.requestID == order.requestID
  {
    hide D.Upserted, D.Newest, D.Latest;
  }

  lemma {:induction false} RollbackRecord(s: D.State, uid: string, hash: string, claimed: bool, found: bool, calls: D.Calls)
    ensures var t := D.AutoRollback(s, uid, hash, claimed, found, calls).0;
      && |s.deployments| <= |t.deployments| && t.configs == s.configs
      && (forall d :: d in t.deployments[|s.deployments|..] ==> d.action == D.Rollback)
      && forall i :: 0 <= i < |s.deployments| ==> t.deployments[i] == s.deployments[i].(claimed := t.deployments[i].claimed)
  {
    hide D.Deliver, D.Latest;
    var target := D.RollbackTarget(s, uid, hash);
    if target.Some? && claimed {
      var i := target.value;
      var s1 := s.(deployments := s.deployments[i := s.deployments[i].(claimed := true)]);
      var previous := s.deployments[i].previousConfigID;
      if found && previous in s.configs {
        DeliverRecord(s1, D.Order(uid, s.configs[previous], D.Rollback, "", ""), calls);
      }
    }
  }

  /** An approval sends nothing but the approved configuration, and only to eligible targets. */
  lemma {:induction false} ApprovalDeploysOnlySnapshot(plane: D.State, id: string, request: Request, config: D.Configuration, k: nat, rollouts: seq<Rollout>)
    requires k <= |request.targets|
    ensures var after := DeployTo(plane, id, request, config, k, rollouts).0;
      && |plane.deployments| <= |after.deployments|
      && forall i :: |plane.deployments| <= i < |after.deployments| ==> FromApproval(after.deployments[i], id, request, config)
  {
    if k > 0 {
      ApprovalDeploysOnlySnapshot(plane, id, request, config, k - 1, rollouts);
      var before := DeployTo(plane, id, request, config, k - 1, rollouts).0;
      var target, rollout := request.targets[k - 1], RolloutAt(rollouts, k - 1);
      var order := D.Order(target.uid, config, D.Deploy, LastApplied(before.deployments, target.uid, RECENT_LIMIT), id);
      hide D.Deliver, D.AutoRollback, LastApplied;
      if target.eligible && rollout.historyRead {
        DeliverRecord(before, order, rollout.calls);
        var sent := D.Deliver(before, order, rollout.calls).0;
        forall i | |plane.deployments| <= i < |sent.deployments| ensures FromApproval(sent.deployments[i], id, request, config) {
          if i >= |before.deployments| {
            assert sent.deployments[i] in sent.deployments[|before.deployments|..];
          }
        }
        RollbackRecord(sent, target.uid, config.hash, rollout.claimed, rollout.found, rollout.undoCalls);
        var undone := D.AutoRollback(sent, target.uid, config.hash, rollout.claimed, rollout.found, rollout.undoCalls).0;
        forall i | |plane.deployments| <= i < |undone.deployments| ensures FromApproval(undone.deployments[i], id, request, config) {
          if i >= |sent.deployments| {
            assert undone.deployments[i] in undone.deployments[|sent.deployments|..];
          }
        }
      }
    }
  }

  // ---------- Runs ----------

  /** The worlds of a run: one before each event and one after the last. */
  ghost predicate Trace(worlds: seq<World>, events: seq<Event>) {
    && |worlds| == |events| + 1 && worlds[0].requests == map[]
    && forall k :: 0 <= k < |events| ==> worlds[k + 1] == Step(worlds[k], events[k])
  }

  ghost predicate SubmittedAt(worlds: seq<World>, events: seq<Event>, k: nat, id: string, request: Request) {
    && k < |events| && k < |worlds| && events[k].Submit? && events[k].id == id
    && Submittable(worlds[k], events[k]) && SameSnapshot(NewRequest(worlds[k], events[k]), request)
  }

  ghost predicate ApprovedAt(worlds: seq<World>, events: seq<Event>, k: nat, id: string, request: Request) {
    && k < |events| && k < |worlds| && ApprovedBy(worlds[k], events[k], id)
    && SameSnapshot(worlds[k].requests[id], request) && request.reviewedBy == events[k].reviewer
  }

  ghost predicate CompletedAt(worlds: seq<World>, events: seq<Event>, k: nat, id: string, request: Request) {
    k < |events| && k < |worlds| && events[k].Refresh? && events[k].id == id && AllApplied(worlds[k], request)
  }

  lemma {:induction false} NextMoves(w: World, e: Event, id: string, after: Request)
    requires id in Step(w, e).requests && Step(w, e).requests[id] == after
    ensures id in w.requests ==> SameSnapshot(w.requests[id], after) && Move(w, e, id, w.requests[id], after)
    ensures id !in w.requests ==> e.Submit? && e.id == id && Submittable(w, e) && after == NewRequest(w, e)
  {
    if id in w.requests {
      StepMoves(w, e, id);
    }
    hide Count, DeployTo, AllApplied, Unchanged, MayReview, StillReady, Eligibles, Snapshot, Submittable, Approvable;
  }

  /** Where a request comes from: a submission, an approval once it was deploying, and a check of
      all eligible targets once it is completed. */
  ghost predicate Explained(worlds: seq<World>, events: seq<Event>, id: string, request: Request) {
    && (exists k :: SubmittedAt(worlds, events, k, id, request))
    && (request.status in [Deploying, Completed, Failed] ==> exists k :: ApprovedAt(worlds, events, k, id, request))
    && (request.status == Completed ==> exists k :: CompletedAt(worlds, events, k, id, request))
  }

  /** In every run each request is the snapshot some submission took; it is deploying, completed or
      failed only after an approval by someone other than the requester, made while it was pending
      and its group, configuration and eligible targets were unchanged and ready; and it is completed
      only by a check that found the newest record of every eligible target applied. */
  lemma {:induction false} RequestHistory(worlds: seq<World>, events: seq<Event>, id: string)
    requires Trace(worlds, events) && id in worlds[|events|].requests
    ensures Explained(worlds, events, id, worlds[|events|].requests[id])
    decreases |events|
  {
    hide Step, Explained, Move, SubmittedAt;
    if events != [] {
      var n := |events| - 1;
      var request := worlds[|events|].requests[id];
      var earlier, past := worlds[..n + 1], events[..n];
      NextMoves(worlds[n], events[n], id, request);
      if id in worlds[n].requests {
        RequestHistory(earlier, past, id);
        ExplainNext(worlds, events, earlier, past, id, worlds[n].requests[id], request);
      } else {
        ExplainNew(worlds, events, n, id, request);
      }
    }
  }

  lemma ExplainNew(worlds: seq<World>, events: seq<Event>, n: nat, id: string, request: Request)
    requires n < |events| && n < |worlds| && events[n].Submit? && events[n].id == id && Submittable(worlds[n], events[n])
    requires request == NewRequest(worlds[n], events[n])
    ensures Explained(worlds, events, id, request)
  {
    hide Submittable, Snapshot, ApprovedAt, CompletedAt;
    assert SubmittedAt(worlds, events, n, id, request);
  }

  lemma {:induction false} ExplainNext(worlds: seq<World>, events: seq<Event>, earlier: seq<World>, past: seq<Event>, id: string,
                                       before: Request, after: Request)
    requires |worlds| == |events| + 1 && |events| > 0
    requires earlier == worlds[..|events|] && past == events[..|events| - 1]
    requires var n := |events| - 1; id in worlds[n].requests && before == worlds[n].requests[id] && Move(worlds[n], events[n], id, before, after)
    requires SameSnapshot(before, after)
    requires Explained(earlier, past, id, before)
    ensures Explained(worlds, events, id, after)
  {
    hide Approvable, Submittable, NewRequest, AllApplied;
    var n := |events| - 1;
    var k: nat :| SubmittedAt(earlier, past, k, id, before);
    assert SubmittedAt(worlds, events, k, id, after);
    if after.status in [Deploying, Completed, Failed] {
      if before.status == PendingApproval {
        assert ApprovedAt(worlds, events, n, id, after);
      } else {
        var k: nat :| ApprovedAt(earlier, past, k, id, before);
        assert ApprovedAt(worlds, events, k, id, after);
      }
    }
    if after.status == Completed {
      if before.status == Deploying {
        AppliedSame(worlds[n], before, after);
        assert CompletedAt(worlds, events, n, id, after);
      } else {
        var k: nat :| CompletedAt(earlier, past, k, id, before);
        AppliedSame(worlds[k], before, after);
        assert CompletedAt(worlds, events, k, id, after);
      }
    }
  }

  lemma AppliedSame(w: World, before: Request, after: Request)
    requires SameSnapshot(before, after)
    ensures AllApplied(w, before) <==> AllApplied(w, after)
  {
  }

  /** A request in a terminal status never changes again. */
  lemma {:induction false} TerminalStays(worlds: seq<World>, events: seq<Event>, id: string, m: nat, n: nat)
    requires Trace(worlds, events) && m <= n <= |events|
    requires id in worlds[m].requests && Terminal(worlds[m].requests[id].status)
    ensures id in worlds[n].requests && worlds[n].requests[id] == worlds[m].requests[id]
    decreases n
  {
    hide Step;
    if m < n {
      TerminalStays(worlds, events, id, m, n - 1);
      StepMoves(worlds[n - 1], events[n - 1], id);
    }
  }
}
