/** Delivering configurations to agents: the assignment and deployment stores, the guards that
    keep one delivery in flight per agent, agent reports, and the one-shot automatic rollback. */
module Delivery {
  import opened Wrappers

  datatype Status = Pending | Sent | Applying | Applied | Failed | Unsupported

  datatype Action = Deploy | Rollback | Reconcile

  datatype Configuration = Configuration(id: string, hash: string)

  /** A delivery record; its position in the log is its creation order and its identity. */
  datatype Deployment = Deployment(
    uid: string, configID: string, hash: string, action: Action,
    previousConfigID: string, requestID: string, claimed: bool, status: Status)

  datatype Assignment = Assignment(uid: string, configID: string, hash: string, status: Status, updatedAt: int)

  datatype State = State(deployments: seq<Deployment>, assignments: seq<Assignment>,
                         configs: map<string, Configuration>, clock: int)

  predicate InFlight(status: Status) {
    status == Pending || status == Sent || status == Applying
  }

  // ---------- Queries ----------

  predicate Selects(deployment: Deployment, uid: string, hash: Option<string>) {
    deployment.uid == uid && (hash.Some? ==> deployment.hash == hash.value)
  }

  /** The newest delivery to an agent, optionally of one configuration hash. */
  function Latest(deployments: seq<Deployment>, uid: string, hash: Option<string>): (found: Option<nat>)
    ensures found.Some? ==> found.value < |deployments| && Selects(deployments[found.value], uid, hash)
    ensures found.Some? ==> forall i :: found.value < i < |deployments| ==> !Selects(deployments[i], uid, hash)
    ensures found == None ==> forall i :: 0 <= i < |deployments| ==> !Selects(deployments[i], uid, hash)
  {
    if deployments == [] then None
    else if Selects(deployments[|deployments| - 1], uid, hash) then Some(|deployments| - 1)
    else Latest(deployments[..|deployments| - 1], uid, hash)
  }

  /** The assignment updated last; among equally old ones the first listed. */
  function Newest(assignments: seq<Assignment>, uid: string): (found: Option<Assignment>)
    ensures found.Some? ==> found.value in assignments && found.value.uid == uid
    ensures found.Some? ==> forall a :: a in assignments && a.uid == uid ==> a.updatedAt <= found.value.updatedAt
    ensures found == None ==> forall a :: a in assignments ==> a.uid != uid
  {
    if assignments == [] then None
    else
      var last := assignments[|assignments| - 1];
      var best := Newest(assignments[..|assignments| - 1], uid);
      if last.uid == uid && (best == None || last.updatedAt > best.value.updatedAt) then Some(last) else best
  }

  method LatestAssignmentForAgent(assignments: seq<Assignment>, uid: string) returns (latest: Option<Assignment>)
    ensures latest == Newest(assignments, uid)
  {
    latest := None;
    var i := 0;
    while i < |assignments|
      invariant 0 <= i <= |assignments|
      invariant latest == Newest(assignments[..i], uid)
    {
      assert assignments[..i + 1][..i] == assignments[..i];
      if assignments[i].uid == uid && (latest == None || assignments[i].updatedAt > latest.value.updatedAt) {
        latest := Some(assignments[i]);
      }
      i := i + 1;
    }
    assert assignments[..i] == assignments;
  }

  // ---------- Store updates ----------

  predicate SameKey(a: Assignment, b: Assignment) {
    a.uid == b.uid && a.configID == b.configID
  }

  /** Inserts or replaces the assignment of an agent and configuration. */
  function Upserted(assignments: seq<Assignment>, a: Assignment): (next: seq<Assignment>)
    ensures a in next
    ensures forall b :: b in next ==> b == a || b in assignments
  {
    if assignments == [] then [a]
    else if SameKey(assignments[0], a) then [a] + assignments[1..]
    else [assignments[0]] + Upserted(assignments[1..], a)
  }

  /** The index of the newest assignment of an agent with a configuration hash. */
  function NewestWithHash(assignments: seq<Assignment>, uid: string, hash: string): (found: Option<nat>)
    ensures found.Some? ==>
      && found.value < |assignments| && assignments[found.value].uid == uid && assignments[found.value].hash == hash
      && forall a :: a in assignments && a.uid == uid && a.hash == hash ==> a.updatedAt <= assignments[found.value].updatedAt
    ensures found.Some? ==> forall i | 0 <= i < found.value && assignments[i].uid == uid && assignments[i].hash == hash ::
      assignments[i].updatedAt < assignments[found.value].updatedAt
    ensures found == None ==> forall a :: a in assignments ==> a.uid != uid || a.hash != hash
  {
    if assignments == [] then None
    else
      var last := assignments[|assignments| - 1];
      var best := NewestWithHash(assignments[..|assignments| - 1], uid, hash);
      if last.uid == uid && last.hash == hash && (best == None || last.updatedAt > assignments[best.value].updatedAt)
      then Some(|assignments| - 1) else best
  }

  function Reported(assignments: seq<Assignment>, uid: string, hash: string, status: Status, now: int): seq<Assignment> {
    match NewestWithHash(assignments, uid, hash)
    case None => assignments
    case Some(i) => assignments[i := assignments[i].(status := status, updatedAt := now)]
  }

  /** Sets the status of the newest delivery of a hash to an agent. */
  function Updated(deployments: seq<Deployment>, uid: string, hash: string, status: Status): seq<Deployment> {
    match Latest(deployments, uid, Some(hash))
    case None => deployments
    case Some(i) => deployments[i := deployments[i].(status := status)]
  }

  // ---------- The steps ----------

  datatype SendResult = SendOk | SendUnsupported | SendError

  /** Which of the calls a delivery makes succeed. */
  datatype Calls = Calls(readAssignments: bool, readDeployments: bool, create: bool, assign: bool,
                         send: SendResult, record: bool, update: bool)

  datatype Result = Delivered | AlreadyCurrent | InProgress | StoreFailed | SendFailed

  function SentStatus(send: SendResult): Status {
    match send
    case SendOk => Status.Sent
    case SendUnsupported => Unsupported
    case SendError => Failed
  }

  /** The status the new delivery record ends up with: it stays pending when a status write is lost. */
  function FinalStatus(calls: Calls): Status {
    if !calls.assign then (if calls.update then Failed else Pending)
    else if calls.record && calls.update then SentStatus(calls.send)
    else Pending
  }

  datatype Order = Order(uid: string, config: Configuration, action: Action, previousConfigID: string, requestID: string)

  predicate IsCurrent(s: State, order: Order) {
    var latest := Newest(s.assignments, order.uid);
    order.action != Reconcile && latest.Some? && latest.value.hash == order.config.hash && latest.value.status == Applied
  }

  predicate Busy(s: State, uid: string) {
    var newest := Latest(s.deployments, uid, None);
    newest.Some? && InFlight(s.deployments[newest.value].status)
  }

  function Deliver(s: State, order: Order, calls: Calls): (State, Result) {
    if !calls.readAssignments then (s, StoreFailed)
    else if IsCurrent(s, order) then (s, AlreadyCurrent)
    else if !calls.readDeployments then (s, StoreFailed)
    else if Busy(s, order.uid) then (s, InProgress)
    else if !calls.create then (s, StoreFailed)
    else
      var deployment := Deployment(order.uid, order.config.id, order.config.hash, order.action,
                                   order.previousConfigID, order.requestID, false, FinalStatus(calls));
      var assignment := Assignment(order.uid, order.config.id, order.config.hash,
                                   if calls.record then SentStatus(calls.send) else Pending,
                                   if calls.record then s.clock + 1 else s.clock);
      (s.(deployments := s.deployments + [deployment],
          assignments := if calls.assign then Upserted(s.assignments, assignment) else s.assignments,
          clock := s.clock + 2),
       if !calls.assign || (calls.send == SendOk && !calls.record) then StoreFailed
       else if calls.send == SendOk then Delivered else SendFailed)
  }

  /** The deployment whose failure may be rolled back automatically, if any. */
  function RollbackTarget(s: State, uid: string, hash: string): (found: Option<nat>)
    ensures found.Some? ==> found.value < |s.deployments|
  {
    match Latest(s.deployments, uid, Some(hash))
    case None => None
    case Some(i) =>
      if s.deployments[i].action == Deploy && s.deployments[i].previousConfigID != "" && !s.deployments[i].claimed then Some(i) else None
  }

  /** What an automatic rollback did: the deployment it claimed and the one it launched. */
  datatype Effect = Effect(claimed: Option<nat>, launched: Option<nat>)

  const NOTHING := Effect(None, None)

  function AutoRollback(s: State, uid: string, hash: string, claimed: bool, found: bool, calls: Calls): (State, Effect) {
    match RollbackTarget(s, uid, hash)
    case None => (s, NOTHING)
    case Some(i) =>
      if !claimed then (s, NOTHING)
      else
        var s1 := s.(deployments := s.deployments[i := s.deployments[i].(claimed := true)]);
        var previous := s.deployments[i].previousConfigID;
        if !found || previous !in s.configs then (s1, Effect(Some(i), None))
        else
          var s2 := Deliver(s1, Order(uid, s.configs[previous], Rollback, "", ""), calls).0;
          (s2, Effect(Some(i), if |s2.deployments| > |s1.deployments| then Some(|s1.deployments|) else None))
  }

  datatype Event =
    | Ordered(order: Order, calls: Calls)
    | Report(uid: string, hash: string, status: Status, assignmentSaved: bool, deploymentSaved: bool,
             claimed: bool, found: bool, calls: Calls)
    | Retried(uid: string, hash: string, claimed: bool, found: bool, calls: Calls)

  function Noted(s: State, uid: string, hash: string, status: Status, assignmentSaved: bool, deploymentSaved: bool): State {
    s.(assignments := if assignmentSaved then Reported(s.assignments, uid, hash, status, s.clock) else s.assignments,
       deployments := if deploymentSaved then Updated(s.deployments, uid, hash, status) else s.deployments,
       clock := s.clock + 1)
  }

  function Step(s: State, e: Event): (State, Effect) {
    match e
    case Ordered(order, calls) => (Deliver(s, order, calls).0, NOTHING)
    case Report(uid, hash, status, assignmentSaved, deploymentSaved, claimed, found, calls) =>
      var s1 := Noted(s, uid, hash, status, assignmentSaved, deploymentSaved);
      if status == Failed || status == Unsupported then AutoRollback(s1, uid, hash, claimed, found, calls) else (s1, NOTHING)
    case Retried(uid, hash, claimed, found, calls) => AutoRollback(s, uid, hash, claimed, found, calls)
  }

  /** A run: the final state and the effects of its steps, in order. */
  function Run(s: State, events: seq<Event>): (State, seq<Effect>) {
    if events == [] then (s, [])
    else
      var (s1, effects) := Run(s, events[..|events| - 1]);
      var (s2, effect) := Step(s1, events[|events| - 1]);
      (s2, effects + [effect])
  }
}
