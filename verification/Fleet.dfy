/** What a membership change acts on: the Collector inventory and its snapshot file, the
    configuration and assignment stores, and the delivery of configurations. Every store access may
    fail; which ones do is left open, and each failure is logged. */
module Fleet {
  import opened Wrappers
  import opened Groups

  datatype Action = Deploy | Rollback

  /** One request to send a configuration to a Collector. */
  datatype Call = Call(uid: string, configID: string, action: Action, previousConfigID: string, requestID: string)

  datatype Answer = Sent | AlreadyCurrent | Refused

  datatype Delivery = Delivery(call: Call, answer: Answer)

  /** A store access that failed. */
  datatype Fault =
    | AgentRead(uid: string)
    | AgentWrite(uid: string)
    | SnapshotWrite
    | ConfigurationRead(id: string)
    | GroupRead(id: string)
    | GroupListing
    | AssignmentRead(uid: string)

  datatype Latest = LatestIs(configID: string) | NeverAssigned | LookupFailed

  /** A store write keeps the display name a partial update leaves out, and a display name
      takes the place of the reported name. */
  function Merged(previous: Option<Agent>, agent: Agent): Agent {
    var displayName := if agent.displayName == "" && previous.Some? then previous.value.displayName else agent.displayName;
    agent.(displayName := displayName, name := if displayName != "" then displayName else agent.name)
  }

  function Stored(agents: map<string, Agent>, uid: string): Option<Agent> {
    if uid in agents then Some(agents[uid]) else None
  }

  ghost predicate Normal(uid: string, agent: Agent) {
    agent.uid == uid && (agent.displayName != "" ==> agent.name == agent.displayName)
  }

  ghost predicate NormalStore(agents: map<string, Agent>) {
    forall uid :: uid in agents ==> Normal(uid, agents[uid])
  }

  function LatestOf(assignments: map<string, string>, uid: string): Latest {
    if uid in assignments then LatestIs(assignments[uid]) else NeverAssigned
  }

  class Control {
    var agents: map<string, Agent>
    var snapshot: map<string, Agent>
    var deliveries: seq<Delivery>
    /** The failed accesses so far, in order. */
    ghost var faults: seq<Fault>
    const groups: map<string, Group>
    const configurations: set<string>
    const assignments: map<string, string>

    constructor (agents: map<string, Agent>, groups: map<string, Group>, configurations: set<string>, assignments: map<string, string>)
      ensures this.agents == agents && snapshot == agents && deliveries == [] && faults == []
      ensures this.groups == groups && this.configurations == configurations && this.assignments == assignments
    {
      this.agents, this.snapshot, this.deliveries, this.faults := agents, agents, [], [];
      this.groups, this.configurations, this.assignments := groups, configurations, assignments;
    }

    /** One access: it works, or fails and is logged. */
    method Access(ghost fault: Fault) returns (ok: bool)
      modifies this`faults
      ensures faults == if ok then old(faults) else old(faults) + [fault]
    {
      ok := *;
      if !ok {
        faults := faults + [fault];
      }
    }

    method GetAgent(uid: string) returns (agent: Option<Agent>)
      modifies this`faults
      ensures faults == old(faults) || faults == old(faults) + [AgentRead(uid)]
      ensures agent == if faults == old(faults) then Stored(agents, uid) else None
    {
      var ok := Access(AgentRead(uid));
      agent := if ok then Stored(agents, uid) else None;
    }

    method Upsert(agent: Agent) returns (ok: bool)
      modifies this`agents, this`faults
      ensures faults == if ok then old(faults) else old(faults) + [AgentWrite(agent.uid)]
      ensures agents == if ok then old(agents)[agent.uid := Merged(Stored(old(agents), agent.uid), agent)] else old(agents)
    {
      ok := Access(AgentWrite(agent.uid));
      if ok {
        agents := agents[agent.uid := Merged(Stored(agents, agent.uid), agent)];
      }
    }

    method SaveSnapshot() returns (ok: bool)
      modifies this`snapshot, this`faults
      ensures faults == if ok then old(faults) else old(faults) + [SnapshotWrite]
      ensures snapshot == if ok then agents else old(snapshot)
    {
      ok := Access(SnapshotWrite);
      if ok {
        snapshot := agents;
      }
    }

    method Deliver(call: Call) returns (answer: Answer)
      modifies this`deliveries
      ensures deliveries == old(deliveries) + [Delivery(call, answer)]
    {
      answer := *;
      deliveries := deliveries + [Delivery(call, answer)];
    }

    method HasConfiguration(id: string) returns (found: bool)
      modifies this`faults
      ensures faults == old(faults) || faults == old(faults) + [ConfigurationRead(id)]
      ensures found <==> faults == old(faults) && id in configurations
    {
      var ok := Access(ConfigurationRead(id));
      found := ok && id in configurations;
    }

    method GetGroup(id: string) returns (group: Option<Group>)
      modifies this`faults
      ensures faults == old(faults) || faults == old(faults) + [GroupRead(id)]
      ensures group == if faults == old(faults) && id in groups then Some(groups[id]) else None
    {
      var ok := Access(GroupRead(id));
      group := if ok && id in groups then Some(groups[id]) else None;
    }

    method ListGroups() returns (ok: bool)
      modifies this`faults
      ensures faults == if ok then old(faults) else old(faults) + [GroupListing]
    {
      ok := Access(GroupListing);
    }

    method LatestAssignment(uid: string) returns (latest: Latest)
      modifies this`faults
      ensures faults == old(faults) || faults == old(faults) + [AssignmentRead(uid)]
      ensures latest == if faults == old(faults) then LatestOf(assignments, uid) else LookupFailed
    {
      var ok := Access(AssignmentRead(uid));
      latest := if ok then LatestOf(assignments, uid) else LookupFailed;
    }
  }
}
