/** Properties of deliveries and automatic rollbacks over whole runs. */
module DeliveryRuns {
  import opened Wrappers
  import opened Delivery

  // ---------- Automatic rollbacks are bounded ----------

  predicate Eligible(d: Deployment) {
    d.action == Deploy && d.previousConfigID != ""
  }

  /** How many deployments may still trigger an automatic rollback. */
  function Budget(deployments: seq<Deployment>): nat {
    if deployments == [] then 0
    else Budget(deployments[..|deployments| - 1]) +
         (if Eligible(deployments[|deployments| - 1]) && !deployments[|deployments| - 1].claimed then 1 else 0)
  }

  lemma {:induction false} BudgetAppend(deployments: seq<Deployment>, d: Deployment)
    ensures Budget(deployments + [d]) == Budget(deployments) + (if Eligible(d) && !d.claimed then 1 else 0)
  {
    assert (deployments + [d])[..|deployments|] == deployments;
  }

  lemma {:induction false} BudgetUpdate(deployments: seq<Deployment>, i: nat, d: Deployment)
    requires i < |deployments|
    ensures Budget(deployments[i := d]) ==
      Budget(deployments) + (if Eligible(d) && !d.claimed then 1 else 0)
                          - (if Eligible(deployments[i]) && !deployments[i].claimed then 1 else 0)
  {
    var n := |deployments| - 1;
    var next := deployments[i := d];
    if i == n {
      assert next[..n] == deployments[..n];
    } else {
      BudgetUpdate(deployments[..n], i, d);
      assert next[..n] == deployments[..n][i := d];
    }
  }

  /** A delivery adds at most one record, at the end, and touches no other. */
  lemma {:induction false} DeliverAppends(s: State, order: Order, calls: Calls)
    ensures var t := Deliver(s, order, calls).0;
      && t.configs == s.configs && t.clock >= s.clock
      && (t.deployments == s.deployments ||
          (|t.deployments| == |s.deployments| + 1 && t.deployments[..|s.deployments|] == s.deployments
           && var d := t.deployments[|s.deployments|];
              d.uid == order.uid && d.action == order.action && d.previousConfigID == order.previousConfigID && !d.claimed))
  {
  }

  lemma {:induction false} UpdateKeepsBudget(deployments: seq<Deployment>, uid: string, hash: string, status: Status)
    ensures Budget(Updated(deployments, uid, hash, status)) == Budget(deployments)
    ensures |Updated(deployments, uid, hash, status)| == |deployments|
  {
    var found := Latest(deployments, uid, Some(hash));
    if found.Some? {
      BudgetUpdate(deployments, found.value, deployments[found.value].(status := status));
    }
  }

  /** An automatic rollback spends one unit of budget per claim and launches at most one record. */
  lemma {:induction false} AutoRollbackSpends(s: State, uid: string, hash: string, claimed: bool, found: bool, calls: Calls)
    ensures var (t, effect) := AutoRollback(s, uid, hash, claimed, found, calls);
      && Budget(t.deployments) + (if effect.claimed.Some? then 1 else 0) == Budget(s.deployments)
      && |t.deployments| == |s.deployments| + (if effect.launched.Some? then 1 else 0)
      && (effect.launched.Some? ==> effect.claimed.Some?)
  {
    var target := RollbackTarget(s, uid, hash);
    if target.Some? && claimed {
      var i := target.value;
      var s1 := s.(deployments := s.deployments[i := s.deployments[i].(claimed := true)]);
      BudgetUpdate(s.deployments, i, s.deployments[i].(claimed := true));
      var previous := s.deployments[i].previousConfigID;
      if found && previous in s.configs {
        var order := Order(uid, s.configs[previous], Rollback, "", "");
        DeliverAppends(s1, order, calls);
        var s2 := Deliver(s1, order, calls).0;
        if s2.deployments != s1.deployments {
          BudgetAppend(s1.deployments, s2.deployments[|s1.deployments|]);
          assert s2.deployments == s1.deployments + [s2.deployments[|s1.deployments|]];
        }
      }
    }
  }

  function Claims(effects: seq<Effect>): nat {
    if effects == [] then 0
    else Claims(effects[..|effects| - 1]) + (if effects[|effects| - 1].claimed.Some? then 1 else 0)
  }

  function Launches(effects: seq<Effect>): nat {
    if effects == [] then 0
    else Launches(effects[..|effects| - 1]) + (if effects[|effects| - 1].launched.Some? then 1 else 0)
  }

  /** Automatic rollbacks never outnumber their budget, and without new orders the log cannot
      grow by more than the budget: no cascade of rollbacks is endless. */
  lemma {:induction false} NoEndlessCascade(s: State, events: seq<Event>)
    requires forall i :: 0 <= i < |events| ==> !events[i].Ordered?
    ensures var (t, effects) := Run(s, events);
      && Launches(effects) <= Claims(effects)
      && Claims(effects) + Budget(t.deployments) == Budget(s.deployments)
      && |t.deployments| == |s.deployments| + Launches(effects)
  {
    if events != [] {
      var n := |events| - 1;
      NoEndlessCascade(s, events[..n]);
      var (s1, effects) := Run(s, events[..n]);
      StepSpends(s1, events[n]);
      var effect := Step(s1, events[n]).1;
      assert (effects + [effect])[..|effects|] == effects;
    }
  }

  lemma {:induction false} StepSpends(s: State, e: Event)
    requires !e.Ordered?
    ensures var (t, effect) := Step(s, e);
      && Budget(t.deployments) + (if effect.claimed.Some? then 1 else 0) == Budget(s.deployments)
      && |t.deployments| == |s.deployments| + (if effect.launched.Some? then 1 else 0)
      && (effect.launched.Some? ==> effect.claimed.Some?)
  {
    match e {
      case Report(uid, hash, status, assignmentSaved, deploymentSaved, claimed, found, calls) =>
        UpdateKeepsBudget(s.deployments, uid, hash, status);
        AutoRollbackSpends(Noted(s, uid, hash, status, assignmentSaved, deploymentSaved), uid, hash, claimed, found, calls);
      case Retried(uid, hash, claimed, found, calls) =>
        AutoRollbackSpends(s, uid, hash, claimed, found, calls);
    }
  }

  /** The deploys with a recorded previous configuration. */
  function Eligibles(deployments: seq<Deployment>): nat {
    if deployments == [] then 0
    else Eligibles(deployments[..|deployments| - 1]) + (if Eligible(deployments[|deployments| - 1]) then 1 else 0)
  }

  lemma {:induction false} EligiblesAppend(deployments: seq<Deployment>, d: Deployment)
    ensures Eligibles(deployments + [d]) == Eligibles(deployments) + (if Eligible(d) then 1 else 0)
  {
    assert (deployments + [d])[..|deployments|] == deployments;
  }

  lemma {:induction false} EligiblesUpdate(deployments: seq<Deployment>, i: nat, d: Deployment)
    requires i < |deployments| && (Eligible(d) <==> Eligible(deployments[i]))
    ensures Eligibles(deployments[i := d]) == Eligibles(deployments)
  {
    var n := |deployments| - 1;
    var next := deployments[i := d];
    if i == n {
      assert next[..n] == deployments[..n];
    } else {
      EligiblesUpdate(deployments[..n], i, d);
      assert next[..n] == deployments[..n][i := d];
    }
  }

  /** What a delivery adds to the budget it also adds to the eligible deploys. */
  lemma {:induction false} DeliverBalances(s: State, order: Order, calls: Calls)
    ensures var t := Deliver(s, order, calls).0;
      Budget(t.deployments) - Budget(s.deployments) == Eligibles(t.deployments) - Eligibles(s.deployments)
  {
    hide Deliver;
    DeliverAppends(s, order, calls);
    var t := Deliver(s, order, calls).0;
    if t.deployments != s.deployments {
      var d := t.deployments[|s.deployments|];
      assert t.deployments == s.deployments + [d];
      BudgetAppend(s.deployments, d);
      EligiblesAppend(s.deployments, d);
    }
  }

  lemma {:induction false} AutoRollbackBalances(s: State, uid: string, hash: string, claimed: bool, found: bool, calls: Calls)
    ensures var (t, effect) := AutoRollback(s, uid, hash, claimed, found, calls);
      Budget(t.deployments) + (if effect.claimed.Some? then 1 else 0) - Budget(s.deployments) == Eligibles(t.deployments) - Eligibles(s.deployments)
  {
    hide Deliver;
    var target := RollbackTarget(s, uid, hash);
    if target.Some? && claimed {
      var i := target.value;
      var marked := s.deployments[i].(claimed := true);
      var s1 := s.(deployments := s.deployments[i := marked]);
      BudgetUpdate(s.deployments, i, marked);
      EligiblesUpdate(s.deployments, i, marked);
      var previous := s.deployments[i].previousConfigID;
      if found && previous in s.configs {
        DeliverBalances(s1, Order(uid, s.configs[previous], Rollback, "", ""), calls);
      }
    }
  }

  lemma {:induction false} StepBalances(s: State, e: Event)
    ensures var (t, effect) := Step(s, e);
      Budget(t.deployments) + (if effect.claimed.Some? then 1 else 0) - Budget(s.deployments) == Eligibles(t.deployments) - Eligibles(s.deployments)
  {
    hide Deliver, AutoRollback;
    match e {
      case Ordered(order, calls) => DeliverBalances(s, order, calls);
      case Report(uid, hash, status, assignmentSaved, deploymentSaved, claimed, found, calls) =>
        var s1 := Noted(s, uid, hash, status, assignmentSaved, deploymentSaved);
        UpdateKeepsBudget(s.deployments, uid, hash, status);
        var named := Latest(s.deployments, uid, Some(hash));
        if named.Some? {
          EligiblesUpdate(s.deployments, named.value, s.deployments[named.value].(status := status));
        }
        AutoRollbackBalances(s1, uid, hash, claimed, found, calls);
      case Retried(uid, hash, claimed, found, calls) => AutoRollbackBalances(s, uid, hash, claimed, found, calls);
    }
  }

  /** Over any run, claims and remaining budget account for exactly the eligible deploys, so
      automatic rollbacks never outnumber the deploys with a recorded previous configuration. */
  lemma {:induction false} RollbacksAtMostDeploys(events: seq<Event>, configs: map<string, Configuration>)
    ensures var (t, effects) := Run(State([], [], configs, 0), events);
      Claims(effects) + Budget(t.deployments) == Eligibles(t.deployments)
  {
    hide Step;
    if events != [] {
      var n := |events| - 1;
      RollbacksAtMostDeploys(events[..n], configs);
      var (s1, effects) := Run(State([], [], configs, 0), events[..n]);
      StepBalances(s1, events[n]);
      var effect := Step(s1, events[n]).1;
      assert (effects + [effect])[..|effects|] == effects;
    }
  }

  // ---------- Each deployment is rolled back at most once ----------

  /** Apart from claim and status, a record never changes, and a claim is never taken back. */
  ghost predicate Grows(before: seq<Deployment>, after: seq<Deployment>) {
    && |before| <= |after|
    && forall i :: 0 <= i < |before| ==>
         && after[i].(claimed := before[i].claimed, status := before[i].status) == before[i]
         && (before[i].claimed ==> after[i].claimed)
  }

  /** A claim hits an unclaimed deploy with a recorded previous configuration; a launched record
      is a rollback of that configuration and can never be claimed itself. */
  ghost predicate Sound(before: seq<Deployment>, after: seq<Deployment>, effect: Effect) {
    && Grows(before, after)
    && (forall i :: 0 <= i < |before| && !before[i].claimed ==> (after[i].claimed <==> effect.claimed == Some(i)))
    && (forall i :: |before| <= i < |after| ==> !after[i].claimed)
    && (effect.claimed.Some? ==>
        effect.claimed.value < |before| && Eligible(before[effect.claimed.value]) && !before[effect.claimed.value].claimed)
    && (effect.launched.Some? ==>
        && effect.claimed.Some? && effect.launched.value == |before| < |after|
        && var d, failed := after[|before|], before[effect.claimed.value];
        && d.uid == failed.uid && d.action == Rollback && d.configID == failed.previousConfigID && !Eligible(d))
  }

  ghost predicate WellKeyed(configs: map<string, Configuration>) {
    forall id :: id in configs ==> configs[id].id == id
  }

  lemma {:induction false} AutoRollbackSound(s: State, uid: string, hash: string, claimed: bool, found: bool, calls: Calls)
    requires WellKeyed(s.configs)
    ensures var (t, effect) := AutoRollback(s, uid, hash, claimed, found, calls);
      Sound(s.deployments, t.deployments, effect) && t.configs == s.configs
  {
    var target := RollbackTarget(s, uid, hash);
    if target.Some? && claimed {
      var i := target.value;
      var s1 := s.(deployments := s.deployments[i := s.deployments[i].(claimed := true)]);
      var previous := s.deployments[i].previousConfigID;
      if found && previous in s.configs {
        DeliverAppends(s1, Order(uid, s.configs[previous], Rollback, "", ""), calls);
      }
    }
  }

  lemma {:induction false} NotedKeeps(s: State, uid: string, hash: string, status: Status, assignmentSaved: bool, deploymentSaved: bool)
    ensures var t := Noted(s, uid, hash, status, assignmentSaved, deploymentSaved);
      && t.configs == s.configs && |t.deployments| == |s.deployments|
      && forall i :: 0 <= i < |s.deployments| ==> t.deployments[i] == s.deployments[i].(status := t.deployments[i].status)
  {
  }

  lemma {:induction false} SoundAfterNote(before: seq<Deployment>, middle: seq<Deployment>, after: seq<Deployment>, effect: Effect)
    requires |middle| == |before|
    requires forall i :: 0 <= i < |before| ==> middle[i] == before[i].(status := middle[i].status)
    requires Sound(middle, after, effect)
    ensures Sound(before, after, effect)
  {
  }

  lemma {:induction false} StepSound(s: State, e: Event)
    requires WellKeyed(s.configs)
    ensures Sound(s.deployments, Step(s, e).0.deployments, Step(s, e).1) && Step(s, e).0.configs == s.configs
  {
    hide Deliver, AutoRollback, Noted;
    match e {
      case Ordered(order, calls) =>
        DeliverAppends(s, order, calls);
      case Report(uid, hash, status, assignmentSaved, deploymentSaved, claimed, found, calls) =>
        var s1 := Noted(s, uid, hash, status, assignmentSaved, deploymentSaved);
        NotedKeeps(s, uid, hash, status, assignmentSaved, deploymentSaved);
        AutoRollbackSound(s1, uid, hash, claimed, found, calls);
        SoundAfterNote(s.deployments, s1.deployments, Step(s, e).0.deployments, Step(s, e).1);
      case Retried(uid, hash, claimed, found, calls) =>
        AutoRollbackSound(s, uid, hash, claimed, found, calls);
    }
  }

  /** In a run from an unclaimed log, the claims are of distinct eligible deployments, exactly the
      ones marked as claimed in the end; so an automatic rollback never happens twice. */
  lemma {:induction false} ClaimedOnce(s: State, events: seq<Event>)
    requires WellKeyed(s.configs) && forall i :: 0 <= i < |s.deployments| ==> !s.deployments[i].claimed
    ensures var (t, effects) := Run(s, events);
      && |effects| == |events| && t.configs == s.configs
      && Grows(s.deployments, t.deployments)
      && (forall k :: 0 <= k < |effects| && effects[k].claimed.Some? ==>
           effects[k].claimed.value < |t.deployments| && Eligible(t.deployments[effects[k].claimed.value]))
      && (forall k, m :: 0 <= k < m < |effects| && effects[k].claimed.Some? ==> effects[k].claimed != effects[m].claimed)
      && (forall i :: 0 <= i < |t.deployments| ==>
           (t.deployments[i].claimed <==> exists k :: 0 <= k < |effects| && effects[k].claimed == Some(i)))
  {
    if events != [] {
      var n := |events| - 1;
      ClaimedOnce(s, events[..n]);
      var (s1, effects) := Run(s, events[..n]);
      StepSound(s1, events[n]);
      var (t, effect) := Step(s1, events[n]);
      var all := effects + [effect];
      assert Run(s, events) == (t, all);
      forall i | 0 <= i < |t.deployments|
        ensures t.deployments[i].claimed <==> exists k :: 0 <= k < |all| && all[k].claimed == Some(i)
      {
        if t.deployments[i].claimed {
          if effect.claimed == Some(i) {
            assert all[n].claimed == Some(i);
          } else {
            assert i < |s1.deployments| && s1.deployments[i].claimed;
            var k :| 0 <= k < |effects| && effects[k].claimed == Some(i);
            assert all[k].claimed == Some(i);
          }
        }
        if k :| 0 <= k < |all| && all[k].claimed == Some(i) {
          if k < n {
            assert effects[k].claimed == Some(i);
          }
        }
      }
    }
  }

  // ---------- One delivery in flight per agent ----------

  /** Only an agent's newest delivery may be in flight. */
  ghost predicate OneInFlight(deployments: seq<Deployment>) {
    forall i, j :: 0 <= i < j < |deployments| && deployments[i].uid == deployments[j].uid ==> !InFlight(deployments[i].status)
  }

  /** The report names the agent's newest delivery, or no delivery at all. */
  predicate NamesNewest(deployments: seq<Deployment>, uid: string, hash: string) {
    var named := Latest(deployments, uid, Some(hash));
    named.Some? ==> named == Latest(deployments, uid, None)
  }

  lemma {:induction false} DeliverKeepsOneInFlight(s: State, order: Order, calls: Calls)
    requires OneInFlight(s.deployments)
    ensures OneInFlight(Deliver(s, order, calls).0.deployments)
  {
    DeliverAppends(s, order, calls);
    var t := Deliver(s, order, calls).0;
    if t.deployments != s.deployments {
      var n := |s.deployments|;
      forall i, j | 0 <= i < j < |t.deployments| && t.deployments[i].uid == t.deployments[j].uid
        ensures !InFlight(t.deployments[i].status)
      {
        assert t.deployments[i] == s.deployments[i];
        if j < n {
          assert t.deployments[j] == s.deployments[j];
        } else {
          var newest := Latest(s.deployments, order.uid, None);
          if i != newest.value {
            assert s.deployments[i].uid == s.deployments[newest.value].uid;
          }
        }
      }
    }
  }

  lemma {:induction false} AutoRollbackKeepsOneInFlight(s: State, uid: string, hash: string, claimed: bool, found: bool, calls: Calls)
    requires OneInFlight(s.deployments)
    ensures OneInFlight(AutoRollback(s, uid, hash, claimed, found, calls).0.deployments)
  {
    hide Deliver;
    var target := RollbackTarget(s, uid, hash);
    if target.Some? && claimed {
      var i := target.value;
      var s1 := s.(deployments := s.deployments[i := s.deployments[i].(claimed := true)]);
      var previous := s.deployments[i].previousConfigID;
      if found && previous in s.configs {
        DeliverKeepsOneInFlight(s1, Order(uid, s.configs[previous], Rollback, "", ""), calls);
      }
    }
  }

  /** A saved report keeps one delivery in flight exactly when it is terminal or names the
      agent's newest delivery. */
  lemma {:induction false} ReportKeepsOneInFlightIff(s: State, uid: string, hash: string, status: Status)
    requires OneInFlight(s.deployments)
    ensures OneInFlight(Updated(s.deployments, uid, hash, status)) <==> !InFlight(status) || NamesNewest(s.deployments, uid, hash)
  {
    var named := Latest(s.deployments, uid, Some(hash));
    if named.Some? && InFlight(status) {
      var next := Updated(s.deployments, uid, hash, status);
      var newest := Latest(s.deployments, uid, None);
      if named != newest {
        assert next[named.value].uid == next[newest.value].uid && named.value < newest.value;
      } else {
        forall i, j | 0 <= i < j < |next| && next[i].uid == next[j].uid ensures !InFlight(next[i].status) {
          assert s.deployments[i].uid == s.deployments[j].uid;
        }
      }
    }
  }

  predicate Orderly(s: State, e: Event) {
    e.Report? && e.deploymentSaved ==> !InFlight(e.status) || NamesNewest(s.deployments, e.uid, e.hash)
  }

  /** Every step keeps one delivery in flight exactly when it is orderly. */
  lemma {:induction false} StepKeepsOneInFlightIff(s: State, e: Event)
    requires OneInFlight(s.deployments)
    ensures OneInFlight(Step(s, e).0.deployments) <==> Orderly(s, e)
  {
    hide Deliver, AutoRollback, Updated, Latest;
    match e {
      case Ordered(order, calls) => DeliverKeepsOneInFlight(s, order, calls);
      case Report(uid, hash, status, assignmentSaved, deploymentSaved, claimed, found, calls) =>
        ReportKeepsOneInFlightIff(s, uid, hash, status);
        var s1 := Noted(s, uid, hash, status, assignmentSaved, deploymentSaved);
        if !InFlight(status) || !deploymentSaved {
          AutoRollbackKeepsOneInFlight(s1, uid, hash, claimed, found, calls);
        }
      case Retried(uid, hash, claimed, found, calls) => AutoRollbackKeepsOneInFlight(s, uid, hash, claimed, found, calls);
    }
  }

  ghost predicate OrderlyRun(s: State, events: seq<Event>) {
    forall k :: 0 <= k < |events| ==> Orderly(Run(s, events[..k]).0, events[k])
  }

  lemma {:induction false} OrderlyRunKeepsOneInFlight(s: State, events: seq<Event>)
    requires OneInFlight(s.deployments) && OrderlyRun(s, events)
    ensures OneInFlight(Run(s, events).0.deployments)
  {
    hide Step, Orderly;
    if events != [] {
      var n := |events| - 1;
      forall k | 0 <= k < n ensures Orderly(Run(s, events[..n][..k]).0, events[..n][k]) {
        assert events[..n][..k] == events[..k];
      }
      OrderlyRunKeepsOneInFlight(s, events[..n]);
      StepKeepsOneInFlightIff(Run(s, events[..n]).0, events[n]);
    }
  }

  const ALL_SUCCEED := Calls(true, true, true, true, SendOk, true, true)

  const CONFIG_A := Configuration("a", "A")
  const CONFIG_B := Configuration("b", "B")

  function Said(hash: string, status: Status): Event {
    Report("agent", hash, status, true, true, true, true, ALL_SUCCEED)
  }

  /** Configuration A is delivered and applied, B is sent, and then comes a late report about A. */
  function TwoOrders(previous: string, late: Status): seq<Event> {
    [Ordered(Order("agent", CONFIG_A, Deploy, previous, ""), ALL_SUCCEED), Said("A", Applied),
     Ordered(Order("agent", CONFIG_B, Deploy, "", ""), ALL_SUCCEED), Said("A", late)]
  }

  function RecordOf(config: Configuration, previous: string, status: Status): Deployment {
    Deployment("agent", config.id, config.hash, Deploy, previous, "", false, status)
  }

  function EntryOf(config: Configuration, status: Status, at: int): Assignment {
    Assignment("agent", config.id, config.hash, status, at)
  }

  lemma TwoOrdersSteps(configs: map<string, Configuration>, previous: string, late: Status)
    ensures Step(State([], [], configs, 0), TwoOrders(previous, late)[0]).0
         == State([RecordOf(CONFIG_A, previous, Status.Sent)], [EntryOf(CONFIG_A, Status.Sent, 1)], configs, 2)
    ensures Step(State([RecordOf(CONFIG_A, previous, Status.Sent)], [EntryOf(CONFIG_A, Status.Sent, 1)], configs, 2), TwoOrders(previous, late)[1]).0
         == State([RecordOf(CONFIG_A, previous, Applied)], [EntryOf(CONFIG_A, Applied, 2)], configs, 3)
  {
  }

  lemma SecondOrder(configs: map<string, Configuration>, previous: string, late: Status)
    ensures var t := Step(State([RecordOf(CONFIG_A, previous, Applied)], [EntryOf(CONFIG_A, Applied, 2)], configs, 3), TwoOrders(previous, late)[2]).0;
      t.deployments == [RecordOf(CONFIG_A, previous, Applied), RecordOf(CONFIG_B, "", Status.Sent)] && t.configs == configs
  {
    var s := State([RecordOf(CONFIG_A, previous, Applied)], [EntryOf(CONFIG_A, Applied, 2)], configs, 3);
    assert Newest(s.assignments, "agent") == Some(EntryOf(CONFIG_A, Applied, 2));
    assert !Busy(s, "agent");
  }

  lemma RunSnoc(s: State, events: seq<Event>, e: Event)
    ensures Run(s, events + [e]).0 == Step(Run(s, events).0, e).0
    ensures Run(s, events + [e]).1 == Run(s, events).1 + [Step(Run(s, events).0, e).1]
  {
    assert (events + [e])[..|events|] == events;
  }

  /** Where the two orders lead before the late report, and what the report then does. */
  lemma BeforeLateReport(configs: map<string, Configuration>, previous: string, late: Status) returns (s: State)
    ensures s.deployments == [RecordOf(CONFIG_A, previous, Applied), RecordOf(CONFIG_B, "", Status.Sent)] && s.configs == configs
    ensures var s0 := State([], [], configs, 0); var (t, effects) := Run(s0, TwoOrders(previous, late));
      t == Step(s, Said("A", late)).0 && effects != [] && effects[|effects| - 1] == Step(s, Said("A", late)).1
  {
    var run := TwoOrders(previous, late);
    var s0 := State([], [], configs, 0);
    assert run == [] + [run[0]] + [run[1]] + [run[2]] + [run[3]];
    TwoOrdersSteps(configs, previous, late);
    SecondOrder(configs, previous, late);
    hide Step, Run, Deliver;
    assert Run(s0, []).0 == s0 by { EmptyRun(s0); }
    RunSnoc(s0, [], run[0]);
    RunSnoc(s0, [] + [run[0]], run[1]);
    RunSnoc(s0, [] + [run[0]] + [run[1]], run[2]);
    RunSnoc(s0, [] + [run[0]] + [run[1]] + [run[2]], run[3]);
    s := Run(s0, [] + [run[0]] + [run[1]] + [run[2]]).0;
  }

  lemma LateApplying(s: State)
    requires s.deployments == [RecordOf(CONFIG_A, "", Applied), RecordOf(CONFIG_B, "", Status.Sent)]
    ensures Step(s, Said("A", Applying)).0.deployments == [RecordOf(CONFIG_A, "", Applying), RecordOf(CONFIG_B, "", Status.Sent)]
  {
    assert Latest(s.deployments, "agent", Some("A")) == Some(0) by {
      assert s.deployments[1].hash == "B" != "A";
    }
  }

  /** A late "applying" report for an older configuration defeats the guard: two deliveries to one
      agent end up in flight. */
  lemma LateReportBreaksGuard()
    ensures !OneInFlight(Run(State([], [], map[], 0), TwoOrders("", Applying)).0.deployments)
  {
    hide Step, Run, Deliver;
    var s := BeforeLateReport(map[], "", Applying);
    LateApplying(s);
    var last := Step(s, Said("A", Applying)).0.deployments;
    assert last[0].uid == last[1].uid && InFlight(last[0].status);
  }

  lemma LateFailure(s: State)
    requires s.deployments == [RecordOf(CONFIG_A, "b", Applied), RecordOf(CONFIG_B, "", Status.Sent)]
    ensures Step(s, Said("A", Failed)).1 == Effect(Some(0), None)
    ensures Step(s, Said("A", Failed)).0.deployments
         == [RecordOf(CONFIG_A, "b", Failed).(claimed := true), RecordOf(CONFIG_B, "", Status.Sent)]
  {
    hide Newest, NewestWithHash;
    assert Latest(s.deployments, "agent", Some("A")) == Some(0) by {
      assert s.deployments[1].hash == "B" != "A";
    }
    var noted := Noted(s, "agent", "A", Failed, true, true);
    assert noted.deployments == [RecordOf(CONFIG_A, "b", Failed), RecordOf(CONFIG_B, "", Status.Sent)];
    assert Latest(noted.deployments, "agent", Some("A")) == Some(0) by {
      assert noted.deployments[1].hash == "B" != "A";
    }
    var claimed := noted.(deployments := noted.deployments[0 := noted.deployments[0].(claimed := true)]);
    assert Latest(claimed.deployments, "agent", None) == Some(1);
    assert Busy(claimed, "agent");
  }

  /** A late failure of an older configuration claims its rollback while another delivery is in
      flight: nothing is launched, and that deployment is never rolled back automatically. */
  lemma LateFailureWastesClaim()
    ensures var (t, effects) := Run(State([], [], map["b" := CONFIG_B], 0), TwoOrders("b", Failed));
      && effects != [] && effects[|effects| - 1] == Effect(Some(0), None)
      && t.deployments[0].status == Failed && t.deployments[0].claimed && |t.deployments| == 2
  {
    hide Step, Run, Deliver;
    var s := BeforeLateReport(map["b" := CONFIG_B], "b", Failed);
    LateFailure(s);
  }

  lemma EmptyRun(s: State)
    ensures Run(s, []) == (s, [])
  {
  }

  // ---------- Repeating and undoing a delivery ----------

  /** Every assignment was updated before now. */
  ghost predicate Past(s: State) {
    forall a :: a in s.assignments ==> a.updatedAt < s.clock
  }

  lemma {:induction false} StepKeepsPast(s: State, e: Event)
    requires Past(s)
    ensures Past(Step(s, e).0)
  {
    hide Updated, Latest, Newest;
    match e {
      case Ordered(order, calls) => DeliverKeepsPast(s, order, calls);
      case Report(uid, hash, status, assignmentSaved, deploymentSaved, claimed, found, calls) =>
        var s1 := Noted(s, uid, hash, status, assignmentSaved, deploymentSaved);
        assert Past(s1);
        AutoRollbackKeepsPast(s1, uid, hash, claimed, found, calls);
      case Retried(uid, hash, claimed, found, calls) => AutoRollbackKeepsPast(s, uid, hash, claimed, found, calls);
    }
  }

  lemma {:induction false} RunKeepsPast(s: State, events: seq<Event>)
    requires Past(s)
    ensures Past(Run(s, events).0)
  {
    hide Step, Past;
    if events != [] {
      RunKeepsPast(s, events[..|events| - 1]);
      StepKeepsPast(Run(s, events[..|events| - 1]).0, events[|events| - 1]);
    }
  }

  /** In every reachable state each assignment was updated before now. */
  lemma ReachableIsPast(configs: map<string, Configuration>, events: seq<Event>)
    ensures Past(Run(State([], [], configs, 0), events).0)
  {
    RunKeepsPast(State([], [], configs, 0), events);
  }

  lemma {:induction false} DeliverKeepsPast(s: State, order: Order, calls: Calls)
    requires Past(s)
    ensures Past(Deliver(s, order, calls).0)
  {
    hide Updated, Latest, Newest, Upserted;
  }

  lemma {:induction false} AutoRollbackKeepsPast(s: State, uid: string, hash: string, claimed: bool, found: bool, calls: Calls)
    requires Past(s)
    ensures Past(AutoRollback(s, uid, hash, claimed, found, calls).0)
  {
    hide Deliver, Latest, Newest;
    var target := RollbackTarget(s, uid, hash);
    if target.Some? && claimed {
      var i := target.value;
      var previous := s.deployments[i].previousConfigID;
      if found && previous in s.configs {
        DeliverKeepsPast(s.(deployments := s.deployments[i := s.deployments[i].(claimed := true)]),
                         Order(uid, s.configs[previous], Rollback, "", ""), calls);
      }
    }
  }

  /** After a delivery the agent's newest assignment is the delivered one, sent, and its newest
      record is in flight. */
  lemma {:induction false} DeliveredIsLatest(s: State, order: Order, calls: Calls)
    requires Past(s) && Deliver(s, order, calls).1 == Delivered
    ensures var t := Deliver(s, order, calls).0;
      && Newest(t.assignments, order.uid) == Some(Assignment(order.uid, order.config.id, order.config.hash, Status.Sent, s.clock + 1))
      && Latest(t.deployments, order.uid, None) == Some(|s.deployments|)
      && InFlight(t.deployments[|s.deployments|].status)
  {
    hide Upserted;
    var t := Deliver(s, order, calls).0;
    var a := Assignment(order.uid, order.config.id, order.config.hash, Status.Sent, s.clock + 1);
    assert t.assignments == Upserted(s.assignments, a);
    var newest := Newest(t.assignments, order.uid);
    assert newest.value == a;
  }

  /** Right after a delivery any further delivery to that agent is refused and changes nothing. */
  lemma {:induction false} ImmediateUndoRefused(s: State, order: Order, calls: Calls, undo: Order, later: Calls)
    requires Past(s) && Deliver(s, order, calls).1 == Delivered && undo.uid == order.uid
    ensures var t := Deliver(s, order, calls).0;
      && Deliver(t, undo, later).0 == t
      && Deliver(t, undo, later).1 == if later.readAssignments && later.readDeployments then InProgress else StoreFailed
  {
    DeliveredIsLatest(s, order, calls);
  }

  /** Once the agent reports the delivered configuration applied, delivering it again (unless to
      reconcile drift) is a no-op. */
  lemma {:induction false} RedeliveryIsNoop(s: State, order: Order, calls: Calls, report: Event, again: Order, later: Calls)
    requires Past(s) && Deliver(s, order, calls).1 == Delivered
    requires report.Report? && report.uid == order.uid && report.hash == order.config.hash && report.status == Applied && report.assignmentSaved
    requires again.uid == order.uid && again.config.hash == order.config.hash && again.action != Reconcile && later.readAssignments
    ensures var t := Step(Deliver(s, order, calls).0, report).0;
      Deliver(t, again, later) == (t, AlreadyCurrent)
  {
    DeliveredIsLatest(s, order, calls);
    DeliverKeepsPast(s, order, calls);
    var u := Deliver(s, order, calls).0;
    hide Deliver;
    var a := Newest(u.assignments, order.uid).value;
    var found := NewestWithHash(u.assignments, order.uid, order.config.hash);
    var t := Step(u, report).0;
    assert t.assignments == Reported(u.assignments, order.uid, order.config.hash, Applied, u.clock);
    var reported := u.assignments[found.value].(status := Applied, updatedAt := u.clock);
    assert reported in t.assignments by {
      assert t.assignments[found.value] == reported;
    }
    forall b | b in t.assignments && b != reported ensures b in u.assignments {
    }
    var newest := Newest(t.assignments, order.uid);
    assert newest.value == reported;
    AlreadyApplied(t, again, later);
  }

  lemma AlreadyApplied(s: State, order: Order, calls: Calls)
    requires calls.readAssignments && IsCurrent(s, order)
    ensures Deliver(s, order, calls) == (s, AlreadyCurrent)
  {
  }

  /** A claim launches a rollback exactly when nothing is in flight for the agent and the previous
      configuration is not already applied; otherwise the claim is spent for nothing. */
  lemma {:induction false} ClaimLaunchesIff(s: State, uid: string, hash: string, calls: Calls)
    requires RollbackTarget(s, uid, hash).Some?
    requires calls.readAssignments && calls.readDeployments && calls.create
    requires s.deployments[RollbackTarget(s, uid, hash).value].previousConfigID in s.configs
    ensures var i := RollbackTarget(s, uid, hash).value;
      var (t, effect) := AutoRollback(s, uid, hash, true, true, calls);
      && effect.claimed == Some(i) && t.deployments[i].claimed
      && (effect.launched.Some? <==>
          !Busy(s, uid) && !IsCurrent(s, Order(uid, s.configs[s.deployments[i].previousConfigID], Rollback, "", "")))
  {
    var i := RollbackTarget(s, uid, hash).value;
    var s1 := s.(deployments := s.deployments[i := s.deployments[i].(claimed := true)]);
    var order := Order(uid, s.configs[s.deployments[i].previousConfigID], Rollback, "", "");
    DeliverAppends(s1, order, calls);
    ClaimKeepsBusy(s, i, uid);
  }

  lemma {:induction false} ClaimKeepsBusy(s: State, i: nat, uid: string)
    requires i < |s.deployments|
    ensures var s1 := s.(deployments := s.deployments[i := s.deployments[i].(claimed := true)]);
      Busy(s1, uid) <==> Busy(s, uid)
  {
    var s1 := s.(deployments := s.deployments[i := s.deployments[i].(claimed := true)]);
    var before, after := Latest(s.deployments, uid, None), Latest(s1.deployments, uid, None);
    if before.Some? {
      assert s1.deployments[before.value].uid == uid;
    }
    if after.Some? {
      assert s.deployments[after.value].uid == uid;
    }
  }
}
