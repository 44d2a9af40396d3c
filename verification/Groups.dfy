/** Ownership groups: exact-match selectors over a Collector's identity, the rule that keeps
    enabled selectors mutually exclusive, and the registry operations that must preserve it. */
module Groups {
  import opened Wrappers
  import opened Texts
  import GroupNames

  type Fields = map<string, string>

  datatype MatchType = Wildcard | Regex

  /** A dynamic membership rule; `accepts` is its compiled pattern. */
  datatype Rule = Rule(field: string, matchType: MatchType, pattern: string, accepts: string -> bool)

  datatype Group = Group(id: string, name: string, selector: Fields, rule: Option<Rule>, enabled: bool)

  datatype Agent = Agent(
    uid: string, name: string, displayName: string, hostname: string, attributes: Fields,
    reportedFields: Fields, groupFields: Fields, excludedGroups: seq<string>,
    reportedLabels: Fields, labels: Fields,
    connected: bool, retired: bool, acceptsRemoteConfig: bool)

  // ---------- Matching ----------

  /** Reading an absent key yields the empty text. */
  function Lookup(fields: Fields, key: string): string {
    if key in fields then fields[key] else ""
  }

  predicate Satisfies(identity: Fields, selector: Fields) {
    forall key | key in selector :: Lookup(identity, key) == selector[key]
  }

  /** Reported fields are the base; FleetAMP-managed fields override them. */
  function GroupIdentity(agent: Agent): Fields {
    agent.reportedFields + agent.groupFields
  }

  function EffectiveLabels(agent: Agent): Fields {
    agent.reportedLabels + agent.labels
  }

  predicate IsAttributeField(field: string) {
    |field| >= 10 && field[..10] == "attribute:"
  }

  function MembershipFieldValue(agent: Agent, field: string): string {
    if field == "stable_id" then Trim(Lookup(agent.attributes, "fleetamp.agent.id"))
    else if field == "name" then Trim(agent.name)
    else if field == "display_name" then Trim(agent.displayName)
    else if field == "host.name" then
      var value := Trim(Lookup(agent.attributes, "host.name"));
      if value != "" then value else Trim(agent.hostname)
    else if IsAttributeField(field) then Trim(Lookup(agent.attributes, field[10..]))
    else ""
  }

  predicate DynamicMatches(group: Group, agent: Agent) {
    && group.rule.Some?
    && |agent.groupFields| == 0
    && group.id !in agent.excludedGroups
    && MembershipFieldValue(agent, group.rule.value.field) != ""
    && group.rule.value.accepts(MembershipFieldValue(agent, group.rule.value.field))
  }

  predicate SelectorMatches(group: Group, agent: Agent) {
    |group.selector| > 0 && Satisfies(GroupIdentity(agent), group.selector)
  }

  predicate MatchesIdentity(group: Group, agent: Agent) {
    SelectorMatches(group, agent) || DynamicMatches(group, agent)
  }

  predicate Matches(group: Group, agent: Agent) {
    group.enabled && MatchesIdentity(group, agent)
  }

  // ---------- Mutual exclusion of selectors ----------

  predicate SelectorsOverlap(left: Fields, right: Fields) {
    |left| > 0 && |right| > 0 && forall key | key in left && key in right :: left[key] == right[key]
  }

  /** Two selectors overlap exactly when one identity could satisfy both. */
  lemma OverlapIffSharedIdentity(left: Fields, right: Fields)
    requires |left| > 0 && |right| > 0
    ensures SelectorsOverlap(left, right) <==> exists identity :: Satisfies(identity, left) && Satisfies(identity, right)
  {
    if SelectorsOverlap(left, right) {
      var both := left + right;
      assert Satisfies(both, left) && Satisfies(both, right);
    }
    if exists identity :: Satisfies(identity, left) && Satisfies(identity, right) {
      var identity :| Satisfies(identity, left) && Satisfies(identity, right);
      forall key | key in left && key in right ensures left[key] == right[key] {
        assert Lookup(identity, key) == left[key];
      }
    }
  }

  ghost predicate Exclusive(groups: map<string, Group>) {
    forall a, b :: a in groups && b in groups && a != b && groups[a].enabled && groups[b].enabled ==>
      !SelectorsOverlap(groups[a].selector, groups[b].selector)
  }

  /** With exclusive selectors, an identity satisfies at most one enabled group's selector. */
  lemma AtMostOneSelector(groups: map<string, Group>, agent: Agent, a: string, b: string)
    requires Exclusive(groups) && a in groups && b in groups
    requires groups[a].enabled && groups[b].enabled
    requires SelectorMatches(groups[a], agent) && SelectorMatches(groups[b], agent)
    ensures a == b
  {
    OverlapIffSharedIdentity(groups[a].selector, groups[b].selector);
  }

  /** A Collector whose managed fields are an enabled group's selector belongs to that group
      and to no other enabled group, whatever it reports and whatever rules exist. */
  lemma OverriddenBelongsToOne(groups: map<string, Group>, id: string, agent: Agent)
    requires Exclusive(groups) && id in groups && groups[id].enabled && |groups[id].selector| > 0
    requires agent.groupFields == groups[id].selector
    ensures forall other :: other in groups ==> (Matches(groups[other], agent) <==> other == id)
  {
    assert SelectorMatches(groups[id], agent);
    forall other | other in groups && Matches(groups[other], agent) ensures other == id {
      assert !DynamicMatches(groups[other], agent);
      AtMostOneSelector(groups, agent, id, other);
    }
  }

  // ---------- Dynamic rules and exclusion ----------

  predicate ReadableField(field: string) {
    field in ["stable_id", "name", "display_name", "host.name"] || IsAttributeField(field)
  }

  /** The rule accepts a value a field can have; surrounding blanks never belong to one. */
  ghost predicate Admits(rule: Option<Rule>, value: string) {
    rule.Some? && ReadableField(rule.value.field) && Trim(value) == value != "" && rule.value.accepts(value)
  }

  function Reporting(fields: Fields, field: string, value: string): Agent {
    var attribute := if field == "stable_id" then "fleetamp.agent.id" else if IsAttributeField(field) then field[10..] else field;
    Agent("collector", value, value, value, map[attribute := value], fields, map[], [], map[], map[], true, false, true)
  }

  lemma ReportingHasValue(fields: Fields, field: string, value: string)
    requires ReadableField(field) && Trim(value) == value
    ensures MembershipFieldValue(Reporting(fields, field, value), field) == value
  {
  }

  lemma RuleCapturesMember(g: Group, h: Group, value: string) returns (agent: Agent)
    requires g.enabled && h.enabled && |h.selector| > 0 && Admits(g.rule, value)
    ensures Matches(g, agent) && Matches(h, agent)
  {
    agent := Reporting(h.selector, g.rule.value.field, value);
    ReportingHasValue(h.selector, g.rule.value.field, value);
    assert GroupIdentity(agent) == h.selector;
  }

  lemma TrimmedValue(agent: Agent, field: string)
    ensures Trim(MembershipFieldValue(agent, field)) == MembershipFieldValue(agent, field)
    ensures MembershipFieldValue(agent, field) != "" ==> ReadableField(field)
  {
    forall text ensures Trim(Trim(text)) == Trim(text) { TrimTwice(text); }
    hide Trim;
  }

  lemma TwoGroupsNeedRule(g: Group, h: Group, agent: Agent)
    requires |g.selector| > 0 && |h.selector| > 0 && !SelectorsOverlap(g.selector, h.selector)
    requires Matches(g, agent) && Matches(h, agent)
    ensures exists value :: Admits(g.rule, value) || Admits(h.rule, value)
  {
    if SelectorMatches(g, agent) && SelectorMatches(h, agent) {
      OverlapIffSharedIdentity(g.selector, h.selector);
    } else {
      var dynamic := if DynamicMatches(g, agent) then g else h;
      TrimmedValue(agent, dynamic.rule.value.field);
      assert Admits(dynamic.rule, MembershipFieldValue(agent, dynamic.rule.value.field));
    }
  }

  /** Selector exclusion says nothing about dynamic rules: for two enabled groups with
      non-overlapping selectors, no Collector can belong to both exactly when neither has a
      rule that admits some value. */
  lemma DynamicRulesBreakExclusion(g: Group, h: Group)
    requires g.enabled && h.enabled && |g.selector| > 0 && |h.selector| > 0
    requires !SelectorsOverlap(g.selector, h.selector)
    ensures (exists agent :: Matches(g, agent) && Matches(h, agent))
       <==> (exists value :: Admits(g.rule, value) || Admits(h.rule, value))
  {
    if value :| Admits(g.rule, value) || Admits(h.rule, value) {
      if Admits(g.rule, value) {
        var agent := RuleCapturesMember(g, h, value);
      } else {
        var agent := RuleCapturesMember(h, g, value);
      }
    }
    if agent :| Matches(g, agent) && Matches(h, agent) {
      TwoGroupsNeedRule(g, h, agent);
    }
  }

  // ---------- Moving Collectors between groups ----------

  function Without(values: seq<string>, target: string): (rest: seq<string>)
    ensures forall v :: v in rest <==> v in values && v != target
  {
    if values == [] then []
    else (if values[0] != target then [values[0]] else []) + Without(values[1..], target)
  }

  function AppendUnique(values: seq<string>, value: string): seq<string> {
    if value in values then values else values + [value]
  }

  /** Joining a group replaces the whole managed identity and lifts an earlier exclusion. */
  function AssignedTo(agent: Agent, target: Group): (next: Agent)
    ensures next.uid == agent.uid && next.name == agent.name && next.displayName == agent.displayName
    ensures next.groupFields == target.selector && target.id !in next.excludedGroups
  {
    agent.(groupFields := target.selector, excludedGroups := Without(agent.excludedGroups, target.id))
  }

  /** Leaving a group clears the managed identity; a group with a rule is excluded from then on. */
  function RemovedFrom(agent: Agent, source: Group): (next: Agent)
    ensures next.uid == agent.uid && next.name == agent.name && next.displayName == agent.displayName
    ensures next.groupFields == map[] && (source.rule.Some? ==> source.id in next.excludedGroups)
  {
    agent.(groupFields := map[],
           excludedGroups := if source.rule.Some? then AppendUnique(agent.excludedGroups, source.id) else agent.excludedGroups)
  }

  /** Removal ends membership exactly when the fields the Collector itself reports do not
      satisfy the source selector: managed fields are cleared, reported ones still count. */
  lemma RemovedLeavesUnlessReported(agent: Agent, source: Group)
    ensures MatchesIdentity(source, RemovedFrom(agent, source)) <==>
            |source.selector| > 0 && Satisfies(agent.reportedFields, source.selector)
  {
    assert GroupIdentity(RemovedFrom(agent, source)) == agent.reportedFields;
  }

  /** A Collector that reports the group's own selector is still a member after removal. */
  lemma RemovedMayStay()
    ensures exists agent: Agent, source: Group ::
      SelectorMatches(source, agent) && agent.groupFields == source.selector && MatchesIdentity(source, RemovedFrom(agent, source))
  {
    var source := Group("payments", "Payments", map["team" := "payments"], None, true);
    var agent := Reporting(source.selector, "name", "collector").(groupFields := source.selector);
    assert SelectorMatches(source, agent);
    RemovedLeavesUnlessReported(agent, source);
  }

  // ---------- The registry ----------

  const MAX_SELECTOR_CONDITIONS := 12

  predicate KeyChar(c: char) {
    'a' <= c <= 'z' || 'A' <= c <= 'Z' || '0' <= c <= '9' || c in "._-/"
  }

  predicate ValidKey(key: string) {
    0 < |key| <= 128 && forall i | 0 <= i < |key| :: KeyChar(key[i])
  }

  predicate ValidSelector(selector: Fields) {
    0 < |selector| <= MAX_SELECTOR_CONDITIONS && forall key | key in selector :: ValidKey(key) && Trim(selector[key]) != ""
  }

  /** A rule as a caller asks for it; an unknown match type is no match type. */
  datatype RuleRequest = RuleRequest(field: string, matchType: Option<MatchType>, pattern: string)

  /** What a pattern accepts, unless it is malformed. */
  type Compiler = (MatchType, string) -> Option<string -> bool>

  const PATTERN_LIMIT := 512

  predicate ValidMembershipField(field: string) {
    field in ["stable_id", "name", "display_name", "host.name"] || (IsAttributeField(field) && ValidKey(field[10..]))
  }

  /** The rule to store, if it is valid; no rule is valid. */
  function CheckedRule(request: Option<RuleRequest>, compile: Compiler): (rule: Option<Option<Rule>>)
    ensures rule.Some? ==> (rule.value.Some? <==> request.Some?)
    ensures rule.Some? && rule.value.Some? ==>
      var (field, pattern) := (Trim(request.value.field), Trim(request.value.pattern));
      && rule.value.value.field == field && ReadableField(field)
      && rule.value.value.pattern == pattern && pattern != ""
      && compile(rule.value.value.matchType, pattern) == Some(rule.value.value.accepts)
  {
    if request.None? then Some(None)
    else
      var field, pattern := Trim(request.value.field), Trim(request.value.pattern);
      if field == "" || pattern == "" || !ValidMembershipField(field) || request.value.matchType.None? then None
      else
        var matchType := request.value.matchType.value;
        if matchType == Regex && |pattern| > PATTERN_LIMIT then None
        else
          match compile(matchType, pattern)
          case None => None
          case Some(accepts) => Some(Some(Rule(field, matchType, pattern, accepts)))
  }

  /** A rule conflicts when another enabled group has the same rule, or when it would capture a
      current Collector that already matches another enabled group. */
  predicate RuleConflicts(candidate: Group, groups: map<string, Group>, agents: seq<Agent>) {
    candidate.rule.Some? &&
    exists id | id in groups && id != candidate.id && groups[id].enabled ::
      || (groups[id].rule.Some? && SameRule(groups[id].rule.value, candidate.rule.value))
      || exists i | 0 <= i < |agents| :: DynamicMatches(candidate, agents[i]) && MatchesIdentity(groups[id], agents[i])
  }

  predicate SameRule(left: Rule, right: Rule) {
    left.field == right.field && left.matchType == right.matchType && left.pattern == right.pattern
  }

  ghost predicate FreeOfOverlap(candidate: Group, groups: map<string, Group>) {
    candidate.enabled ==>
      forall id :: id in groups && groups[id].enabled && id != candidate.id ==>
        !SelectorsOverlap(candidate.selector, groups[id].selector)
  }

  /** A candidate free of overlap may replace the group with its id. */
  lemma CandidateKeepsExclusive(groups: map<string, Group>, candidate: Group)
    requires Exclusive(groups) && FreeOfOverlap(candidate, groups)
    requires forall id | id in groups :: groups[id].id == id
    ensures Exclusive(groups[candidate.id := candidate])
  {
    var next := groups[candidate.id := candidate];
    forall a, b | a in next && b in next && a != b && next[a].enabled && next[b].enabled
      ensures !SelectorsOverlap(next[a].selector, next[b].selector)
    {
      OverlapSymmetric(next[a].selector, next[b].selector);
    }
  }

  lemma OverlapSymmetric(left: Fields, right: Fields)
    ensures SelectorsOverlap(left, right) <==> SelectorsOverlap(right, left)
  {
  }

  datatype Verdict =
    | Done
    | InvalidSelector
    | InvalidRule
    | InvalidName
    | Overlaps(id: string)
    | RuleConflict
    | NotFound
    | Exists
    | HasMembers
    | HasHistory

  class Registry {
    var groups: map<string, Group>

    ghost predicate Valid()
      reads this
    {
      && Exclusive(groups)
      && forall id :: id in groups ==> id != "" && groups[id].id == id && |groups[id].selector| > 0
    }

    constructor ()
      ensures Valid() && groups == map[]
    {
      groups := map[];
    }

    /** Scans the listed groups for an enabled one, other than the excluded one, that overlaps. */
    method ValidateOverlap(candidate: Group, excluded: string) returns (conflict: Option<string>)
      ensures conflict == None <==>
        (candidate.enabled ==> forall id :: id in groups && groups[id].enabled && id != excluded ==>
          !SelectorsOverlap(candidate.selector, groups[id].selector))
      ensures conflict.Some? ==>
        && conflict.value in groups && groups[conflict.value].enabled && conflict.value != excluded
        && SelectorsOverlap(candidate.selector, groups[conflict.value].selector)
    {
      if !candidate.enabled {
        return None;
      }
      var remaining := groups.Keys;
      while remaining != {}
        invariant remaining <= groups.Keys
        invariant forall id :: id in groups && id !in remaining && groups[id].enabled && id != excluded ==>
          !SelectorsOverlap(candidate.selector, groups[id].selector)
        decreases |remaining|
      {
        var id :| id in remaining;
        remaining := remaining - {id};
        if groups[id].enabled && id != excluded && SelectorsOverlap(candidate.selector, groups[id].selector) {
          return Some(id);
        }
      }
      conflict := None;
    }

    /** A new group starts enabled, under the identifier its name gives; its overlap scan excludes no
        group. */
    method Create(requested: string, selector: Fields, rule: Option<RuleRequest>, compile: Compiler, agents: seq<Agent>)
      returns (verdict: Verdict)
      requires Valid()
      modifies this
      ensures Valid()
      ensures var name, checked := GroupNames.GivenName(requested, selector), CheckedRule(rule, compile);
        var candidate := Group(GroupNames.IDOf(name), name, selector, if checked.Some? then checked.value else None, true);
        && (verdict.Done? <==>
            && ValidSelector(selector) && checked.Some? && GroupNames.ValidName(name) && candidate.id !in old(groups)
            && FreeOfOverlap(candidate, old(groups)) && !RuleConflicts(candidate, old(groups), agents))
        && groups == if verdict.Done? then old(groups)[candidate.id := candidate] else old(groups)
    {
      hide RuleConflicts, ValidKey, SelectorsOverlap, Exclusive, CheckedRule, Trim, DynamicMatches;
      if !ValidSelector(selector) {
        return InvalidSelector;
      }
      var checked := CheckedRule(rule, compile);
      if checked.None? {
        return InvalidRule;
      }
      var name := Trim(requested);
      if name == "" {
        name := GroupNames.CanonicalGroupName(selector);
      }
      if !GroupNames.ValidName(name) {
        return InvalidName;
      }
      var id := GroupNames.GroupIDFromName(name);
      assert id != "" by { GroupNames.IDSound(name); }
      var candidate := Group(id, name, selector, checked.value, true);
      var conflict := ValidateOverlap(candidate, "");
      if conflict.Some? {
        return Overlaps(conflict.value);
      }
      if RuleConflicts(candidate, groups, agents) {
        return RuleConflict;
      }
      if id in groups {
        return Exists;
      }
      CandidateKeepsExclusive(groups, candidate);
      groups := groups[id := candidate];
      verdict := Done;
    }

    /** What a group becomes. The API (agents are passed) keeps the name when none is given and replaces
        the rule; the form leaves the rule alone. */
    function Changed(was: Group, requested: string, selector: Fields, rule: Option<Option<RuleRequest>>, compile: Compiler,
                     enabled: Option<bool>, api: bool): Group
    {
      was.(name := if Trim(requested) == "" && api then was.name else Trim(requested),
           selector := selector,
           rule := if rule.Some? && CheckedRule(rule.value, compile).Some? then CheckedRule(rule.value, compile).value else was.rule,
           enabled := if enabled.Some? then enabled.value else was.enabled)
    }

    /** The API replaces selector and rule and may switch the group; the form leaves rule and
        switch alone and does not look at rules (no agents are passed). */
    method Update(id: string, requested: string, selector: Fields, rule: Option<Option<RuleRequest>>, compile: Compiler,
                  enabled: Option<bool>, agents: Option<seq<Agent>>) returns (verdict: Verdict)
      requires Valid()
      modifies this
      ensures Valid()
      ensures verdict.NotFound? <==> id !in old(groups)
      ensures id in old(groups) ==>
        var candidate := Changed(old(groups)[id], requested, selector, rule, compile, enabled, agents.Some?);
        && (verdict.Done? <==>
            && ValidSelector(selector) && GroupNames.ValidName(candidate.name) && (rule.Some? ==> CheckedRule(rule.value, compile).Some?)
            && FreeOfOverlap(candidate, old(groups))
            && (agents.Some? ==> !RuleConflicts(candidate, old(groups), agents.value)))
        && groups == if verdict.Done? then old(groups)[id := candidate] else old(groups)
      ensures id !in old(groups) ==> groups == old(groups)
    {
      hide RuleConflicts, ValidKey, SelectorsOverlap, Exclusive, CheckedRule, Trim;
      if id !in groups {
        return NotFound;
      }
      if !ValidSelector(selector) {
        return InvalidSelector;
      }
      var name := Trim(requested);
      if name == "" && agents.Some? {
        name := groups[id].name;
      }
      if !GroupNames.ValidName(name) {
        return InvalidName;
      }
      var group := groups[id].(name := name, selector := selector);
      if rule.Some? {
        var checked := CheckedRule(rule.value, compile);
        if checked.None? {
          return InvalidRule;
        }
        group := group.(rule := checked.value);
      }
      if enabled.Some? {
        group := group.(enabled := enabled.value);
      }
      var conflict := ValidateOverlap(group, group.id);
      if conflict.Some? {
        return Overlaps(conflict.value);
      }
      if agents.Some? && RuleConflicts(group, groups, agents.value) {
        return RuleConflict;
      }
      CandidateKeepsExclusive(groups, group);
      groups := groups[id := group];
      verdict := Done;
    }

    /** Enabling re-validates exclusion; disabling always succeeds. */
    method SetEnabled(id: string, enabled: bool) returns (verdict: Verdict)
      requires Valid()
      modifies this
      ensures Valid()
      ensures id !in old(groups) ==> verdict.NotFound? && groups == old(groups)
      ensures id in old(groups) ==>
        var candidate := old(groups)[id].(enabled := enabled);
        && (verdict.Done? <==> FreeOfOverlap(candidate, old(groups)))
        && groups == if verdict.Done? then old(groups)[id := candidate] else old(groups)
    {
      if id !in groups {
        return NotFound;
      }
      var group := groups[id].(enabled := enabled);
      var conflict := ValidateOverlap(group, group.id);
      if conflict.Some? {
        return Overlaps(conflict.value);
      }
      groups := groups[id := group];
      verdict := Done;
    }

    /** A group is deleted only while no Collector is identified with it. The form also looks whether
        the group has deployment requests, which are to be preserved; the API does not (nothing is
        passed). */
    method Delete(id: string, agents: seq<Agent>, requested: Option<bool>) returns (verdict: Verdict)
      requires Valid()
      modifies this
      ensures Valid()
      ensures id !in old(groups) ==> verdict.NotFound? && groups == old(groups)
      ensures id in old(groups) ==>
        && (verdict.Done? <==> requested != Some(true) && forall i :: 0 <= i < |agents| ==> !MatchesIdentity(old(groups)[id], agents[i]))
        && (verdict.HasHistory? ==> requested == Some(true))
        && groups == if verdict.Done? then old(groups) - {id} else old(groups)
    {
      if id !in groups {
        return NotFound;
      }
      if exists i | 0 <= i < |agents| :: MatchesIdentity(groups[id], agents[i]) {
        return HasMembers;
      }
      if requested == Some(true) {
        return HasHistory;
      }
      groups := groups - {id};
      verdict := Done;
    }
  }
}
