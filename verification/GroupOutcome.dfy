/** What the group operations look at and give, said by the fields, characters and limits themselves. */
module GroupOutcome {
  import opened Wrappers
  import opened Names
  import opened Texts
  import opened Groups
  import opened GroupNames
  import Fleet
  import TextOrder

  // ---------- Matching ----------

  /** The agent shows this value under the key: FleetAMP's own fields come first, then the reported ones. */
  predicate Shows(agent: Agent, key: string, value: string) {
    if key in agent.groupFields then agent.groupFields[key] == value
    else if key in agent.reportedFields then agent.reportedFields[key] == value
    else value == ""
  }

  lemma SelectedExactly(group: Group, agent: Agent)
    ensures SelectorMatches(group, agent) <==> group.selector != map[] && forall key :: key in group.selector ==> Shows(agent, key, group.selector[key])
  {
    assert group.selector != map[] <==> |group.selector| > 0;
    forall key | key in group.selector ensures Lookup(GroupIdentity(agent), key) == group.selector[key] <==> Shows(agent, key, group.selector[key]) { }
  }

  /** What a rule reads for each field it may name. */
  lemma FieldValueExactly(agent: Agent, key: string)
    ensures MembershipFieldValue(agent, "name") == Trim(agent.name)
    ensures MembershipFieldValue(agent, "display_name") == Trim(agent.displayName)
    ensures MembershipFieldValue(agent, "stable_id") ==
            if "fleetamp.agent.id" in agent.attributes then Trim(agent.attributes["fleetamp.agent.id"]) else ""
    ensures MembershipFieldValue(agent, "attribute:" + key) == if key in agent.attributes then Trim(agent.attributes[key]) else ""
    ensures "host.name" in agent.attributes && Trim(agent.attributes["host.name"]) != "" ==>
              MembershipFieldValue(agent, "host.name") == Trim(agent.attributes["host.name"])
    ensures "host.name" !in agent.attributes || Trim(agent.attributes["host.name"]) == "" ==>
              MembershipFieldValue(agent, "host.name") == Trim(agent.hostname)
  {
    assert Trim("") == "";
    hide Trim;
    var field := "attribute:" + key;
    assert field[9] == ':' && field[..10] == "attribute:" && field[10..] == key;
    assert |"stable_id"| == 9 && "name"[0] == 'n' && "display_name"[0] == 'd' && "host.name"[0] == 'h' && field[0] == 'a';
  }

  /** A rule takes in exactly the Collectors that have no fields of FleetAMP's own, were not excluded
      from the group, and show a value the pattern accepts. */
  lemma CapturedExactly(group: Group, agent: Agent)
    ensures DynamicMatches(group, agent) <==> exists rule, value ::
              && group.rule == Some(rule) && agent.groupFields == map[] && group.id !in agent.excludedGroups
              && value == MembershipFieldValue(agent, rule.field) && value != "" && rule.accepts(value)
  {
  }

  /** A candidate whose rule was found to have no conflict shares a listed Collector with another
      enabled group exactly when its selector matches the Collector and the other group's rule takes it
      in: that the check does not look at. */
  lemma SharedDespiteCheck(groups: map<string, Group>, candidate: Group, agents: seq<Agent>, id: string, i: nat)
    requires candidate.enabled && FreeOfOverlap(candidate, groups) && !RuleConflicts(candidate, groups, agents)
    requires id in groups && groups[id].enabled && id != candidate.id && i < |agents|
    ensures Matches(candidate, agents[i]) && Matches(groups[id], agents[i]) <==>
            SelectorMatches(candidate, agents[i]) && DynamicMatches(groups[id], agents[i])
  {
    if SelectorMatches(candidate, agents[i]) && SelectorMatches(groups[id], agents[i]) {
      OverlapIffSharedIdentity(candidate.selector, groups[id].selector);
    }
  }

  /** A rule is refused for no other reason than an enabled group with the same field, kind and pattern,
      or a listed Collector that would be in two enabled groups. */
  lemma RefusedForReason(groups: map<string, Group>, candidate: Group, agents: seq<Agent>) returns (id: string)
    requires candidate.enabled && RuleConflicts(candidate, groups, agents)
    ensures id in groups && groups[id].enabled && id != candidate.id && candidate.rule.Some?
    ensures || (groups[id].rule.Some? && var a, b := groups[id].rule.value, candidate.rule.value;
                  a.field == b.field && a.matchType == b.matchType && a.pattern == b.pattern)
            || exists i :: 0 <= i < |agents| && Matches(candidate, agents[i]) && Matches(groups[id], agents[i])
  {
    id :| id in groups && id != candidate.id && groups[id].enabled &&
      (|| (groups[id].rule.Some? && SameRule(groups[id].rule.value, candidate.rule.value))
       || exists i :: 0 <= i < |agents| && DynamicMatches(candidate, agents[i]) && MatchesIdentity(groups[id], agents[i]));
    if i :| 0 <= i < |agents| && DynamicMatches(candidate, agents[i]) && MatchesIdentity(groups[id], agents[i]) {
      assert Matches(candidate, agents[i]) && Matches(groups[id], agents[i]);
    }
  }

  /** The same rule is refused while an enabled group has it. */
  lemma SameRuleRefused(groups: map<string, Group>, candidate: Group, agents: seq<Agent>, id: string)
    requires id in groups && id != candidate.id && groups[id].enabled && candidate.rule.Some? && groups[id].rule == candidate.rule
    ensures RuleConflicts(candidate, groups, agents)
  {
  }

  // ---------- What may be asked for ----------

  predicate PlainKey(key: string) {
    0 < |key| <= 128 && forall c | c in key :: 'a' <= c <= 'z' || 'A' <= c <= 'Z' || '0' <= c <= '9' || c == '.' || c == '_' || c == '-' || c == '/'
  }

  lemma KeyExactly(key: string)
    ensures ValidKey(key) <==> PlainKey(key)
  {
    forall c ensures KeyChar(c) <==> 'a' <= c <= 'z' || 'A' <= c <= 'Z' || '0' <= c <= '9' || c == '.' || c == '_' || c == '-' || c == '/' { }
    hide KeyChar;
    if ValidKey(key) {
      forall c | c in key ensures KeyChar(c) { var i :| 0 <= i < |key| && key[i] == c; }
    }
    if PlainKey(key) {
      forall i | 0 <= i < |key| ensures KeyChar(key[i]) { assert key[i] in key; }
    }
  }

  lemma SelectorExactly(selector: Fields)
    ensures ValidSelector(selector) <==>
      1 <= |selector| <= 12 && forall key :: key in selector ==> PlainKey(key) && exists c :: c in selector[key] && !Blank(c)
  {
    forall key | key in selector ensures ValidKey(key) <==> PlainKey(key) { KeyExactly(key); }
    forall key | key in selector ensures Trim(selector[key]) != "" <==> exists c :: c in selector[key] && !Blank(c) { TrimmedAway(selector[key]); }
    hide ValidKey, PlainKey, Trim, Blank;
  }

  lemma TrimmedAway(text: string)
    ensures Trim(text) != "" <==> exists c :: c in text && !Blank(c)
  {
    var front, back := TrimExactly(text);
    hide Trim, Blank;
    if Trim(text) != "" {
      assert Trim(text)[0] in text;
    }
    if c :| c in text && !Blank(c) {
      var i :| 0 <= i < |text| && text[i] == c;
      assert text == front + Trim(text) + back;
      if Trim(text) == "" { assert text[i] == if i < |front| then front[i] else back[i - |front|]; }
    }
  }

  /** The field is one a rule may read. */
  ghost predicate RuleField(field: string) {
    || field == "stable_id" || field == "name" || field == "display_name" || field == "host.name"
    || exists key :: PlainKey(key) && field == "attribute:" + key
  }

  lemma RuleFieldExactly(field: string)
    ensures ValidMembershipField(field) <==> RuleField(field)
  {
    if IsAttributeField(field) {
      KeyExactly(field[10..]);
      assert field == "attribute:" + field[10..];
    }
    if key :| PlainKey(key) && field == "attribute:" + key {
      KeyExactly(key);
      assert field[..10] == "attribute:" && field[10..] == key;
    }
    hide ValidKey, PlainKey;
  }

  /** A rule is accepted exactly when its field may be read, its pattern is there and compiles as the kind
      asked for, and an expression has at most 512 characters; the stored rule is the one asked for, without
      surrounding blanks. */
  lemma RuleExactly(request: RuleRequest, compile: Compiler, rule: Rule)
    ensures CheckedRule(None, compile) == Some(None)
    ensures CheckedRule(Some(request), compile) == Some(Some(rule)) <==>
      && rule.field == Trim(request.field) && rule.pattern == Trim(request.pattern)
      && RuleField(rule.field) && rule.pattern != ""
      && request.matchType == Some(rule.matchType)
      && (rule.matchType == Regex ==> |rule.pattern| <= 512)
      && compile(rule.matchType, rule.pattern) == Some(rule.accepts)
  {
    RuleFieldExactly(Trim(request.field));
    hide ValidMembershipField, RuleField, Trim;
    if Trim(request.field) == "" { NoEmptyField(); }
  }

  lemma NoEmptyField()
    ensures !RuleField("")
  {
    assert forall key: string :: |"attribute:" + key| >= 10;
  }

  /** A name counts without its surrounding blanks; 1 to 120 characters are a name. */
  lemma NameExactly(name: string)
    ensures ValidName(name) <==> 1 <= |Trim(name)| <= 120
  {
  }

  // ---------- Identifiers ----------

  predicate Word(text: string) {
    forall c | c in text :: 'a' <= c <= 'z' || 'A' <= c <= 'Z' || '0' <= c <= '9'
  }

  /** No letter and no digit. */
  predicate Gap(text: string) {
    forall c | c in text :: !('a' <= c <= 'z' || 'A' <= c <= 'Z' || '0' <= c <= '9')
  }

  /** A word goes into a slug whole, in lower case. */
  lemma {:induction false} SlugWord(text: string, word: string)
    requires Word(word)
    ensures Slug(text + word) == Slug(text) + Fold(word)
  {
    if word == "" {
      assert text + word == text && Slug(text) + Fold(word) == Slug(text);
    } else {
      var before, last := word[..|word| - 1], word[|word| - 1];
      assert last in word && forall c :: c in before ==> c in word;
      SlugWord(text, before);
      assert (text + word)[..|text + word| - 1] == text + before;
      assert Fold(word) == Fold(before) + [FoldChar(last)];
      assert Slug(text + word) == Slug(text + before) + [FoldChar(last)];
    }
  }

  /** Whatever stands between two words becomes one dash; in front of the first word it leaves nothing. */
  lemma {:induction false} SlugGap(text: string, gap: string)
    requires Gap(gap) && gap != ""
    ensures Slug(text + gap) == Slug(text) + if Slug(text) == "" || Slug(text)[|Slug(text)| - 1] == '-' then "" else "-"
  {
    var before, last := gap[..|gap| - 1], gap[|gap| - 1];
    assert last in gap && forall c :: c in before ==> c in gap;
    assert (text + gap)[..|text + gap| - 1] == text + before;
    if before == "" { assert text + before == text; } else { SlugGap(text, before); }
  }

  /** A name without letters and digits gives "group"; any other the longest part of its slug that has at
      most 80 characters and does not end in a dash. */
  lemma IDExactly(name: string)
    ensures var slug, id := Slug(Trim(name)), IDOf(name);
      if slug == "" then id == "group"
      else
        && id <= slug && 1 <= |id| <= 80 && id[|id| - 1] != '-'
        && forall i :: |id| <= i < |slug| && i < 80 ==> slug[i] == '-'
  {
    var slug := Slug(Trim(name));
    SlugSound(Trim(name));
    IDSound(name);
    hide Trim, Slug;
    if slug != "" {
      var id := TrimDashes(slug);
      CutExactly(slug);
      assert id != "";
      if |id| > 80 {
        TrimDashesSound(slug);
        assert id[..80] == slug[..80];
        CutSluglike(slug, 80);
        CutExactly(id[..80]);
      }
    }
  }

  lemma CutSluglike(slug: string, length: nat)
    requires Sluglike(slug) && length <= |slug|
    ensures Sluglike(slug[..length])
  {
  }

  lemma CutExactly(slug: string)
    requires Sluglike(slug)
    ensures TrimDashes(slug) <= slug && |TrimDashes(slug)| >= |slug| - 1
    ensures |TrimDashes(slug)| < |slug| ==> slug[|slug| - 1] == '-'
    ensures slug != "" ==> TrimDashes(slug) != ""
  {
    if slug != "" && slug[|slug| - 1] == '-' {
      var before := slug[..|slug| - 1];
      assert before != "" ==> before[|before| - 1] == slug[|slug| - 2];
      assert TrimDashesRight(before) == before;
    }
  }

  // ---------- Names derived from a selector ----------

  /** The slug of a value, without a dash at its end. */
  function ValueSlug(value: string): string {
    TrimDashes(Slug(Trim(value)))
  }

  lemma NameOfOne(key: string, value: string)
    ensures CanonicalName(map[key := value]) == ValueSlug(value)
  {
    var selector := map[key := value];
    assert Lists([key], selector.Keys);
    ListsOnce([key], SortedKeys(selector.Keys), selector.Keys);
    hide TrimDashes, Slug, Trim, Lists;
    assert Parts(selector, []) == [];
    assert [key][..0] == [];
    assert Parts(selector, [key]) == [ValueSlug(value)];
  }

  /** Two values stand in the byte order of their keys. */
  lemma NameOfTwo(key: string, value: string, second: string, other: string)
    requires key != second && TextOrder.AtMost(key, second)
    ensures CanonicalName(map[key := value, second := other]) == ValueSlug(value) + "-" + ValueSlug(other)
  {
    var selector := map[key := value, second := other];
    assert Lists([key, second], selector.Keys);
    ListsOnce([key, second], SortedKeys(selector.Keys), selector.Keys);
    hide TrimDashes, Slug, Trim, Lists, TextOrder.AtMost;
    assert Parts(selector, []) == [];
    assert [key][..0] == [] && [key, second][..1] == [key];
    assert Parts(selector, [key]) == [ValueSlug(value)];
    var parts := Parts(selector, [key, second]);
    assert parts == [ValueSlug(value), ValueSlug(other)];
    assert parts[..1] == [ValueSlug(value)];
    assert Joined(parts[..1]) == ValueSlug(value);
    assert Joined(parts) == Joined(parts[..1]) + "-" + parts[1];
  }

  // ---------- The inventory ----------

  /** A write leaves out neither an old display name that the new record lacks nor any other new field;
      a Collector with a display name goes by it. */
  lemma MergedExactly(previous: Option<Agent>, agent: Agent)
    ensures var merged := Fleet.Merged(previous, agent);
      && (agent.displayName != "" ==> merged == agent.(name := agent.displayName))
      && (agent.displayName == "" && previous.None? ==> merged == agent)
      && (agent.displayName == "" && previous.Some? && previous.value.displayName == "" ==> merged == agent)
      && (agent.displayName == "" && previous.Some? && previous.value.displayName != "" ==>
            merged == agent.(name := previous.value.displayName, displayName := previous.value.displayName))
  {
  }
}
