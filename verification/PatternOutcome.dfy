/** What matching and adopting patterns comes to, said by paths into the trees and by counting alone. */
module PatternOutcome {
  import opened Wrappers
  import opened TextOrder
  import opened CollectorTree
  import opened PatternMatch
  import opened PatternRanking
  import N = Names
  import A = Adoption
  import S = StandardOutcome

  // ---------- Paths into a tree ----------

  /** From a mapping to the value of a key, or from a list to one of its items. */
  datatype Step = Into(key: string) | Item

  /** The steps lead from the tree to this one. */
  ghost predicate Leads(tree: Tree, steps: seq<Step>, sub: Tree)
    decreases |steps|
  {
    if steps == [] then sub == tree
    else
      match steps[0]
      case Into(key) =>
        tree.Mapping? && exists i :: 0 <= i < |tree.entries| && tree.entries[i].key == key && Leads(tree.entries[i].value, steps[1..], sub)
      case Item =>
        tree.Sequence? && exists i :: 0 <= i < |tree.items| && Leads(tree.items[i], steps[1..], sub)
  }

  /** The path as it is written: keys joined by dots, list items as brackets. */
  function Written(prefix: string, steps: seq<Step>): string
    decreases |steps|
  {
    if steps == [] then prefix
    else
      match steps[0]
      case Into(key) => Written(if prefix == "" then key else prefix + "." + key, steps[1..])
      case Item => Written(prefix + "[]", steps[1..])
  }

  /** What a tree at this path says itself: that it is there, and the value of a leaf. */
  ghost predicate Says(path: string, sub: Tree, feature: string) {
    match sub
    case Scalar(tag, text) => if tag == "!!null" then path != "" && feature == path + "=null" else feature == path + "=" + text
    case Mapping(entries) => path != "" && (feature == path || (entries == [] && feature == path + "={}"))
    case Sequence(_) => path != "" && feature == path
  }

  lemma {:induction false} EntryFeaturesAre(prefix: string, tree: Tree, count: nat, feature: string)
    requires tree.Mapping? && count <= |tree.entries|
    ensures feature in EntryFeatures(prefix, tree, count) <==>
      exists i :: 0 <= i < count && feature in Features(Path(prefix, tree.entries[i].key), tree.entries[i].value)
  {
    if count > 0 { EntryFeaturesAre(prefix, tree, count - 1, feature); }
    hide Features, Path;
  }

  lemma {:induction false} ItemFeaturesAre(prefix: string, tree: Tree, count: nat, feature: string)
    requires tree.Sequence? && count <= |tree.items|
    ensures feature in ItemFeatures(prefix, tree, count) <==>
      exists i :: 0 <= i < count && feature in Features(prefix + "[]", tree.items[i])
  {
    if count > 0 { ItemFeaturesAre(prefix, tree, count - 1, feature); }
    hide Features;
  }

  /** A feature that some steps lead to. */
  ghost predicate Said(prefix: string, tree: Tree, feature: string) {
    exists steps, sub :: Leads(tree, steps, sub) && Says(Written(prefix, steps), sub, feature)
  }

  lemma SaidAt(prefix: string, tree: Tree, steps: seq<Step>, sub: Tree, feature: string)
    requires Leads(tree, steps, sub) && Says(Written(prefix, steps), sub, feature)
    ensures Said(prefix, tree, feature)
  {
  }

  lemma SaidByEntry(prefix: string, tree: Tree, i: nat, feature: string)
    requires tree.Mapping? && i < |tree.entries| && Said(Path(prefix, tree.entries[i].key), tree.entries[i].value, feature)
    ensures Said(prefix, tree, feature)
  {
    var steps, sub :| Leads(tree.entries[i].value, steps, sub) && Says(Written(Path(prefix, tree.entries[i].key), steps), sub, feature);
    var all := [Into(tree.entries[i].key)] + steps;
    assert all[1..] == steps;
    SaidAt(prefix, tree, all, sub, feature);
  }

  lemma SaidByItem(prefix: string, tree: Tree, i: nat, feature: string)
    requires tree.Sequence? && i < |tree.items| && Said(prefix + "[]", tree.items[i], feature)
    ensures Said(prefix, tree, feature)
  {
    var steps, sub :| Leads(tree.items[i], steps, sub) && Says(Written(prefix + "[]", steps), sub, feature);
    var all := [Item] + steps;
    assert all[1..] == steps;
    SaidAt(prefix, tree, all, sub, feature);
  }

  /** What is said below is said by the tree itself, by an entry or by an item. */
  lemma SaidWhere(prefix: string, tree: Tree, feature: string)
    requires Said(prefix, tree, feature)
    ensures Says(prefix, tree, feature)
         || (tree.Mapping? && exists i :: 0 <= i < |tree.entries| && Said(Path(prefix, tree.entries[i].key), tree.entries[i].value, feature))
         || (tree.Sequence? && exists i :: 0 <= i < |tree.items| && Said(prefix + "[]", tree.items[i], feature))
  {
    var steps, sub :| Leads(tree, steps, sub) && Says(Written(prefix, steps), sub, feature);
    if steps != [] {
      match steps[0] {
        case Into(key) =>
          var i :| 0 <= i < |tree.entries| && tree.entries[i].key == key && Leads(tree.entries[i].value, steps[1..], sub);
          SaidAt(Path(prefix, key), tree.entries[i].value, steps[1..], sub, feature);
        case Item =>
          var i :| 0 <= i < |tree.items| && Leads(tree.items[i], steps[1..], sub);
          SaidAt(prefix + "[]", tree.items[i], steps[1..], sub, feature);
      }
    }
  }

  lemma SaidHere(prefix: string, tree: Tree, feature: string)
    requires Says(prefix, tree, feature)
    ensures Said(prefix, tree, feature)
  {
    SaidAt(prefix, tree, [], tree, feature);
  }

  /** The features of a tree are exactly what some path into it says. */
  lemma {:induction false} FeaturesExactly(prefix: string, tree: Tree, feature: string)
    ensures feature in Features(prefix, tree) <==> Said(prefix, tree, feature)
    decreases tree
  {
    hide Said, EntryFeatures, ItemFeatures, Path;
    if Says(prefix, tree, feature) { SaidHere(prefix, tree, feature); }
    if tree.Mapping? {
      EntryFeaturesAre(prefix, tree, |tree.entries|, feature);
      forall i | 0 <= i < |tree.entries|
        ensures feature in Features(Path(prefix, tree.entries[i].key), tree.entries[i].value)
           <==> Said(Path(prefix, tree.entries[i].key), tree.entries[i].value, feature)
        ensures Said(Path(prefix, tree.entries[i].key), tree.entries[i].value, feature) ==> Said(prefix, tree, feature)
      {
        FeaturesExactly(Path(prefix, tree.entries[i].key), tree.entries[i].value, feature);
        if Said(Path(prefix, tree.entries[i].key), tree.entries[i].value, feature) { SaidByEntry(prefix, tree, i, feature); }
      }
    } else if tree.Sequence? {
      ItemFeaturesAre(prefix, tree, |tree.items|, feature);
      forall i | 0 <= i < |tree.items|
        ensures feature in Features(prefix + "[]", tree.items[i]) <==> Said(prefix + "[]", tree.items[i], feature)
        ensures Said(prefix + "[]", tree.items[i], feature) ==> Said(prefix, tree, feature)
      {
        FeaturesExactly(prefix + "[]", tree.items[i], feature);
        if Said(prefix + "[]", tree.items[i], feature) { SaidByItem(prefix, tree, i, feature); }
      }
    }
    FeaturesStep(prefix, tree, feature);
    if Said(prefix, tree, feature) { SaidWhere(prefix, tree, feature); }
    hide Features, Says;
  }

  lemma FeaturesStep(prefix: string, tree: Tree, feature: string)
    ensures feature in Features(prefix, tree) <==>
      || Says(prefix, tree, feature)
      || (tree.Mapping? && feature in EntryFeatures(prefix, tree, |tree.entries|))
      || (tree.Sequence? && feature in ItemFeatures(prefix, tree, |tree.items|))
  {
    assert prefix + "" == prefix;
    match tree {
      case Scalar(_, _) =>
      case Mapping(_) =>
      case Sequence(_) =>
    }
  }

  /** No mapping that some steps lead to repeats a key. */
  ghost predicate NoKeyTwice(tree: Tree) {
    forall steps, sub :: Leads(tree, steps, sub) && sub.Mapping? ==>
      forall i, j :: 0 <= i < j < |sub.entries| ==> sub.entries[i].key != sub.entries[j].key
  }

  lemma LeadsInto(tree: Tree, i: nat, steps: seq<Step>, sub: Tree)
    requires tree.Mapping? && i < |tree.entries| && Leads(tree.entries[i].value, steps, sub)
    ensures Leads(tree, [Into(tree.entries[i].key)] + steps, sub)
  {
    assert ([Into(tree.entries[i].key)] + steps)[1..] == steps;
  }

  lemma LeadsToItem(tree: Tree, i: nat, steps: seq<Step>, sub: Tree)
    requires tree.Sequence? && i < |tree.items| && Leads(tree.items[i], steps, sub)
    ensures Leads(tree, [Item] + steps, sub)
  {
    assert ([Item] + steps)[1..] == steps;
  }

  lemma {:induction false} KeyedLeads(tree: Tree, steps: seq<Step>, sub: Tree)
    requires Keyed(tree) && Leads(tree, steps, sub)
    ensures Keyed(sub)
    decreases |steps|
  {
    if steps != [] {
      match steps[0] {
        case Into(key) =>
          var i :| 0 <= i < |tree.entries| && tree.entries[i].key == key && Leads(tree.entries[i].value, steps[1..], sub);
          KeyedLeads(tree.entries[i].value, steps[1..], sub);
        case Item =>
          var i :| 0 <= i < |tree.items| && Leads(tree.items[i], steps[1..], sub);
          KeyedLeads(tree.items[i], steps[1..], sub);
      }
    }
  }

  lemma {:induction false} NoKeyTwiceKeyed(tree: Tree)
    requires NoKeyTwice(tree)
    ensures Keyed(tree)
    decreases tree
  {
    match tree {
      case Scalar(_, _) =>
      case Mapping(entries) =>
        assert Leads(tree, [], tree);
        assert Distinct(Keys(entries));
        forall i | 0 <= i < |entries| ensures Keyed(entries[i].value) {
          forall steps, sub | Leads(entries[i].value, steps, sub) && sub.Mapping?
            ensures forall k, l :: 0 <= k < l < |sub.entries| ==> sub.entries[k].key != sub.entries[l].key
          {
            LeadsInto(tree, i, steps, sub);
          }
          NoKeyTwiceKeyed(entries[i].value);
        }
      case Sequence(items) =>
        forall i | 0 <= i < |items| ensures Keyed(items[i]) {
          forall steps, sub | Leads(items[i], steps, sub) && sub.Mapping?
            ensures forall k, l :: 0 <= k < l < |sub.entries| ==> sub.entries[k].key != sub.entries[l].key
          {
            LeadsToItem(tree, i, steps, sub);
          }
          NoKeyTwiceKeyed(items[i]);
        }
    }
  }

  lemma KeyedExactly(tree: Tree)
    ensures Keyed(tree) <==> NoKeyTwice(tree)
  {
    if Keyed(tree) {
      forall steps, sub | Leads(tree, steps, sub) && sub.Mapping?
        ensures forall i, j :: 0 <= i < j < |sub.entries| ==> sub.entries[i].key != sub.entries[j].key
      {
        KeyedLeads(tree, steps, sub);
        assert forall i :: 0 <= i < |sub.entries| ==> Keys(sub.entries)[i] == sub.entries[i].key;
      }
    }
    if NoKeyTwice(tree) { NoKeyTwiceKeyed(tree); }
  }

  /** A document can be imported exactly when it is a non-empty mapping, no mapping in it repeats a key,
      its component sections are mappings or null, and its service and the pipelines in that are
      mappings. */
  lemma ImportableExactly(root: Tree)
    ensures Importable(root) <==>
      && root.Mapping? && root.entries != [] && NoKeyTwice(root)
      && (forall section | section in ["receivers", "processors", "exporters", "extensions", "connectors"] && Value(root, section).Some? ::
            var value := Value(root, section).value; value.Mapping? || (value.Scalar? && value.tag == "!!null"))
      && (Value(root, "service").Some? ==>
            var service := Value(root, "service").value;
            service.Mapping? && (Value(service, "pipelines").Some? ==> Value(service, "pipelines").value.Mapping?))
  {
    KeyedExactly(root);
    if root.Mapping? {
      forall key ensures key in Content(root.entries) <==> Value(root, key).Some?
                 ensures Value(root, key).Some? ==> Value(root, key).value == Content(root.entries)[key]
      {
        ValueContent(root, key);
      }
      assert COMPONENT_SECTIONS == ["receivers", "processors", "exporters", "extensions", "connectors"];
    }
    hide Keyed, NoKeyTwice, Value, Content;
  }

  // ---------- The score of a pattern ----------

  /** The listed signals that some pipeline carries, by their places. */
  function Carried(root: Tree, signals: seq<string>): set<int> {
    set i: int | 0 <= i < |signals| && signals[i] in ["metrics", "traces", "logs", "profiles"]
                 && (exists k :: 0 <= k < |Pipelines(root)| && S.IsType(Pipelines(root)[k].key, signals[i])) :: i
  }

  lemma SignalsExactly(root: Tree, signal: string)
    ensures signal in PipelineSignals(root) <==>
      signal in ["metrics", "traces", "logs", "profiles"] && exists k :: 0 <= k < |Pipelines(root)| && S.IsType(Pipelines(root)[k].key, signal)
  {
    hide Pipelines, ComponentType, S.IsType;
    var pipelines := Pipelines(root);
    if signal in PipelineSignals(root) {
      var name :| name in Keys(pipelines) && ComponentType(name) == signal && ComponentType(name) in KNOWN_SIGNALS;
      var k :| 0 <= k < |pipelines| && Keys(pipelines)[k] == name;
      KnownType(name, signal);
    }
    if signal in ["metrics", "traces", "logs", "profiles"] {
      if k :| 0 <= k < |pipelines| && S.IsType(pipelines[k].key, signal) {
        KnownType(pipelines[k].key, signal);
        assert Keys(pipelines)[k] in Keys(pipelines);
      }
    }
  }

  lemma KnownType(name: string, signal: string)
    requires signal in ["metrics", "traces", "logs", "profiles"]
    ensures ComponentType(name) == signal <==> S.IsType(name, signal)
    ensures signal in KNOWN_SIGNALS
  {
    assert '/' !in "metrics" && '/' !in "traces" && '/' !in "logs" && '/' !in "profiles";
    S.TypeExactly(name, signal);
  }

  lemma {:induction false} MatchedCounts(actual: set<string>, signals: seq<string>, places: set<int>)
    requires forall i: int :: i in places <==> 0 <= i < |signals| && signals[i] in actual
    ensures Matched(actual, signals) == |places|
  {
    if signals == [] {
      assert forall i :: i !in places;
    } else {
      var k := |signals| - 1;
      MatchedCounts(actual, signals[..k], places - {k});
    }
  }

  /** Half up, to the nearest whole number. */
  ghost predicate Nearest(score: nat, weight: nat, part: nat, whole: nat) {
    2 * weight * part - whole < 2 * whole * score <= 2 * weight * part + whole
  }

  lemma RoundedIsNearest(weight: nat, part: nat, whole: nat)
    requires 0 < whole
    ensures Nearest(Rounded(weight, part, whole), weight, part, whole)
  {
    RoundedNearest(weight, part, whole);
    var score := Rounded(weight, part, whole);
    assert (2 * score - 1) * whole == 2 * whole * score - whole;
    assert (2 * score + 1) * whole == 2 * whole * score + whole;
    var dividend := 2 * weight * part + whole;
    assert dividend == score * (2 * whole) + dividend % (2 * whole);
    assert score * (2 * whole) == 2 * whole * score;
  }

  /** A pattern scores 55 and up to 25 for the share of its signals that the pipelines carry and up to 20
      for the share of structure that its receiver's settings and the pattern's have in common; each
      share is rounded to the nearest whole number, and without settings on both sides it is 20. */
  lemma ScoreExactly(root: Tree, pattern: Pattern) returns (signals: nat, structure: nat)
    requires ReceiverByType(root, pattern.receiver).Some? && Decodes(pattern.configuration)
    ensures Find(Receivers(root), ReceiverByType(root, pattern.receiver).value).Some?
    ensures MatchScore(root, pattern) == Some(55 + signals + structure) && signals <= 25 && structure <= 20
    ensures if pattern.signals == [] then signals == 0
            else Nearest(signals, 25, |Carried(root, pattern.signals)|, |pattern.signals|)
    ensures var found := Features("", Find(Receivers(root), ReceiverByType(root, pattern.receiver).value).value);
      var wanted := if pattern.configuration.Parsed? then Features("", pattern.configuration.tree) else {};
      if found + wanted == {} then structure == 20 else Nearest(structure, 20, |found * wanted|, |found + wanted|)
  {
    var name := ReceiverByType(root, pattern.receiver).value;
    ReceiverIsLeast(root, pattern.receiver);
    ContentKeys(Receivers(root));
    ContentFind(Receivers(root), name);
    var actual := PipelineSignals(root);
    var found, wanted := Features("", Find(Receivers(root), name).value), ExpectedFeatures(pattern.configuration);
    signals, structure := SignalScore(actual, pattern.signals), Similarity(found, wanted);
    ScoreRange(actual, pattern.signals, found, wanted);
    SignalBounds(actual, pattern.signals);
    SimilarityBounds(found, wanted);
    hide ReceiverByType, Features, PipelineSignals, Rounded;
    CarriedExactly(root, pattern.signals);
    MatchedCounts(actual, pattern.signals, Carried(root, pattern.signals));
    if pattern.signals != [] { RoundedIsNearest(25, Matched(actual, pattern.signals), |pattern.signals|); }
    if found + wanted != {} {
      assert |found + wanted| > 0;
      RoundedIsNearest(20, |found * wanted|, |found + wanted|);
    }
    hide Nearest, Matched;
  }

  lemma CarriedExactly(root: Tree, signals: seq<string>)
    ensures forall i: int :: i in Carried(root, signals) <==> 0 <= i < |signals| && signals[i] in PipelineSignals(root)
  {
    forall i | 0 <= i < |signals|
      ensures i in Carried(root, signals) <==> signals[i] in PipelineSignals(root)
    {
      SignalsExactly(root, signals[i]);
    }
    hide PipelineSignals, S.IsType;
  }

  // ---------- The patterns that are looked at ----------

  /** The pattern at this place is enabled and the first enabled one of its id. */
  predicate FirstEnabled(patterns: seq<Option<Pattern>>, i: nat) {
    && i < |patterns| && patterns[i].Some? && patterns[i].value.enabled
    && forall j | 0 <= j < i :: patterns[j].Some? && patterns[j].value.enabled ==> patterns[j].value.id != patterns[i].value.id
  }

  lemma {:induction false} ConsideredExactly(patterns: seq<Option<Pattern>>, pattern: Pattern)
    ensures pattern in Considered(patterns) <==> exists i: nat :: FirstEnabled(patterns, i) && patterns[i] == Some(pattern)
  {
    if patterns != [] {
      ConsideredExactly(patterns[..|patterns| - 1], pattern);
      LastConsidered(patterns);
      ConsideredStep(patterns, pattern);
      FirstEnabledSnoc(patterns, pattern);
      hide Considered, FirstEnabled;
    }
  }

  lemma ConsideredStep(patterns: seq<Option<Pattern>>, pattern: Pattern)
    requires patterns != []
    ensures var last := |patterns| - 1;
      pattern in Considered(patterns) <==>
        || pattern in Considered(patterns[..last])
        || (patterns[last] == Some(pattern) && pattern.enabled && !Seen(Considered(patterns[..last]), pattern.id))
  {
    hide Seen;
  }

  lemma FirstEnabledSnoc(patterns: seq<Option<Pattern>>, pattern: Pattern)
    requires patterns != []
    ensures var last := |patterns| - 1;
      (exists i: nat :: FirstEnabled(patterns, i) && patterns[i] == Some(pattern)) <==>
        || (exists i: nat :: FirstEnabled(patterns[..last], i) && patterns[..last][i] == Some(pattern))
        || (FirstEnabled(patterns, last) && patterns[last] == Some(pattern))
  {
    var last := |patterns| - 1;
    var before := patterns[..last];
    if i: nat :| FirstEnabled(before, i) && before[i] == Some(pattern) {
      InPatterns(before, i);
      SameEnabled(patterns, i);
    }
    if i: nat :| FirstEnabled(patterns, i) && patterns[i] == Some(pattern) {
      InPatterns(patterns, i);
      if i < last {
        SameEnabled(patterns, i);
        assert before[i] == patterns[i];
      }
    }
    hide FirstEnabled;
  }

  lemma SameEnabled(patterns: seq<Option<Pattern>>, i: nat)
    requires i < |patterns| - 1
    ensures FirstEnabled(patterns[..|patterns| - 1], i) <==> FirstEnabled(patterns, i)
  {
  }

  lemma InPatterns(patterns: seq<Option<Pattern>>, i: nat)
    requires FirstEnabled(patterns, i)
    ensures i < |patterns|
  {
  }

  lemma LastConsidered(patterns: seq<Option<Pattern>>)
    requires patterns != []
    ensures var last := |patterns| - 1;
      FirstEnabled(patterns, last) <==>
        patterns[last].Some? && patterns[last].value.enabled && !Seen(Considered(patterns[..last]), patterns[last].value.id)
  {
    var last := |patterns| - 1;
    var before := patterns[..last];
    ConsideredOnce(before);
    if patterns[last].Some? && patterns[last].value.enabled {
      var id := patterns[last].value.id;
      if Seen(Considered(before), id) {
        var k :| 0 <= k < |Considered(before)| && Considered(before)[k].id == id;
        assert Considered(before)[k] in Considered(before);
        var j :| 0 <= j < last && before[j] == Some(Considered(before)[k]);
        assert patterns[j] == before[j];
      }
      if !FirstEnabled(patterns, last) {
        var j :| 0 <= j < last && patterns[j].Some? && patterns[j].value.enabled && patterns[j].value.id == id;
        assert before[j] == Some(patterns[j].value);
      }
    }
    hide Considered;
  }

  /** Ranked matches never score higher than earlier ones, and equal scores are in the order of the names
      in lower case. */
  lemma RankedExactly(matches: seq<Match>, i: nat, j: nat)
    requires Ranked(matches) && i < j < |matches|
    ensures matches[j].score <= matches[i].score
    ensures matches[j].score == matches[i].score ==> AtMost(N.Fold(matches[i].name), N.Fold(matches[j].name))
  {
    hide AtMost, N.Fold;
    assert RanksBefore(matches[i], matches[j]);
  }

  /** Settings that do not parse, or repeat a key somewhere; a text without a document is no such thing. */
  predicate Broken(configuration: Configuration) {
    match configuration
    case Malformed => true
    case Parsed(tree) => !Keyed(tree)
    case Blank => false
    case NoDocument => false
  }

  lemma BrokenExactly(configuration: Configuration)
    ensures Broken(configuration) <==> !Decodes(configuration)
  {
    hide Keyed;
  }

  /** There is no result exactly when the settings of a pattern that is looked at and whose receiver is
      present are broken. */
  lemma {:induction false} NoMatchesIff(root: Tree, patterns: seq<Pattern>)
    ensures Matches(root, patterns).None? <==>
      exists p :: p in patterns && ReceiverByType(root, p.receiver).Some? && Broken(p.configuration)
  {
    if patterns != [] {
      var last := patterns[|patterns| - 1];
      NoMatchesIff(root, patterns[..|patterns| - 1]);
      ScoredIff(root, last);
      assert forall p :: p in patterns <==> p in patterns[..|patterns| - 1] || p == last;
      BrokenExactly(last.configuration);
      hide ReceiverByType, MatchScore, Decodes, Broken;
    }
  }

  lemma ScoredIff(root: Tree, pattern: Pattern)
    ensures MatchScore(root, pattern).Some? <==> ReceiverByType(root, pattern.receiver).Some? && Decodes(pattern.configuration)
  {
    if ReceiverByType(root, pattern.receiver).Some? {
      ReceiverIsLeast(root, pattern.receiver);
      ContentKeys(Receivers(root));
      ContentFind(Receivers(root), ReceiverByType(root, pattern.receiver).value);
    }
    hide ReceiverByType, Features, SignalScore, Similarity, Decodes, Receivers;
  }

  // ---------- Adopting a pattern ----------

  /** The settings a pattern brings: none at all, or a mapping. */
  predicate Brings(configuration: Configuration, settings: Tree) {
    match configuration
    case Blank => settings == Mapping([])
    case Parsed(tree) => settings == tree && tree.Mapping?
    case _ => false
  }

  /** The receivers of the type, by their places. */
  function OfType(root: Tree, componentType: string): set<int> {
    set k: int | 0 <= k < |Receivers(root)| && ComponentType(Receivers(root)[k].key) == componentType :: k
  }

  lemma {:induction false} NamesCounted(entries: seq<Entry>, componentType: string, places: set<int>)
    requires forall k: int :: k in places <==> 0 <= k < |entries| && ComponentType(entries[k].key) == componentType
    ensures |NamesOfType(entries, componentType)| == |places|
  {
    hide ComponentType;
    NamesSplit(entries, componentType);
    if entries == [] {
      assert forall k :: k !in places;
    } else {
      var last := |entries| - 1;
      NamesCounted(entries[..last], componentType, places - {last});
    }
  }

  lemma {:induction false} NamesSplit(entries: seq<Entry>, componentType: string)
    ensures entries != [] ==>
      var last := |entries| - 1;
      |NamesOfType(entries, componentType)| ==
        |NamesOfType(entries[..last], componentType)| + if ComponentType(entries[last].key) == componentType then 1 else 0
  {
    hide ComponentType;
    if |entries| > 1 {
      var last := |entries| - 1;
      NamesSplit(entries[1..], componentType);
      assert entries[1..][..last - 1] == entries[..last][1..] && entries[1..][last - 1] == entries[last];
    } else if entries != [] {
      assert entries[..0] == [] && entries[1..] == [];
    }
  }

  /** A pattern is adopted exactly when it is there and enabled, the document can be imported and has a
      receiver of its type, and it brings settings; else the first of these that fails is reported. The
      result is laid out. A receiver that had other settings is reported as aligned, and further
      receivers of the type as left alone. */
  lemma AdoptOutcome(root: Tree, pattern: Option<Pattern>)
    ensures var outcome := A.Adopt(root, pattern);
      && (outcome == A.Refused(A.PatternUnavailable) <==> pattern.None? || !pattern.value.enabled)
      && (pattern.Some? && pattern.value.enabled ==>
            var receivers, found := Value(root, "receivers"), ReceiverByType(root, pattern.value.receiver);
            && (outcome == A.Refused(A.NotImportable) <==> !Importable(root))
            && (outcome == A.Refused(A.ReceiversNotMapping) <==> Importable(root) && !(receivers.Some? && receivers.value.Mapping?))
            && (outcome == A.Refused(A.ReceiverMissing) <==>
                  Importable(root) && receivers.Some? && receivers.value.Mapping? && found.None?)
            && (outcome == A.Refused(A.InvalidConfiguration) <==>
                  Importable(root) && found.Some? && forall settings :: !Brings(pattern.value.configuration, settings))
            && (outcome.Adopted? ==>
                  && found.Some? && S.LaidOut(outcome.tree)
                  && outcome.changes ==
                     (if exists settings :: Brings(pattern.value.configuration, settings) && Find(Receivers(root), found.value) == Some(settings)
                      then [] else [A.Aligned(found.value, pattern.value.name)]) +
                     (if |OfType(root, pattern.value.receiver)| > 1 then [A.OthersLeft(pattern.value.receiver)] else [])))
  {
    if pattern.Some? {
      var settings := A.ReceiverConfiguration(pattern.value.configuration);
      assert forall tree :: Brings(pattern.value.configuration, tree) <==> settings == Some(tree);
      NamesCounted(Receivers(root), pattern.value.receiver, OfType(root, pattern.value.receiver));
      ReceiverIsLeast(root, pattern.value.receiver);
      if A.Adopt(root, pattern).Adopted? {
        A.ImportableParts(root);
        S.CanonicalLaidOut(A.Replaced(root, ReceiverByType(root, pattern.value.receiver).value, settings.value));
      }
    }
    hide Brings, OfType, Importable, Canonical, S.LaidOut, ReceiverByType, Find, NamesOfType, A.Replaced;
  }
}
