/** What standardising a document comes to, said by the names in it alone. */
module StandardOutcome {
  import opened Wrappers
  import opened TextOrder
  import opened CollectorTree
  import opened Baseline
  import opened Places
  import Texts

  // ---------- The layout ----------

  predicate Ordered(preferred: seq<string>, tree: Tree) {
    tree.Mapping? ==> InOrder(preferred, Keys(tree.entries))
  }

  /** The known sections come first, in this order, and the others after them by name; components and
      pipelines are ordered by name, and the entries of the service like the sections. */
  predicate LaidOut(root: Tree) {
    && root.Mapping? && Ordered(["receivers", "processors", "exporters", "extensions", "connectors", "service"], root)
    && (forall section | section in ["receivers", "processors", "exporters", "extensions", "connectors"] && Value(root, section).Some? ::
          Ordered([], Value(root, section).value))
    && (Value(root, "service").Some? ==>
          var service := Value(root, "service").value;
          Ordered(["extensions", "pipelines", "telemetry"], service)
          && (Value(service, "pipelines").Some? ==> Ordered([], Value(service, "pipelines").value)))
  }

  lemma EachValue(entries: seq<Entry>, f: (string, Tree) -> Tree, key: string)
    ensures Value(Mapping(Each(entries, f)), key) ==
      if Value(Mapping(entries), key).Some? then Some(f(key, Value(Mapping(entries), key).value)) else None
  {
    EachContent(entries, f);
    ContentFind(entries, key);
    ContentFind(Each(entries, f), key);
  }

  lemma ArrangedValue(preferred: seq<string>, entries: seq<Entry>, f: (string, Tree) -> Tree)
    ensures var result := Each(Arrange(preferred, entries), f);
      && InOrder(preferred, Keys(result))
      && forall key :: Value(Mapping(result), key) ==
           if Value(Mapping(entries), key).Some? then Some(f(key, Value(Mapping(entries), key).value)) else None
  {
    ArrangeSound(preferred, entries);
    EachContent(Arrange(preferred, entries), f);
    forall key ensures Value(Mapping(Each(Arrange(preferred, entries), f)), key) ==
      if Value(Mapping(entries), key).Some? then Some(f(key, Value(Mapping(entries), key).value)) else None
    {
      EachValue(Arrange(preferred, entries), f, key);
    }
  }

  lemma TidyOrdered(tree: Tree)
    ensures Ordered([], Tidy(tree))
  {
    if tree.Mapping? { ArrangeSound([], tree.entries); }
  }

  lemma ServiceOrdered(service: Tree)
    ensures var tidy := TidyService(service);
      && Ordered(["extensions", "pipelines", "telemetry"], tidy)
      && (Value(tidy, "pipelines").Some? ==> Ordered([], Value(tidy, "pipelines").value))
  {
    if service.Mapping? {
      ArrangedValue(SERVICE_SECTIONS, service.entries, TidyPipelines);
      if Value(service, "pipelines").Some? { TidyOrdered(Value(service, "pipelines").value); }
    }
    hide Arrange, Each, Tidy, InOrder;
  }

  lemma CanonicalValue(root: Tree, key: string)
    requires root.Mapping?
    ensures Canonical(root).Mapping? && Ordered(CANONICAL_SECTIONS, Canonical(root))
    ensures Value(Canonical(root), key) == if Value(root, key).Some? then Some(TidySection(key, Value(root, key).value)) else None
  {
    ArrangedValue(CANONICAL_SECTIONS, root.entries, TidySection);
    hide Arrange, Each, TidySection, InOrder;
  }

  lemma SectionOrdered(root: Tree, section: string)
    requires root.Mapping? && section in COMPONENT_SECTIONS && Value(Canonical(root), section).Some?
    ensures Ordered([], Value(Canonical(root), section).value)
  {
    CanonicalValue(root, section);
    TidyOrdered(Value(root, section).value);
    hide Tidy, Ordered, Canonical;
  }

  lemma ServiceLaidOut(root: Tree)
    requires root.Mapping? && Value(Canonical(root), "service").Some?
    ensures var service := Value(Canonical(root), "service").value;
      && Ordered(["extensions", "pipelines", "telemetry"], service)
      && (Value(service, "pipelines").Some? ==> Ordered([], Value(service, "pipelines").value))
  {
    CanonicalValue(root, "service");
    ServiceSection(Value(root, "service").value);
    ServiceOrdered(Value(root, "service").value);
    hide TidySection, TidyService, Ordered, Canonical;
  }

  /** A laid out document is in the required order. */
  lemma CanonicalLaidOut(root: Tree)
    requires root.Mapping?
    ensures LaidOut(Canonical(root))
  {
    CanonicalValue(root, "service");
    assert CANONICAL_SECTIONS == ["receivers", "processors", "exporters", "extensions", "connectors", "service"];
    assert COMPONENT_SECTIONS == ["receivers", "processors", "exporters", "extensions", "connectors"];
    hide Canonical, Ordered, TidySection, Value;
    forall section | section in COMPONENT_SECTIONS && Value(Canonical(root), section).Some?
      ensures Ordered([], Value(Canonical(root), section).value)
    {
      SectionOrdered(root, section);
    }
    if Value(Canonical(root), "service").Some? { ServiceLaidOut(root); }
  }

  lemma ServiceSection(value: Tree)
    ensures TidySection("service", value) == TidyService(value)
  {
    forall section | section in COMPONENT_SECTIONS ensures section[0] != 's' { }
  }

  // ---------- Standardising ----------

  /** Two texts that differ in line ends and surrounding blanks alone. */
  predicate SameText(a: string, b: string) {
    Texts.Trim(Texts.LineFeeds(a)) == Texts.Trim(Texts.LineFeeds(b))
  }

  /** A document is standardised exactly when it can be imported and, if the baseline is asked for, the
      baseline can be applied. The result is in the required order and says the same as the document,
      or as the document with the baseline; a changed text is reported as a change of layout, before
      what the baseline changed. */
  lemma StandardizeOutcome(text: string, root: Tree, applyBaseline: bool, rendered: Tree -> string)
    ensures var outcome := Standardize(text, root, applyBaseline, rendered);
      && (outcome == Refused(NotImportable) <==> !Importable(root))
      && (Importable(root) ==> root.Mapping?)
      && (Importable(root) && applyBaseline && Apply(root).Refused? ==> outcome == Refused(Apply(root).problem))
      && (Importable(root) && !(applyBaseline && Apply(root).Refused?) ==>
            var document := if applyBaseline then Apply(root).tree else root;
            var known := if applyBaseline then Apply(root).changes else [];
            && outcome.Patched? && LaidOut(outcome.tree) && SameDocument(document, outcome.tree) && Keyed(outcome.tree)
            && outcome.changes == if SameText(text, rendered(outcome.tree)) then known else [Layout] + known)
  {
    if Importable(root) {
      NotAboutImport(root);
      if applyBaseline && Apply(root).Patched? {
        PassKeyed(root);
        PassCompletes(root);
        CanonicalSame(Apply(root).tree);
        CanonicalLaidOut(Apply(root).tree);
      } else {
        CanonicalSame(root);
        CanonicalLaidOut(root);
      }
    }
    hide Importable, Apply, Canonical, LaidOut, SameDocument, Keyed, Texts.Trim, Texts.LineFeeds;
  }

  lemma {:induction false} UnfitProblem(pipelines: seq<Entry>)
    ensures Unfit(pipelines) != Some(NotImportable)
  {
    if pipelines != [] { UnfitProblem(pipelines[1..]); }
  }

  lemma NotAboutImport(root: Tree)
    requires root.Mapping?
    ensures Apply(root) != Refused(NotImportable)
  {
    UnfitProblem(Pipelines(root));
  }

  /** Without the baseline, documents that say the same are standardised to the same tree, and only
      those are. */
  lemma SameStandardized(a: Tree, b: Tree, textA: string, textB: string, rendered: Tree -> string)
    requires Importable(a) && Importable(b)
    ensures Standardize(textA, a, false, rendered).Patched? && Standardize(textB, b, false, rendered).Patched?
    ensures Standardize(textA, a, false, rendered).tree == Standardize(textB, b, false, rendered).tree <==> SameDocument(a, b)
  {
    CanonicalForm(a, b);
    hide Canonical, SameDocument;
  }

  // ---------- The baseline ----------

  /** The name of a component of the type: the type itself, or the type, a slash and more. */
  predicate IsType(name: string, componentType: string) {
    name == componentType || componentType + "/" <= name
  }

  lemma {:induction false} TypeExactly(name: string, componentType: string)
    requires '/' !in componentType
    ensures ComponentType(name) == componentType <==> IsType(name, componentType)
  {
    if name == "" || name[0] == '/' {
      assert ComponentType(name) == "";
      if componentType + "/" <= name { assert (componentType + "/")[0] == name[0]; }
    } else if componentType == "" {
      assert (componentType + "/")[0] == '/';
    } else {
      TypeExactly(name[1..], componentType[1..]);
      var head, tail := [componentType[0]], componentType[1..];
      assert componentType == head + tail && name == [name[0]] + name[1..];
      assert (componentType + "/")[1..] == tail + "/" && (componentType + "/")[0] == componentType[0];
      if componentType + "/" <= name { assert name[1..][..|tail| + 1] == tail + "/"; }
      if componentType[0] == name[0] && tail + "/" <= name[1..] {
        assert name[..|componentType| + 1] == componentType + "/";
      }
    }
  }

  predicate DefinesType(entries: seq<Entry>, componentType: string) {
    exists i | 0 <= i < |entries| :: IsType(entries[i].key, componentType)
  }

  predicate RunsThrough(items: seq<Tree>, componentType: string) {
    exists i | 0 <= i < |items| :: items[i].Scalar? && IsType(items[i].text, componentType)
  }

  lemma TypesExactly(entries: seq<Entry>, items: seq<Tree>, componentType: string)
    requires '/' !in componentType
    ensures HasType(entries, componentType) <==> DefinesType(entries, componentType)
    ensures ListHasType(items, componentType) <==> RunsThrough(items, componentType)
  {
    forall name ensures ComponentType(name) == componentType <==> IsType(name, componentType) { TypeExactly(name, componentType); }
    hide ComponentType, IsType;
  }

  /** The definitions a document starts with. */
  function Defined(root: Tree): seq<Entry> {
    match Value(root, "processors")
    case Some(Mapping(entries)) => entries
    case _ => []
  }

  /** The processors a pipeline lists. */
  function ProcessorList(pipeline: Tree): seq<Tree> {
    match Value(pipeline, "processors")
    case Some(Sequence(items)) => items
    case _ => []
  }

  /** The definition that is added unless one of its type is there. */
  function LimiterUnless(defined: bool): seq<Entry> {
    if defined then []
    else [Entry("memory_limiter", Mapping([Entry("check_interval", Scalar("!!str", "1s")), Entry("limit_mib", Scalar("!!int", "512")),
                                           Entry("spike_limit_mib", Scalar("!!int", "128"))]))]
  }

  function BatchUnless(defined: bool): seq<Entry> {
    if defined then [] else [Entry("batch", Mapping([]))]
  }

  lemma DefineExactly(entries: seq<Entry>, name: string, configuration: Tree)
    requires '/' !in name
    ensures Define(entries, name, configuration) == entries + if DefinesType(entries, name) then [] else [Entry(name, configuration)]
  {
    TypesExactly(entries, [], name);
    hide DefinesType, HasType;
  }

  lemma OneMoreEntry(entries: seq<Entry>, last: Entry, componentType: string)
    ensures DefinesType(entries + [last], componentType) <==> DefinesType(entries, componentType) || IsType(last.key, componentType)
  {
    hide IsType;
    if i :| 0 <= i < |entries| && IsType(entries[i].key, componentType) {
      assert (entries + [last])[i] == entries[i];
    }
    assert (entries + [last])[|entries|] == last;
  }

  /** The memory limiter's definition is not one of a batch processor. */
  lemma LimitedBatch(entries: seq<Entry>)
    ensures DefinesType(Define(entries, MEMORY_LIMITER, LIMITER_CONFIGURATION), BATCH) <==> DefinesType(entries, BATCH)
  {
    assert MEMORY_LIMITER[0] == 'm' && BATCH[0] == 'b';
    assert !IsType(MEMORY_LIMITER, BATCH);
    OneMoreEntry(entries, Entry(MEMORY_LIMITER, LIMITER_CONFIGURATION), BATCH);
    hide DefinesType, HasType, IsType;
  }

  lemma DefinitionsExactly(entries: seq<Entry>)
    ensures Definitions(entries) ==
      entries + LimiterUnless(DefinesType(entries, "memory_limiter")) + BatchUnless(DefinesType(entries, "batch"))
  {
    hide DefinesType, Define;
    LimitedBatch(entries);
    DefineExactly(entries, MEMORY_LIMITER, LIMITER_CONFIGURATION);
    DefineExactly(Define(entries, MEMORY_LIMITER, LIMITER_CONFIGURATION), BATCH, Mapping([]));
  }

  /** The baseline defines a memory limiter and a batch processor behind the other definitions, each
      unless one of its type is defined. */
  lemma BaselineDefines(root: Tree)
    requires root.Mapping? && Apply(root).Patched?
    ensures Value(Apply(root).tree, "processors") == Some(Mapping(
      Defined(root) + LimiterUnless(DefinesType(Defined(root), "memory_limiter")) + BatchUnless(DefinesType(Defined(root), "batch"))))
  {
    PatchedValue(root, "processors");
    DefinitionsExactly(Defined(root));
    assert Processors(root) == Mapping(Defined(root));
    hide Definitions, DefinesType, LimiterUnless, BatchUnless;
  }

  /** Every pipeline lists what it listed, in its order, behind a memory limiter and in front of a batch
      processor, each put there unless one of its type was listed. */
  lemma BaselineExtends(root: Tree, i: nat)
    requires root.Mapping? && Apply(root).Patched? && i < |Pipelines(root)|
    ensures |Pipelines(Apply(root).tree)| == |Pipelines(root)|
    ensures Pipelines(Apply(root).tree)[i].key == Pipelines(root)[i].key
    ensures var items := ProcessorList(Pipelines(root)[i].value);
      Value(Pipelines(Apply(root).tree)[i].value, "processors") == Some(Sequence(
        (if RunsThrough(items, "memory_limiter") then [] else [Scalar("!!str", "memory_limiter")]) + items +
        (if RunsThrough(items, "batch") then [] else [Scalar("!!str", "batch")])))
    ensures forall key | key != "processors" ::
      Value(Pipelines(Apply(root).tree)[i].value, key) == Value(Pipelines(root)[i].value, key)
  {
    PipelinesExtended(root, i);
    PatchedPipelines(root);
    hide Apply, Pipelines;
    ExtendsExactly(Pipelines(root)[i].key, Pipelines(root)[i].value);
  }

  lemma ExtendsExactly(name: string, pipeline: Tree)
    requires Fit(pipeline)
    ensures var items := ProcessorList(pipeline);
      Value(ExtendPipeline(name, pipeline), "processors") == Some(Sequence(
        (if RunsThrough(items, "memory_limiter") then [] else [Scalar("!!str", "memory_limiter")]) + items +
        (if RunsThrough(items, "batch") then [] else [Scalar("!!str", "batch")])))
  {
    var items := ProcessorList(pipeline);
    TypesExactly([], items, MEMORY_LIMITER);
    TypesExactly([], items, BATCH);
    hide RunsThrough, ListHasType;
    PutFind(pipeline.entries, "processors", Sequence(Extended(items)), "processors");
    assert References([]) == [];
    assert References(["memory_limiter"]) == [Scalar("!!str", "memory_limiter")] && References(["batch"]) == [Scalar("!!str", "batch")];
    hide Put, Find, References;
  }

  /** The names put into a pipeline. */
  function PutInto(pipeline: Tree): seq<string> {
    var items := ProcessorList(pipeline);
    (if RunsThrough(items, "memory_limiter") then [] else ["memory_limiter"]) + (if RunsThrough(items, "batch") then [] else ["batch"])
  }

  /** The changes reported for the pipelines, those at these places. */
  ghost predicate PipelinesReported(pipelines: seq<Entry>, from: nat, changes: seq<Change>, places: seq<nat>) {
    && |places| == |changes| && Increasing(places)
    && (forall k :: from <= k < |pipelines| ==> (k in places <==> PutInto(pipelines[k].value) != []))
    && forall i :: 0 <= i < |places| ==>
         && from <= places[i] < |pipelines|
         && changes[i] == Updated(pipelines[places[i]].key, PutInto(pipelines[places[i]].value))
  }

  lemma AddedExactly(pipeline: Tree)
    ensures Added(Items(pipeline)) == PutInto(pipeline)
  {
    var items := ProcessorList(pipeline);
    TypesExactly([], items, MEMORY_LIMITER);
    TypesExactly([], items, BATCH);
    hide RunsThrough, ListHasType;
  }

  lemma {:induction false} PipelineChangesAre(pipelines: seq<Entry>, from: nat) returns (places: seq<nat>)
    requires from <= |pipelines|
    ensures PipelinesReported(pipelines, from, PipelineChanges(pipelines[from..]), places)
    decreases |pipelines| - from
  {
    places := [];
    if from < |pipelines| {
      var rest := PipelineChangesAre(pipelines, from + 1);
      assert pipelines[from..][0] == pipelines[from] && pipelines[from..][1..] == pipelines[from + 1..];
      AddedExactly(pipelines[from].value);
      hide PutInto, PipelinesReported, Added, Items;
      var changes := PipelineChanges(pipelines[from + 1..]);
      if PutInto(pipelines[from].value) == [] {
        ReportedQuiet(pipelines, from, changes, rest);
        assert [] + changes == changes;
        places := rest;
      } else {
        ReportedMore(pipelines, from, changes, rest);
        places := [from] + rest;
      }
    }
  }

  lemma ReportedQuiet(pipelines: seq<Entry>, from: nat, changes: seq<Change>, rest: seq<nat>)
    requires from < |pipelines| && PipelinesReported(pipelines, from + 1, changes, rest) && PutInto(pipelines[from].value) == []
    ensures PipelinesReported(pipelines, from, changes, rest)
  {
    hide PutInto, Increasing;
    forall k | k in rest ensures from < k { var i :| 0 <= i < |rest| && rest[i] == k; }
  }

  lemma ReportedMore(pipelines: seq<Entry>, from: nat, changes: seq<Change>, rest: seq<nat>)
    requires from < |pipelines| && PipelinesReported(pipelines, from + 1, changes, rest) && PutInto(pipelines[from].value) != []
    ensures PipelinesReported(pipelines, from, [Updated(pipelines[from].key, PutInto(pipelines[from].value))] + changes, [from] + rest)
  {
    hide PutInto, Increasing;
    forall k | k in rest ensures from < k { var i :| 0 <= i < |rest| && rest[i] == k; }
    InFront(from, rest);
  }

  /** The changes reported: the definitions added, and then every pipeline something was put into, with
      what that was. */
  lemma BaselineReports(root: Tree) returns (places: seq<nat>)
    requires root.Mapping? && Apply(root).Patched?
    ensures var added :=
        (if DefinesType(Defined(root), "memory_limiter") then [] else [Change.Defined("memory_limiter")]) +
        (if DefinesType(Defined(root), "batch") then [] else [Change.Defined("batch")]);
      && added <= Apply(root).changes
      && PipelinesReported(Pipelines(root), 0, Apply(root).changes[|added|..], places)
  {
    var entries := Defined(root);
    TypesExactly(entries, [], MEMORY_LIMITER);
    TypesExactly(entries, [], BATCH);
    hide DefinesType, HasType, PipelinesReported;
    places := PipelineChangesAre(Pipelines(root), 0);
    assert Pipelines(root)[0..] == Pipelines(root);
    assert Processors(root) == Mapping(entries);
    var added := DefinitionChanges(entries);
    assert Apply(root).changes == added + PipelineChanges(Pipelines(root));
    assert (added + PipelineChanges(Pipelines(root)))[|added|..] == PipelineChanges(Pipelines(root));
  }

  /** The pipeline can be extended: it is a mapping, and its processors, if any, are a list. */
  predicate Extensible(pipeline: Tree) {
    pipeline.Mapping? && (Value(pipeline, "processors").Some? ==> Value(pipeline, "processors").value.Sequence?)
  }

  /** The first pipeline that cannot be extended. */
  predicate FirstUnfit(pipelines: seq<Entry>, i: nat) {
    && i < |pipelines| && !Extensible(pipelines[i].value)
    && forall j | 0 <= j < i :: Extensible(pipelines[j].value)
  }

  lemma {:induction false} UnfitIsFirst(pipelines: seq<Entry>) returns (i: nat)
    ensures Unfit(pipelines).None? <==> forall j :: 0 <= j < |pipelines| ==> Extensible(pipelines[j].value)
    ensures Unfit(pipelines).Some? ==>
      && FirstUnfit(pipelines, i)
      && Unfit(pipelines).value == if pipelines[i].value.Mapping? then ProcessorListNotSequence(pipelines[i].key) else PipelineNotMapping(pipelines[i].key)
  {
    i := 0;
    if pipelines != [] {
      assert Fit(pipelines[0].value) <==> Extensible(pipelines[0].value);
      if Extensible(pipelines[0].value) {
        var rest := UnfitIsFirst(pipelines[1..]);
        hide Fit, Extensible;
        i := rest + 1;
        forall j | 0 < j < |pipelines| ensures pipelines[j] == pipelines[1..][j - 1] { }
        if Unfit(pipelines).Some? {
          forall j | 0 <= j < i ensures Extensible(pipelines[j].value) {
            if j > 0 { assert pipelines[j] == pipelines[1..][j - 1]; }
          }
        } else {
          forall j | 0 <= j < |pipelines| ensures Extensible(pipelines[j].value) {
            if j > 0 { assert pipelines[j] == pipelines[1..][j - 1]; }
          }
        }
      }
    }
  }

  /** When the baseline is refused, and why: in this order, processors that are no mapping, no service, a
      service that is no mapping, no pipelines, and the first pipeline that cannot be extended. */
  lemma BaselineRefused(root: Tree)
    requires root.Mapping?
    ensures var outcome, service, pipelines := Apply(root), Value(root, "service"), Pipelines(root);
      var unfit := exists i :: 0 <= i < |pipelines| && !Extensible(pipelines[i].value);
      && (outcome == Refused(ProcessorsNotMapping) <==> Value(root, "processors").Some? && !Value(root, "processors").value.Mapping?)
      && (outcome.Patched? ==> service.Some? && service.value.Mapping? && pipelines != [] && !unfit)
      && (outcome.Refused? && outcome.problem != ProcessorsNotMapping ==>
            match outcome.problem
            case ServiceMissing => service.None?
            case ServiceNotMapping => service.Some? && !service.value.Mapping?
            case NoPipelines => service.Some? && service.value.Mapping? && pipelines == []
            case PipelineNotMapping(name) =>
              exists i: nat :: FirstUnfit(pipelines, i) && pipelines[i].key == name && !pipelines[i].value.Mapping?
            case ProcessorListNotSequence(name) =>
              exists i: nat :: FirstUnfit(pipelines, i) && pipelines[i].key == name && pipelines[i].value.Mapping?
            case _ => false)
  {
    var first := UnfitIsFirst(Pipelines(root));
    hide Extensible, Unfit, Pipelines, FirstUnfit;
  }
}
