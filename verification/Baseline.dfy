/** The processor baseline: every pipeline runs through a memory limiter and a batch processor. */
module Baseline {
  import opened Wrappers
  import opened TextOrder
  import opened CollectorTree
  import Texts

  datatype Problem =
    | NotImportable
    | ProcessorsNotMapping
    | ServiceMissing
    | ServiceNotMapping
    | NoPipelines
    | PipelineNotMapping(name: string)
    | ProcessorListNotSequence(name: string)

  datatype Change = Layout | Defined(processor: string) | Updated(pipeline: string, added: seq<string>)

  datatype Outcome = Patched(tree: Tree, changes: seq<Change>) | Refused(problem: Problem)

  const MEMORY_LIMITER: string := "memory_limiter"
  const BATCH: string := "batch"

  function Text(value: string): Tree {
    Scalar("!!str", value)
  }

  const LIMITER_CONFIGURATION: Tree := Mapping([
    Entry("check_interval", Text("1s")),
    Entry("limit_mib", Scalar("!!int", "512")),
    Entry("spike_limit_mib", Scalar("!!int", "128"))])

  predicate HasType(entries: seq<Entry>, componentType: string) {
    exists i :: 0 <= i < |entries| && ComponentType(entries[i].key) == componentType
  }

  predicate ListHasType(items: seq<Tree>, componentType: string) {
    exists i :: 0 <= i < |items| && items[i].Scalar? && ComponentType(items[i].text) == componentType
  }

  // ---------- One pass ----------

  function Define(entries: seq<Entry>, name: string, configuration: Tree): seq<Entry> {
    if HasType(entries, name) then entries else entries + [Entry(name, configuration)]
  }

  function Definitions(entries: seq<Entry>): seq<Entry> {
    Define(Define(entries, MEMORY_LIMITER, LIMITER_CONFIGURATION), BATCH, Mapping([]))
  }

  function Missing(has: bool, name: string): seq<string> {
    if has then [] else [name]
  }

  function References(names: seq<string>): seq<Tree> {
    seq(|names|, i requires 0 <= i < |names| => Text(names[i]))
  }

  /** The memory limiter goes first and the batch processor last. */
  function Extended(items: seq<Tree>): seq<Tree> {
    References(Missing(ListHasType(items, MEMORY_LIMITER), MEMORY_LIMITER)) + items +
    References(Missing(ListHasType(items, BATCH), BATCH))
  }

  function Added(items: seq<Tree>): seq<string> {
    Missing(ListHasType(items, MEMORY_LIMITER), MEMORY_LIMITER) + Missing(ListHasType(items, BATCH), BATCH)
  }

  predicate Fit(pipeline: Tree) {
    pipeline.Mapping? && (Find(pipeline.entries, "processors").Some? ==> Find(pipeline.entries, "processors").value.Sequence?)
  }

  /** The processors a pipeline runs through. */
  function Items(pipeline: Tree): seq<Tree> {
    match Value(pipeline, "processors")
    case Some(Sequence(items)) => items
    case _ => []
  }

  function ExtendPipeline(name: string, pipeline: Tree): Tree {
    if Fit(pipeline) then Mapping(Put(pipeline.entries, "processors", Sequence(Extended(Items(pipeline))))) else pipeline
  }

  /** The first pipeline that cannot be extended. */
  function Unfit(pipelines: seq<Entry>): Option<Problem> {
    if pipelines == [] then None
    else if !pipelines[0].value.Mapping? then Some(PipelineNotMapping(pipelines[0].key))
    else if !Fit(pipelines[0].value) then Some(ProcessorListNotSequence(pipelines[0].key))
    else Unfit(pipelines[1..])
  }

  function PipelineChanges(pipelines: seq<Entry>): seq<Change> {
    if pipelines == [] then []
    else ChangeOf(pipelines[0].key, Added(Items(pipelines[0].value))) + PipelineChanges(pipelines[1..])
  }

  function ChangeOf(name: string, added: seq<string>): seq<Change> {
    if added == [] then [] else [Updated(name, added)]
  }

  function DefinitionChanges(entries: seq<Entry>): seq<Change> {
    (if HasType(entries, MEMORY_LIMITER) then [] else [Defined(MEMORY_LIMITER)]) +
    (if HasType(entries, BATCH) then [] else [Defined(BATCH)])
  }

  /** The section that defines processors; it is created when absent. */
  function Processors(root: Tree): Tree {
    match Value(root, "processors")
    case Some(section) => section
    case None => Mapping([])
  }

  function Refusal(root: Tree): Option<Problem> {
    if !Processors(root).Mapping? then Some(ProcessorsNotMapping)
    else if Value(root, "service").None? then Some(ServiceMissing)
    else if !Value(root, "service").value.Mapping? then Some(ServiceNotMapping)
    else if Pipelines(root) == [] then Some(NoPipelines)
    else Unfit(Pipelines(root))
  }

  function Apply(root: Tree): Outcome
    requires root.Mapping?
  {
    if Refusal(root).Some? then Refused(Refusal(root).value)
    else
      var service := Value(root, "service").value;
      var pipelines := Mapping(Each(Pipelines(root), ExtendPipeline));
      Patched(
        Mapping(Put(Put(root.entries, "processors", Mapping(Definitions(Processors(root).entries))),
                    "service", Mapping(Put(service.entries, "pipelines", pipelines)))),
        DefinitionChanges(Processors(root).entries) + PipelineChanges(Pipelines(root)))
  }

  /** Nothing is missing: both processor types are defined and every pipeline runs through both. */
  predicate Complete(root: Tree) {
    && root.Mapping?
    && Value(root, "processors").Some? && Value(root, "processors").value.Mapping?
    && HasType(Value(root, "processors").value.entries, MEMORY_LIMITER)
    && HasType(Value(root, "processors").value.entries, BATCH)
    && Pipelines(root) != []
    && forall i | 0 <= i < |Pipelines(root)| :: CompletePipeline(Pipelines(root)[i].value)
  }

  predicate CompletePipeline(pipeline: Tree) {
    && Fit(pipeline)
    && ListHasType(Items(pipeline), MEMORY_LIMITER)
    && ListHasType(Items(pipeline), BATCH)
  }

  // ---------- What a pass changes ----------

  lemma {:induction false} UnfitIff(pipelines: seq<Entry>)
    ensures Unfit(pipelines).None? <==> forall i | 0 <= i < |pipelines| :: Fit(pipelines[i].value)
  {
    if pipelines != [] {
      UnfitIff(pipelines[1..]);
      if Unfit(pipelines).None? {
        forall i | 0 <= i < |pipelines| ensures Fit(pipelines[i].value) {
          if i > 0 { assert pipelines[i] == pipelines[1..][i - 1]; }
        }
      }
    }
  }

  lemma BareNames()
    ensures ComponentType(MEMORY_LIMITER) == MEMORY_LIMITER && ComponentType(BATCH) == BATCH
    ensures MEMORY_LIMITER != BATCH
  {
    hide ComponentType;
    PlainName(MEMORY_LIMITER);
    PlainName(BATCH);
    assert MEMORY_LIMITER[0] != BATCH[0];
  }

  lemma {:induction false} PlainName(name: string)
    requires '/' !in name
    ensures ComponentType(name) == name
  {
    if name != "" {
      PlainName(name[1..]);
      assert name == [name[0]] + name[1..];
    }
  }

  lemma ListTypeAt(items: seq<Tree>, i: nat, componentType: string)
    requires i < |items| && items[i].Scalar? && ComponentType(items[i].text) == componentType
    ensures ListHasType(items, componentType)
  {
  }

  lemma ExtendedHas(items: seq<Tree>, componentType: string)
    requires ListHasType(items, componentType) || componentType == MEMORY_LIMITER || componentType == BATCH
    ensures ListHasType(Extended(items), componentType)
  {
    hide ComponentType;
    BareNames();
    var front := References(Missing(ListHasType(items, MEMORY_LIMITER), MEMORY_LIMITER));
    var result := Extended(items);
    if ListHasType(items, componentType) {
      var i: nat :| i < |items| && items[i].Scalar? && ComponentType(items[i].text) == componentType;
      assert result[|front| + i] == items[i];
      ListTypeAt(result, |front| + i, componentType);
    } else if componentType == MEMORY_LIMITER {
      ListTypeAt(result, 0, componentType);
    } else {
      ListTypeAt(result, |result| - 1, componentType);
    }
  }

  lemma ExtendedPipeline(name: string, pipeline: Tree)
    requires Fit(pipeline)
    ensures Items(ExtendPipeline(name, pipeline)) == Extended(Items(pipeline))
    ensures CompletePipeline(ExtendPipeline(name, pipeline))
    ensures forall key | key != "processors" :: Value(ExtendPipeline(name, pipeline), key) == Value(pipeline, key)
  {
    var list := Sequence(Extended(Items(pipeline)));
    forall key ensures Value(ExtendPipeline(name, pipeline), key)
        == if key == "processors" then Some(list) else Value(pipeline, key)
    {
      PutFind(pipeline.entries, "processors", list, key);
    }
    assert Items(ExtendPipeline(name, pipeline)) == Extended(Items(pipeline)) by {
      assert Value(ExtendPipeline(name, pipeline), "processors") == Some(list);
    }
    ExtendedHas(Items(pipeline), MEMORY_LIMITER);
    ExtendedHas(Items(pipeline), BATCH);
  }

  lemma DefineSound(entries: seq<Entry>, name: string, configuration: Tree, other: string)
    requires ComponentType(name) == name
    ensures HasType(Define(entries, name, configuration), name)
    ensures HasType(entries, other) ==> HasType(Define(entries, name, configuration), other)
    ensures other != name && HasType(Define(entries, name, configuration), other) ==> HasType(entries, other)
  {
    var result := Define(entries, name, configuration);
    if !HasType(entries, name) {
      assert result[|entries|].key == name;
      if HasType(entries, other) {
        var i :| 0 <= i < |entries| && ComponentType(entries[i].key) == other;
        assert result[i] == entries[i];
      }
    }
  }

  lemma DefinitionsHaveBoth(entries: seq<Entry>)
    ensures HasType(Definitions(entries), MEMORY_LIMITER) && HasType(Definitions(entries), BATCH)
    ensures Definitions(entries) == entries <==> HasType(entries, MEMORY_LIMITER) && HasType(entries, BATCH)
  {
    BareNames();
    DefineSound(entries, MEMORY_LIMITER, LIMITER_CONFIGURATION, BATCH);
    DefineSound(Define(entries, MEMORY_LIMITER, LIMITER_CONFIGURATION), BATCH, Mapping([]), MEMORY_LIMITER);
  }

  function PatchedService(root: Tree): Tree
    requires Value(root, "service").Some? && Value(root, "service").value.Mapping?
  {
    Mapping(Put(Value(root, "service").value.entries, "pipelines", Mapping(Each(Pipelines(root), ExtendPipeline))))
  }

  /** What a patched document says under each key. */
  lemma PatchedValue(root: Tree, key: string)
    requires root.Mapping? && Apply(root).Patched?
    ensures Value(root, "service").Some? && Value(root, "service").value.Mapping?
    ensures Apply(root).tree.Mapping?
    ensures Value(Apply(root).tree, key) ==
      if key == "processors" then Some(Mapping(Definitions(Processors(root).entries)))
      else if key == "service" then Some(PatchedService(root))
      else Value(root, key)
  {
    var definitions := Mapping(Definitions(Processors(root).entries));
    PutFind(root.entries, "processors", definitions, key);
    PutFind(Put(root.entries, "processors", definitions), "service", PatchedService(root), key);
  }

  lemma PatchedPipelines(root: Tree)
    requires root.Mapping? && Apply(root).Patched?
    ensures Pipelines(Apply(root).tree) == Each(Pipelines(root), ExtendPipeline)
    ensures forall i | 0 <= i < |Pipelines(root)| :: Fit(Pipelines(root)[i].value)
  {
    PatchedValue(root, "service");
    PutFind(Value(root, "service").value.entries, "pipelines", Mapping(Each(Pipelines(root), ExtendPipeline)), "pipelines");
    UnfitIff(Pipelines(root));
  }

  /** After a pass, every pipeline keeps all its entries but one: its processors are the old list,
      in its order, with the missing baseline processors at the two ends. */
  lemma PipelinesExtended(root: Tree, i: nat)
    requires root.Mapping? && Apply(root).Patched? && i < |Pipelines(root)|
    ensures |Pipelines(Apply(root).tree)| == |Pipelines(root)|
    ensures Pipelines(Apply(root).tree)[i].key == Pipelines(root)[i].key
    ensures Items(Pipelines(Apply(root).tree)[i].value) == Extended(Items(Pipelines(root)[i].value))
    ensures forall key | key != "processors" ::
      Value(Pipelines(Apply(root).tree)[i].value, key) == Value(Pipelines(root)[i].value, key)
  {
    PatchedPipelines(root);
    ExtendedPipeline(Pipelines(root)[i].key, Pipelines(root)[i].value);
  }

  /** Beside the pipelines and the processor definitions, nothing changes. */
  lemma PassFrame(root: Tree, key: string)
    requires root.Mapping? && Apply(root).Patched?
    ensures Value(root, "service").Some? && Value(Apply(root).tree, "service").Some?
    ensures key != "processors" && key != "service" ==> Value(Apply(root).tree, key) == Value(root, key)
    ensures key != "pipelines" ==>
      Value(Value(Apply(root).tree, "service").value, key) == Value(Value(root, "service").value, key)
    ensures Value(Apply(root).tree, "processors") == Some(Mapping(Definitions(Processors(root).entries)))
  {
    PatchedValue(root, key);
    PatchedValue(root, "service");
    PatchedValue(root, "processors");
    PutFind(Value(root, "service").value.entries, "pipelines", Mapping(Each(Pipelines(root), ExtendPipeline)), key);
  }

  lemma PassCompletes(root: Tree)
    requires root.Mapping? && Apply(root).Patched?
    ensures Apply(root).tree.Mapping? && Complete(Apply(root).tree)
  {
    PatchedValue(root, "processors");
    PatchedPipelines(root);
    DefinitionsHaveBoth(Processors(root).entries);
    forall i | 0 <= i < |Pipelines(root)| ensures CompletePipeline(Pipelines(Apply(root).tree)[i].value) {
      ExtendedPipeline(Pipelines(root)[i].key, Pipelines(root)[i].value);
    }
  }

  lemma CompleteUnchanged(name: string, pipeline: Tree)
    requires Fit(pipeline)
    ensures Added(Items(pipeline)) == [] <==> CompletePipeline(pipeline)
    ensures CompletePipeline(pipeline) ==> ExtendPipeline(name, pipeline) == pipeline
  {
    if CompletePipeline(pipeline) {
      assert Extended(Items(pipeline)) == Items(pipeline);
      assert Find(pipeline.entries, "processors").Some?;
      PutSame(pipeline.entries, "processors", Sequence(Items(pipeline)));
    }
  }

  lemma {:induction false} QuietPipelines(pipelines: seq<Entry>)
    requires forall i | 0 <= i < |pipelines| :: Fit(pipelines[i].value)
    ensures PipelineChanges(pipelines) == [] <==> forall i | 0 <= i < |pipelines| :: CompletePipeline(pipelines[i].value)
    ensures PipelineChanges(pipelines) == [] ==> Each(pipelines, ExtendPipeline) == pipelines
  {
    hide Fit, CompletePipeline, Items, Added, ExtendPipeline;
    if pipelines == [] { return; }
    QuietPipelines(pipelines[1..]);
    CompleteUnchanged(pipelines[0].key, pipelines[0].value);
    assert pipelines == [pipelines[0]] + pipelines[1..];
    assert Each(pipelines, ExtendPipeline)[1..] == Each(pipelines[1..], ExtendPipeline);
    if forall i | 0 <= i < |pipelines[1..]| :: CompletePipeline(pipelines[1..][i].value) {
      assert forall i | 0 < i < |pipelines| :: pipelines[i] == pipelines[1..][i - 1];
    }
    if forall i | 0 <= i < |pipelines| :: CompletePipeline(pipelines[i].value) {
      assert forall i | 0 <= i < |pipelines[1..]| :: pipelines[1..][i] == pipelines[i + 1];
    }
  }

  /** A pass is silent, and leaves the document as it is, exactly when nothing is missing. */
  lemma QuietIffComplete(root: Tree)
    requires root.Mapping?
    ensures Apply(root) == Patched(root, []) <==> Complete(root)
  {
    UnfitIff(Pipelines(root));
    if Complete(root) {
      DefinitionsHaveBoth(Processors(root).entries);
      QuietPipelines(Pipelines(root));
      PutSame(root.entries, "processors", Processors(root));
      var service := Value(root, "service").value;
      PutSame(service.entries, "pipelines", Mapping(Pipelines(root)));
      PutSame(root.entries, "service", service);
    }
    if Apply(root) == Patched(root, []) { PassCompletes(root); }
  }

  /** A second pass reports no change and makes none. */
  lemma SecondPassQuiet(root: Tree)
    requires root.Mapping? && Apply(root).Patched?
    ensures Apply(Apply(root).tree) == Patched(Apply(root).tree, [])
  {
    PassCompletes(root);
    QuietIffComplete(Apply(root).tree);
  }

  // ---------- Are the references a pass adds defined? ----------

  predicate DefinedIn(root: Tree, name: string) {
    Processors(root).Mapping? && name in Keys(Processors(root).entries)
  }

  /** Every name the pass put into a pipeline is defined afterwards. */
  predicate AddedDefined(root: Tree)
    requires root.Mapping? && Apply(root).Patched?
  {
    forall i, name | 0 <= i < |Pipelines(root)| && name in Added(Items(Pipelines(root)[i].value)) ::
      DefinedIn(Apply(root).tree, name)
  }

  /** The processor type is absent, or one of its instances carries the bare name. */
  predicate AbsentOrBare(entries: seq<Entry>, name: string) {
    !HasType(entries, name) || name in Keys(entries)
  }

  lemma DefineKeys(entries: seq<Entry>, name: string, configuration: Tree)
    ensures Keys(Define(entries, name, configuration)) == if HasType(entries, name) then Keys(entries) else Keys(entries) + [name]
  {
  }

  lemma DefinitionKeys(entries: seq<Entry>, name: string)
    ensures name in Keys(entries) ==> name in Keys(Definitions(entries))
    ensures name == MEMORY_LIMITER || name == BATCH ==>
      (name in Keys(Definitions(entries)) <==> AbsentOrBare(entries, name))
  {
    hide HasType, Define, Keys, ComponentType;
    BareNames();
    var limited := Define(entries, MEMORY_LIMITER, LIMITER_CONFIGURATION);
    DefineKeys(entries, MEMORY_LIMITER, LIMITER_CONFIGURATION);
    DefineKeys(limited, BATCH, Mapping([]));
    DefineSound(entries, MEMORY_LIMITER, LIMITER_CONFIGURATION, BATCH);
    assert Definitions(entries) == Define(limited, BATCH, Mapping([]));
    hide Definitions;
  }

  /** The names a pass adds are defined exactly when each added type was absent or present under its
      bare name. */
  lemma AddedDefinedIff(root: Tree)
    requires root.Mapping? && Apply(root).Patched?
    ensures AddedDefined(root) <==>
      forall i, name | 0 <= i < |Pipelines(root)| && name in Added(Items(Pipelines(root)[i].value)) ::
        AbsentOrBare(Processors(root).entries, name)
  {
    PatchedValue(root, "processors");
    forall i, name | 0 <= i < |Pipelines(root)| && name in Added(Items(Pipelines(root)[i].value))
      ensures DefinedIn(Apply(root).tree, name) <==> AbsentOrBare(Processors(root).entries, name)
    {
      DefinitionKeys(Processors(root).entries, name);
    }
  }

  /** Every processor a pipeline runs through is defined. */
  predicate Closed(root: Tree) {
    forall i, item | 0 <= i < |Pipelines(root)| && item in Items(Pipelines(root)[i].value) && item.Scalar? ::
      DefinedIn(root, item.text)
  }

  /** A pass keeps a closed document closed exactly when the names it adds are defined. */
  lemma ClosedKeptIff(root: Tree)
    requires root.Mapping? && Apply(root).Patched? && Closed(root)
    ensures Closed(Apply(root).tree) <==> AddedDefined(root)
  {
    var result := Apply(root).tree;
    PatchedValue(root, "processors");
    forall i, item: Tree | 0 <= i < |Pipelines(root)|
      ensures i < |Pipelines(result)|
      ensures item in Items(Pipelines(result)[i].value) <==>
        item in Items(Pipelines(root)[i].value) || exists name :: name in Added(Items(Pipelines(root)[i].value)) && item == Text(name)
    {
      PipelinesExtended(root, i);
      ExtendedItems(Items(Pipelines(root)[i].value), item);
    }
    PatchedPipelines(root);
    forall name | DefinedIn(root, name) ensures DefinedIn(result, name) {
      DefinitionKeys(Processors(root).entries, name);
    }
    if Closed(result) {
      forall i, name | 0 <= i < |Pipelines(root)| && name in Added(Items(Pipelines(root)[i].value))
        ensures DefinedIn(result, name)
      {
        assert Text(name) in Items(Pipelines(result)[i].value);
      }
    }
  }

  lemma ExtendedItems(items: seq<Tree>, item: Tree)
    ensures item in Extended(items) <==> item in items || exists name :: name in Added(items) && item == Text(name)
  {
    var front := Missing(ListHasType(items, MEMORY_LIMITER), MEMORY_LIMITER);
    var back := Missing(ListHasType(items, BATCH), BATCH);
    assert Added(items) == front + back;
    forall name | name in front + back ensures Text(name) in Extended(items) {
      if name in front { assert References(front)[0] == Text(name); } else { assert References(back)[0] == Text(name); }
    }
    if item in References(front) { assert item == Text(front[0]) && front[0] in Added(items); }
    if item in References(back) { assert item == Text(back[0]) && back[0] in Added(items); }
  }

  const NAMED_BATCH: seq<Entry> := [Entry("memory_limiter", Mapping([])), Entry("batch/custom", Mapping([]))]
  const PLAIN_PIPELINE: seq<Entry> := [Entry("logs", Mapping([]))]
  const NAMED_BATCH_ONLY: Tree := Mapping([
    Entry("processors", Mapping(NAMED_BATCH)),
    Entry("service", Mapping([Entry("pipelines", Mapping(PLAIN_PIPELINE))]))])

  lemma NamedBatchParts()
    ensures Keyed(NAMED_BATCH_ONLY)
    ensures Processors(NAMED_BATCH_ONLY) == Mapping(NAMED_BATCH) && Pipelines(NAMED_BATCH_ONLY) == PLAIN_PIPELINE
    ensures Apply(NAMED_BATCH_ONLY).Patched?
  {
    assert Keyed(Mapping([]));
    assert Keyed(Mapping(NAMED_BATCH)) && Keyed(Mapping(PLAIN_PIPELINE));
    assert Keyed(Mapping([Entry("pipelines", Mapping(PLAIN_PIPELINE))]));
    assert Value(NAMED_BATCH_ONLY, "processors") == Some(Mapping(NAMED_BATCH));
    assert Find(NAMED_BATCH_ONLY.entries[1..], "service") == Some(Mapping([Entry("pipelines", Mapping(PLAIN_PIPELINE))]));
    assert Value(NAMED_BATCH_ONLY, "service") == Some(Mapping([Entry("pipelines", Mapping(PLAIN_PIPELINE))]));
    UnfitIff(PLAIN_PIPELINE);
  }

  lemma {:induction false} TypeBeforeSlash(name: string, rest: string)
    requires '/' !in name
    ensures ComponentType(name + "/" + rest) == name
  {
    var whole := name + "/" + rest;
    if name == "" {
      assert whole[0] == '/';
    } else {
      assert whole[1..] == name[1..] + "/" + rest;
      TypeBeforeSlash(name[1..], rest);
      assert name == [name[0]] + name[1..];
    }
  }

  lemma NamedBatchNotBare()
    ensures !AbsentOrBare(NAMED_BATCH, BATCH)
  {
    hide ComponentType;
    TypeBeforeSlash(BATCH, "custom");
    assert NAMED_BATCH[1].key == BATCH + "/" + "custom";
    assert Keys(NAMED_BATCH) == ["memory_limiter", "batch/custom"];
    assert |BATCH| == 5;
  }

  /** With only `batch/custom` defined, the pass adds a reference to an undefined `batch`. */
  lemma NamedBatchLeavesDanglingReference()
    ensures Keyed(NAMED_BATCH_ONLY) && Closed(NAMED_BATCH_ONLY) && Apply(NAMED_BATCH_ONLY).Patched?
    ensures !Closed(Apply(NAMED_BATCH_ONLY).tree)
  {
    NamedBatchParts();
    assert Items(PLAIN_PIPELINE[0].value) == [];
    assert BATCH in Added(Items(PLAIN_PIPELINE[0].value));
    NamedBatchNotBare();
    hide *;
    AddedDefinedIff(NAMED_BATCH_ONLY);
    ClosedKeptIff(NAMED_BATCH_ONLY);
  }

  // ---------- The baseline and the layout together ----------

  /** A text with line feeds alone and without surrounding blanks. */
  function NormalizedText(text: string): string {
    Texts.Trim(Texts.LineFeeds(text))
  }

  /** A changed layout is reported first, when the text changes. */
  function Restyled(before: string, after: string, changes: seq<Change>): seq<Change> {
    if NormalizedText(before) != NormalizedText(after) then [Layout] + changes else changes
  }

  /** Standardises the document a text decodes to; `print` gives the text of a document. */
  function Standardize(text: string, root: Tree, applyBaseline: bool, rendered: Tree -> string): Outcome {
    if !Importable(root) then Refused(NotImportable)
    else if !applyBaseline then Patched(Canonical(root), Restyled(text, rendered(Canonical(root)), []))
    else
      match Apply(root)
      case Patched(tree, changes) => Patched(Canonical(tree), Restyled(text, rendered(Canonical(tree)), changes))
      case Refused(problem) => Refused(problem)
  }

  lemma ContentHasType(entries: seq<Entry>, componentType: string)
    ensures HasType(entries, componentType) <==> exists key :: key in Content(entries) && ComponentType(key) == componentType
  {
    ContentKeys(entries);
    if HasType(entries, componentType) {
      var i :| 0 <= i < |entries| && ComponentType(entries[i].key) == componentType;
      assert Keys(entries)[i] in Content(entries);
    }
    if key :| key in Content(entries) && ComponentType(key) == componentType {
      var i: nat :| i < |entries| && Keys(entries)[i] == key;
      assert 0 <= i < |entries| && ComponentType(entries[i].key) == componentType;
    }
  }

  lemma SameValues(x: seq<Entry>, y: seq<Entry>, i: nat) returns (j: nat)
    requires Distinct(Keys(x)) && Distinct(Keys(y)) && Content(x) == Content(y) && i < |y|
    ensures j < |x| && x[j] == y[i]
  {
    ContentAt(y, i);
    ContentKeys(x);
    j :| j < |x| && Keys(x)[j] == y[i].key;
    ContentAt(x, j);
  }

  lemma SamePipelines(s: Tree, t: Tree, x: seq<Entry>)
    requires Keyed(s) && Keyed(t) && SameService(s, t)
    requires Value(s, "pipelines") == Some(Mapping(x)) && x != []
    requires forall i | 0 <= i < |x| :: CompletePipeline(x[i].value)
    ensures Value(t, "pipelines").Some? && Value(t, "pipelines").value.Mapping?
    ensures Value(t, "pipelines").value.entries != []
    ensures forall i | 0 <= i < |Value(t, "pipelines").value.entries| ::
      CompletePipeline(Value(t, "pipelines").value.entries[i].value)
  {
    hide CompletePipeline;
    if s == t { return; }
    ValueContent(s, "pipelines");
    ValueContent(t, "pipelines");
    assert SameServiceEntry("pipelines", Content(s.entries)["pipelines"], Content(t.entries)["pipelines"]);
    var y := Value(t, "pipelines").value.entries;
    KeyedContent(s.entries, "pipelines");
    KeyedContent(t.entries, "pipelines");
    assert x[0].key in Content(x);
    forall i | 0 <= i < |y| ensures CompletePipeline(y[i].value) {
      var j := SameValues(x, y, i);
    }
  }

  lemma SameTypes(a: Tree, b: Tree, name: string)
    requires SameEntries(a, b) && a.Mapping? && HasType(a.entries, name)
    ensures b.Mapping? && HasType(b.entries, name)
  {
    ContentHasType(a.entries, name);
    ContentHasType(b.entries, name);
  }

  /** Being complete does not depend on the order of entries. */
  lemma CompleteSame(a: Tree, b: Tree)
    requires Keyed(a) && Keyed(b) && SameDocument(a, b) && Complete(a)
    ensures b.Mapping? && Complete(b)
  {
    hide HasType, CompletePipeline;
    if a == b { return; }
    ValueContent(a, "processors");
    ValueContent(b, "processors");
    ValueContent(a, "service");
    ValueContent(b, "service");
    var p, q := Value(a, "processors").value, Value(b, "processors").value;
    assert SameSection("processors", p, q);
    SameTypes(p, q, MEMORY_LIMITER);
    SameTypes(p, q, BATCH);
    var s, t := Value(a, "service").value, Value(b, "service").value;
    assert SameSection("service", s, t);
    KeyedContent(a.entries, "service");
    KeyedContent(b.entries, "service");
    SamePipelines(s, t, Pipelines(a));
  }

  lemma DefineKeyed(entries: seq<Entry>, name: string, configuration: Tree)
    requires Keyed(Mapping(entries)) && Keyed(configuration) && ComponentType(name) == name
    ensures Keyed(Mapping(Define(entries, name, configuration)))
  {
    if !HasType(entries, name) {
      forall i | 0 <= i < |entries| ensures entries[i].key != name { }
      DefineKeys(entries, name, configuration);
    }
  }

  lemma ExtendedKeyed(name: string, pipeline: Tree)
    requires Keyed(pipeline)
    ensures Keyed(ExtendPipeline(name, pipeline))
  {
    if Fit(pipeline) {
      var items := Items(pipeline);
      if Find(pipeline.entries, "processors").Some? {
        ValueContent(pipeline, "processors");
        KeyedContent(pipeline.entries, "processors");
      }
      assert Keyed(Sequence(items));
      assert Keyed(Sequence(Extended(items)));
      PutKeyed(pipeline.entries, "processors", Sequence(Extended(items)));
    }
  }

  lemma LimiterKeyed()
    ensures Keyed(LIMITER_CONFIGURATION) && Keyed(Mapping([]))
  {
    var keys := Keys(LIMITER_CONFIGURATION.entries);
    assert |keys[0]| == 14 && |keys[1]| == 9 && |keys[2]| == 15;
  }

  lemma DefinitionsKeyed(entries: seq<Entry>)
    requires Keyed(Mapping(entries))
    ensures Keyed(Mapping(Definitions(entries)))
  {
    hide Keyed, HasType, Define, ComponentType;
    BareNames();
    LimiterKeyed();
    DefineKeyed(entries, MEMORY_LIMITER, LIMITER_CONFIGURATION);
    DefineKeyed(Define(entries, MEMORY_LIMITER, LIMITER_CONFIGURATION), BATCH, Mapping([]));
  }

  lemma PipelinesKeyed(pipelines: seq<Entry>)
    requires Keyed(Mapping(pipelines))
    ensures Keyed(Mapping(Each(pipelines, ExtendPipeline)))
  {
    var result := Each(pipelines, ExtendPipeline);
    forall i | 0 <= i < |result| ensures Keyed(result[i].value) { ExtendedKeyed(pipelines[i].key, pipelines[i].value); }
    EachContent(pipelines, ExtendPipeline);
  }

  lemma PatchedServiceKeyed(root: Tree)
    requires Value(root, "service").Some? && Value(root, "service").value.Mapping?
    requires Keyed(Value(root, "service").value) && Keyed(Mapping(Each(Pipelines(root), ExtendPipeline)))
    ensures Keyed(PatchedService(root))
  {
    PutKeyed(Value(root, "service").value.entries, "pipelines", Mapping(Each(Pipelines(root), ExtendPipeline)));
  }

  lemma ProcessorsKeyed(root: Tree)
    requires Keyed(root) && Processors(root).Mapping?
    ensures Keyed(Mapping(Processors(root).entries))
  {
    if Value(root, "processors").Some? { ValueKeyed(root, "processors"); }
  }

  lemma PassKeyed(root: Tree)
    requires root.Mapping? && Keyed(root) && Apply(root).Patched?
    ensures Keyed(Apply(root).tree)
  {
    PatchedValue(root, "service");
    assert Apply(root).tree == Mapping(Put(Put(root.entries, "processors", Mapping(Definitions(Processors(root).entries))),
                                           "service", PatchedService(root)));
    assert Value(Value(root, "service").value, "pipelines") == Some(Mapping(Pipelines(root)));
    assert Keyed(Mapping([]));
    hide *;
    ValueKeyed(root, "service");
    ValueKeyed(Value(root, "service").value, "pipelines");
    PipelinesKeyed(Pipelines(root));
    PatchedServiceKeyed(root);
    ProcessorsKeyed(root);
    DefinitionsKeyed(Processors(root).entries);
    PutKeyed(root.entries, "processors", Mapping(Definitions(Processors(root).entries)));
    PutKeyed(Put(root.entries, "processors", Mapping(Definitions(Processors(root).entries))), "service", PatchedService(root));
  }

  lemma PassImportable(root: Tree)
    requires Importable(root) && Apply(root).Patched?
    ensures Importable(Apply(root).tree)
  {
    var result := Apply(root).tree;
    PassKeyed(root);
    PassCompletes(root);
    forall key | key in Content(result.entries) ensures ImportableSection(key, Content(result.entries)[key]) {
      PatchedValue(root, key);
      ValueContent(root, key);
      ValueContent(result, key);
      if key == "service" {
        PutFind(Value(root, "service").value.entries, "pipelines", Mapping(Each(Pipelines(root), ExtendPipeline)), "pipelines");
      }
    }
  }

  /** Standardising a standardised document, as printed, changes nothing and reports nothing. */
  lemma StandardizeIdempotent(text: string, root: Tree, applyBaseline: bool, rendered: Tree -> string)
    requires Standardize(text, root, applyBaseline, rendered).Patched?
    ensures var tree := Standardize(text, root, applyBaseline, rendered).tree;
      Standardize(rendered(tree), tree, applyBaseline, rendered) == Patched(tree, [])
  {
    if !applyBaseline {
      CanonicalImportable(root);
      CanonicalIdempotent(root);
      return;
    }
    hide Complete, Canonical;
    PassKeyed(root);
    PassImportable(root);
    PassCompletes(root);
    var patched := Apply(root).tree;
    CanonicalImportable(patched);
    CanonicalSame(patched);
    CompleteSame(patched, Canonical(patched));
    QuietIffComplete(Canonical(patched));
    CanonicalIdempotent(patched);
  }
}
