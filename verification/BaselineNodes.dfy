/** The baseline pass over the nodes of a document, in place. */
module BaselineNodes {
  import opened Wrappers
  import opened CollectorTree
  import opened CollectorNodes
  import opened Baseline

  method MappingHasComponentType(mapping: Node, componentType: string) returns (found: bool)
    requires mapping.Valid() && mapping.kind == MappingNode
    ensures mapping.tree.Mapping? && found == HasType(mapping.tree.entries, componentType)
  {
    PairCount(mapping);
    hide Node.Valid, ComponentType;
    var i := 0;
    while 2 * i < |mapping.content|
      invariant i <= |mapping.tree.entries|
      invariant forall j | 0 <= j < i :: ComponentType(mapping.tree.entries[j].key) != componentType
    {
      ChildShown(mapping, i);
      if ComponentType(mapping.content[2 * i].value) == componentType { return true; }
      i := i + 1;
    }
    found := false;
  }

  lemma OwnItems(list: Node)
    requires list.Valid() && list.kind == SequenceNode
    ensures list.tree.Sequence? && |list.content| == |list.tree.items|
    ensures forall i | 0 <= i < |list.content| ::
      && list.tree.items[i] == list.content[i].tree
      && (list.content[i].kind == ScalarNode <==> list.tree.items[i].Scalar?)
      && (list.content[i].kind == ScalarNode ==> list.tree.items[i].text == list.content[i].value)
  {
    forall i | 0 <= i < |list.content| ensures list.content[i].Valid() { }
  }

  method SequenceHasComponentType(list: Node, componentType: string) returns (found: bool)
    requires list.Valid() && list.kind == SequenceNode
    ensures list.tree.Sequence? && found == ListHasType(list.tree.items, componentType)
  {
    OwnItems(list);
    hide Node.Valid;
    for i := 0 to |list.content|
      invariant forall j | 0 <= j < i ::
        !(list.tree.items[j].Scalar? && ComponentType(list.tree.items[j].text) == componentType)
    {
      var item := list.content[i];
      if item.kind == ScalarNode && ComponentType(item.value) == componentType { return true; }
    }
    found := false;
  }

  method TextNode(value: string) returns (node: Node)
    ensures node.Valid() && fresh(node.repr) && node.tree == Text(value)
  {
    node := new Node(ScalarNode, "!!str", value);
  }

  method AppendScalar(mapping: Node, key: string, tag: string, text: string)
    requires mapping.Valid() && mapping.kind == MappingNode && mapping.tree.Mapping?
    modifies mapping
    ensures mapping.Valid() && mapping.repr >= old(mapping.repr) && fresh(mapping.repr - old(mapping.repr))
    ensures mapping.tree == Mapping(old(mapping.tree.entries) + [Entry(key, Scalar(tag, text))])
  {
    hide *;
    var value := new Node(ScalarNode, tag, text);
    assert value !in mapping.repr;
    AppendPair(mapping, key, value);
  }

  lemma LimiterEntries()
    ensures LIMITER_CONFIGURATION == Mapping([] + [Entry("check_interval", Scalar("!!str", "1s"))]
                                               + [Entry("limit_mib", Scalar("!!int", "512"))]
                                               + [Entry("spike_limit_mib", Scalar("!!int", "128"))])
  {
  }

  method NewLimiter() returns (limiter: Node)
    ensures limiter.Valid() && fresh(limiter.repr) && limiter.tree == LIMITER_CONFIGURATION
  {
    LimiterEntries();
    hide *;
    limiter := new Node(MappingNode, "!!map", "");
    AppendScalar(limiter, "check_interval", "!!str", "1s");
    AppendScalar(limiter, "limit_mib", "!!int", "512");
    AppendScalar(limiter, "spike_limit_mib", "!!int", "128");
  }

  /** Defines the processor, with or without limits, unless one of its type is there. */
  method DefineProcessor(processors: Node, name: string, limits: bool) returns (changes: seq<Change>)
    requires processors.Valid() && processors.kind == MappingNode && processors.tree.Mapping?
    modifies processors
    ensures processors.Valid() && processors.repr >= old(processors.repr) && fresh(processors.repr - old(processors.repr))
    ensures processors.tree == Mapping(Define(old(processors.tree.entries), name, if limits then LIMITER_CONFIGURATION else Mapping([])))
    ensures changes == if HasType(old(processors.tree.entries), name) then [] else [Defined(name)]
  {
    hide Node.Valid, HasType;
    changes := [];
    var defined := MappingHasComponentType(processors, name);
    if !defined {
      var node;
      if limits { node := NewLimiter(); } else { node := new Node(MappingNode, "!!map", ""); }
      assert node.repr !! processors.repr;
      AppendPair(processors, name, node);
      changes := [Defined(name)];
    }
  }

  lemma DefinitionSteps(entries: seq<Entry>)
    ensures var limited := Define(entries, MEMORY_LIMITER, LIMITER_CONFIGURATION);
      && Definitions(entries) == Define(limited, BATCH, Mapping([]))
      && DefinitionChanges(entries) == (if HasType(entries, MEMORY_LIMITER) then [] else [Defined(MEMORY_LIMITER)]) +
                                       (if HasType(limited, BATCH) then [] else [Defined(BATCH)])
  {
    BareNames();
    DefineSound(entries, MEMORY_LIMITER, LIMITER_CONFIGURATION, BATCH);
  }

  method DefineProcessors(processors: Node) returns (changes: seq<Change>)
    requires processors.Valid() && processors.kind == MappingNode && processors.tree.Mapping?
    modifies processors
    ensures processors.Valid() && processors.repr >= old(processors.repr) && fresh(processors.repr - old(processors.repr))
    ensures processors.tree == Mapping(Definitions(old(processors.tree.entries)))
    ensures changes == DefinitionChanges(old(processors.tree.entries))
  {
    DefinitionSteps(processors.tree.entries);
    hide *;
    var first := DefineProcessor(processors, MEMORY_LIMITER, true);
    var second := DefineProcessor(processors, BATCH, false);
    changes := first + second;
  }

  lemma ExtensionSteps(items: seq<Tree>)
    ensures var limited := if ListHasType(items, MEMORY_LIMITER) then items else [Text(MEMORY_LIMITER)] + items;
      && Extended(items) == (if ListHasType(limited, BATCH) then limited else limited + [Text(BATCH)])
      && Added(items) == (if ListHasType(items, MEMORY_LIMITER) then [] else [MEMORY_LIMITER]) +
                         (if ListHasType(limited, BATCH) then [] else [BATCH])
  {
    FrontKeepsBatch(items);
    hide ListHasType, ComponentType;
    assert References([MEMORY_LIMITER]) == [Text(MEMORY_LIMITER)] && References([BATCH]) == [Text(BATCH)];
    assert References([]) == [];
  }

  method PrependMissing(list: Node, name: string) returns (added: seq<string>)
    requires list.Valid() && list.kind == SequenceNode && list.tree.Sequence?
    modifies list
    ensures list.Valid() && list.repr >= old(list.repr) && fresh(list.repr - old(list.repr))
    ensures var items := old(list.tree.items);
      && list.tree == Sequence(if ListHasType(items, name) then items else [Text(name)] + items)
      && added == if ListHasType(items, name) then [] else [name]
  {
    hide *;
    added := [];
    var found := SequenceHasComponentType(list, name);
    if !found {
      var item := TextNode(name);
      Prepend(list, item);
      added := [name];
    }
  }

  method AppendMissing(list: Node, name: string) returns (added: seq<string>)
    requires list.Valid() && list.kind == SequenceNode && list.tree.Sequence?
    modifies list
    ensures list.Valid() && list.repr >= old(list.repr) && fresh(list.repr - old(list.repr))
    ensures var items := old(list.tree.items);
      && list.tree == Sequence(if ListHasType(items, name) then items else items + [Text(name)])
      && added == if ListHasType(items, name) then [] else [name]
  {
    hide *;
    added := [];
    var found := SequenceHasComponentType(list, name);
    if !found {
      var item := TextNode(name);
      Append(list, item);
      added := [name];
    }
  }

  method ExtendList(list: Node) returns (added: seq<string>)
    requires list.Valid() && list.kind == SequenceNode && list.tree.Sequence?
    modifies list
    ensures list.Valid() && list.repr >= old(list.repr) && fresh(list.repr - old(list.repr))
    ensures list.tree == Sequence(Extended(old(list.tree.items)))
    ensures added == Added(old(list.tree.items))
  {
    ExtensionSteps(list.tree.items);
    hide *;
    var front := PrependMissing(list, MEMORY_LIMITER);
    var back := AppendMissing(list, BATCH);
    added := front + back;
  }

  lemma FrontKeepsBatch(items: seq<Tree>)
    ensures ListHasType([Text(MEMORY_LIMITER)] + items, BATCH) <==> ListHasType(items, BATCH)
  {
    BareNames();
    hide ComponentType;
    var longer := [Text(MEMORY_LIMITER)] + items;
    if ListHasType(items, BATCH) {
      var i: nat :| i < |items| && items[i].Scalar? && ComponentType(items[i].text) == BATCH;
      ListTypeAt(longer, i + 1, BATCH);
    }
    if ListHasType(longer, BATCH) {
      var i: nat :| i < |longer| && longer[i].Scalar? && ComponentType(longer[i].text) == BATCH;
      if i > 0 { ListTypeAt(items, i - 1, BATCH); }
    }
  }

  // ---------- Pipelines ----------

  method ExtendListOf(pipeline: Node, list: Node, ghost index: nat) returns (added: seq<string>)
    requires pipeline.Valid() && pipeline.kind == MappingNode && pipeline.tree.Mapping?
    requires 2 * index + 1 < |pipeline.content| && pipeline.content[2 * index + 1] == list && index < |pipeline.tree.entries|
    requires list.kind == SequenceNode && list.tree.Sequence?
    modifies list, pipeline`tree, pipeline`repr
    ensures pipeline.Valid() && pipeline.repr >= old(pipeline.repr) && fresh(pipeline.repr - old(pipeline.repr))
    ensures pipeline.tree == Mapping(old(pipeline.tree.entries)[index :=
      Entry(old(pipeline.tree.entries)[index].key, Sequence(Extended(old(list.tree.items))))])
    ensures added == Added(old(list.tree.items))
  {
    ghost var reprs := Children(pipeline);
    hide *;
    ghost var entries := pipeline.tree.entries;
    added := ExtendList(list);
    forall j | 0 <= j < |pipeline.content| && j != 2 * index + 1
      ensures unchanged(pipeline.content[j]) && pipeline.content[j].Valid() && pipeline.content[j].repr !! list.repr
    {
      ApartAt(reprs, j, 2 * index + 1);
    }
    ChildReplaced(pipeline, pipeline.repr + list.repr, index, entries, reprs);
    pipeline.Refresh(pipeline.repr + list.repr);
  }

  lemma ExtensionAt(name: string, pipeline: Tree, index: nat)
    requires pipeline.Mapping? && FirstAt(pipeline.entries, index, "processors")
    ensures index < |pipeline.entries| && pipeline.entries[index].key == "processors"
    ensures Fit(pipeline) <==> pipeline.entries[index].value.Sequence?
    ensures Fit(pipeline) ==>
      && Items(pipeline) == pipeline.entries[index].value.items
      && ExtendPipeline(name, pipeline)
         == Mapping(pipeline.entries[index := Entry("processors", Sequence(Extended(pipeline.entries[index].value.items)))])
  {
    hide Extended, Put, FirstAt;
    PutFirst(pipeline.entries, index, "processors", Sequence(Extended(Items(pipeline))));
  }

  lemma ExtensionAppended(name: string, pipeline: Tree)
    requires pipeline.Mapping? && Value(pipeline, "processors").None?
    ensures Fit(pipeline) && Items(pipeline) == []
    ensures ExtendPipeline(name, pipeline) == Mapping(
      (pipeline.entries + [Entry("processors", Sequence([]))])[|pipeline.entries| := Entry("processors", Sequence(Extended([])))])
  {
    hide Extended, Put;
    PutAbsent(pipeline.entries, "processors", Sequence(Extended([])));
  }

  /** The node that lists a pipeline's processors; it is created when absent. */
  method ProcessorList(pipeline: Node, ghost name: string) returns (list: Node, ghost index: nat)
    requires pipeline.Valid() && pipeline.kind == MappingNode && pipeline.tree.Mapping?
    modifies pipeline
    ensures pipeline.Valid() && pipeline.repr >= old(pipeline.repr) && fresh(pipeline.repr - old(pipeline.repr))
    ensures pipeline.tree.Mapping? && 2 * index + 1 < |pipeline.content| && index < |pipeline.tree.entries|
    ensures pipeline.content[2 * index + 1] == list
    ensures (list.kind == SequenceNode <==> list.tree.Sequence?) && (list.tree.Sequence? <==> Fit(old(pipeline.tree)))
    ensures list.tree.Sequence? ==>
      && Items(old(pipeline.tree)) == list.tree.items
      && ExtendPipeline(name, old(pipeline.tree)) == Mapping(pipeline.tree.entries[index :=
           Entry(pipeline.tree.entries[index].key, Sequence(Extended(list.tree.items)))])
  {
    PairCount(pipeline);
    hide *;
    var found;
    found, index := MappingValue(pipeline, "processors");
    if found == null {
      ExtensionAppended(name, pipeline.tree);
      list := new Node(SequenceNode, "!!seq", "");
      index := |pipeline.tree.entries|;
      AppendPair(pipeline, "processors", list);
    } else {
      ExtensionAt(name, pipeline.tree, index);
      KindShown(found);
      list := found;
    }
  }

  method ExtendPipelineNode(name: string, pipeline: Node) returns (problem: Option<Problem>, added: seq<string>)
    requires pipeline.Valid()
    modifies pipeline.repr
    ensures problem ==
      if pipeline.kind != MappingNode then Some(PipelineNotMapping(name))
      else if !Fit(old(pipeline.tree)) then Some(ProcessorListNotSequence(name))
      else None
    ensures problem.None? ==>
      && pipeline.Valid() && pipeline.repr >= old(pipeline.repr) && fresh(pipeline.repr - old(pipeline.repr))
      && pipeline.tree == ExtendPipeline(name, old(pipeline.tree)) && added == Added(Items(old(pipeline.tree)))
  {
    KindShown(pipeline);
    hide *;
    added := [];
    if pipeline.kind != MappingNode { return Some(PipelineNotMapping(name)), []; }
    var list, index := ProcessorList(pipeline, name);
    if list.kind != SequenceNode { return Some(ProcessorListNotSequence(name)), []; }
    OwnList(pipeline, list, index);
    added := ExtendListOf(pipeline, list, index);
    problem := None;
  }

  lemma OwnList(pipeline: Node, list: Node, index: nat)
    requires pipeline.Valid() && pipeline.kind == MappingNode
    requires 2 * index + 1 < |pipeline.content| && pipeline.content[2 * index + 1] == list
    ensures list in pipeline.repr && list != pipeline
  {
    ChildOf(pipeline, index);
  }

  /** What one pipeline refuses. */
  function Refuses(entry: Entry): Option<Problem> {
    if !entry.value.Mapping? then Some(PipelineNotMapping(entry.key))
    else if !Fit(entry.value) then Some(ProcessorListNotSequence(entry.key))
    else None
  }

  method ExtendOne(pipelines: Node, i: nat) returns (problem: Option<Problem>, changes: seq<Change>)
    requires pipelines.Valid() && pipelines.kind == MappingNode && pipelines.tree.Mapping?
    requires i < |pipelines.tree.entries| && |pipelines.content| == 2 * |pipelines.tree.entries|
    modifies pipelines.repr
    ensures pipelines.content == old(pipelines.content)
    ensures var entry := old(pipelines.tree.entries[i]);
      && problem == Refuses(entry)
      && (problem.None? ==>
        && pipelines.Valid() && pipelines.repr >= old(pipelines.repr) && fresh(pipelines.repr - old(pipelines.repr))
        && pipelines.tree == Mapping(old(pipelines.tree.entries)[i := Entry(entry.key, ExtendPipeline(entry.key, entry.value))])
        && changes == ChangeOf(entry.key, Added(Items(entry.value))))
  {
    ghost var reprs := Children(pipelines);
    ghost var entries := pipelines.tree.entries;
    var pipeline := pipelines.content[2 * i + 1];
    KindShown(pipeline);
    assert Refuses(entries[i]) == if !entries[i].value.Mapping? then Some(PipelineNotMapping(entries[i].key))
      else if !Fit(entries[i].value) then Some(ProcessorListNotSequence(entries[i].key)) else None;
    hide *;
    var added;
    problem, added := ExtendPipelineNode(pipelines.content[2 * i].value, pipeline);
    changes := ChangeOf(pipelines.content[2 * i].value, added);
    if problem.Some? { return; }
    forall j | 0 <= j < |pipelines.content| && j != 2 * i + 1
      ensures unchanged(pipelines.content[j]) && pipelines.content[j].Valid() && pipelines.content[j].repr !! pipeline.repr
    {
      ApartAt(reprs, j, 2 * i + 1);
    }
    ChildReplaced(pipelines, pipelines.repr + pipeline.repr, i, entries, reprs);
    pipelines.Refresh(pipelines.repr + pipeline.repr);
  }

  lemma {:induction false} ChangesSnoc(pipelines: seq<Entry>, entry: Entry)
    ensures PipelineChanges(pipelines + [entry]) == PipelineChanges(pipelines) + ChangeOf(entry.key, Added(Items(entry.value)))
  {
    hide Added, Items, ChangeOf;
    if pipelines == [] {
      assert [] + [entry] == [entry];
      assert [entry][1..] == [];
    } else {
      assert (pipelines + [entry])[1..] == pipelines[1..] + [entry];
      ChangesSnoc(pipelines[1..], entry);
    }
  }

  /** The first pipelines are extended, the others are not yet. */
  function Through(entries: seq<Entry>, i: nat): seq<Entry>
    requires i <= |entries|
  {
    Each(entries[..i], ExtendPipeline) + entries[i..]
  }

  lemma ThroughStep(entries: seq<Entry>, i: nat)
    requires i < |entries|
    ensures Through(entries, i)[i] == entries[i]
    ensures Through(entries, i)[i := Entry(entries[i].key, ExtendPipeline(entries[i].key, entries[i].value))] == Through(entries, i + 1)
    ensures |Through(entries, i)| == |entries|
    ensures PipelineChanges(entries[..i + 1])
         == PipelineChanges(entries[..i]) + ChangeOf(entries[i].key, Added(Items(entries[i].value)))
    ensures Unfit(entries[i..]) == if Refuses(entries[i]).Some? then Refuses(entries[i]) else Unfit(entries[i + 1..])
  {
    hide ExtendPipeline, PipelineChanges, Added, Items, ChangeOf;
    ChangesSnoc(entries[..i], entries[i]);
    assert entries[..i + 1] == entries[..i] + [entries[i]];
    assert entries[i..][1..] == entries[i + 1..];
  }

  /** The first pipelines have been extended and reported, and none of them was refused. */
  predicate At(entries: seq<Entry>, i: nat, tree: Tree, changes: seq<Change>) {
    && i <= |entries| && tree == Mapping(Through(entries, i))
    && changes == PipelineChanges(entries[..i])
    && Unfit(entries) == Unfit(entries[i..])
  }

  lemma AtStart(entries: seq<Entry>)
    ensures At(entries, 0, Mapping(entries), [])
  {
    assert Through(entries, 0) == entries && entries[0..] == entries;
  }

  lemma AtEnd(entries: seq<Entry>, tree: Tree, changes: seq<Change>)
    requires At(entries, |entries|, tree, changes)
    ensures tree == Mapping(Each(entries, ExtendPipeline)) && changes == PipelineChanges(entries) && Unfit(entries) == None
  {
    hide ExtendPipeline, PipelineChanges;
    assert entries[..|entries|] == entries;
  }

  lemma AtNext(entries: seq<Entry>, i: nat, tree: Tree, changes: seq<Change>)
    requires At(entries, i, tree, changes) && i < |entries|
    ensures tree.Mapping? && |tree.entries| == |entries| && tree.entries[i] == entries[i]
    ensures Refuses(entries[i]).Some? ==> Unfit(entries) == Refuses(entries[i])
    ensures Refuses(entries[i]).None? ==>
      At(entries, i + 1,
         Mapping(tree.entries[i := Entry(entries[i].key, ExtendPipeline(entries[i].key, entries[i].value))]),
         changes + ChangeOf(entries[i].key, Added(Items(entries[i].value))))
  {
    hide Through, PipelineChanges, ChangeOf, Added, Items, ExtendPipeline, Refuses;
    ThroughStep(entries, i);
  }

  method ExtendPipelines(pipelines: Node) returns (problem: Option<Problem>, changes: seq<Change>)
    requires pipelines.Valid() && pipelines.kind == MappingNode && pipelines.tree.Mapping?
    modifies pipelines.repr
    ensures problem == Unfit(old(pipelines.tree.entries))
    ensures problem.None? ==>
      && pipelines.Valid() && pipelines.repr >= old(pipelines.repr) && fresh(pipelines.repr - old(pipelines.repr))
      && pipelines.tree == Mapping(Each(old(pipelines.tree.entries), ExtendPipeline))
      && changes == PipelineChanges(old(pipelines.tree.entries))
  {
    hide *;
    PairCount(pipelines);
    ghost var entries := pipelines.tree.entries;
    AtStart(entries);
    changes := [];
    var i := 0;
    while 2 * i < |pipelines.content|
      invariant i <= |entries| && |pipelines.content| == 2 * |entries|
      invariant pipelines.Valid() && pipelines.repr >= old(pipelines.repr) && fresh(pipelines.repr - old(pipelines.repr))
      invariant At(entries, i, pipelines.tree, changes)
    {
      AtNext(entries, i, pipelines.tree, changes);
      var more;
      problem, more := ExtendOne(pipelines, i);
      if problem.Some? { return; }
      changes := changes + more;
      i := i + 1;
    }
    AtEnd(entries, pipelines.tree, changes);
    problem := None;
  }

  // ---------- The service and the document ----------

  function ServiceProblem(service: Tree): Option<Problem> {
    if !service.Mapping? then Some(ServiceNotMapping)
    else
      match Value(service, "pipelines")
      case Some(Mapping(pipelines)) => if pipelines == [] then Some(NoPipelines) else Unfit(pipelines)
      case _ => Some(NoPipelines)
  }

  function ServicePipelines(service: Tree): seq<Entry> {
    match Value(service, "pipelines") case Some(Mapping(pipelines)) => pipelines case _ => []
  }

  function ExtendedService(service: Tree): Tree
    requires service.Mapping?
  {
    Mapping(Put(service.entries, "pipelines", Mapping(Each(ServicePipelines(service), ExtendPipeline))))
  }

  lemma ServiceAt(service: Tree, i: nat)
    requires service.Mapping? && FirstAt(service.entries, i, "pipelines")
    ensures i < |service.entries|
    ensures var pipelines := service.entries[i].value;
      && ServiceProblem(service) == (if !pipelines.Mapping? || pipelines.entries == [] then Some(NoPipelines) else Unfit(pipelines.entries))
      && (pipelines.Mapping? ==>
        && ServicePipelines(service) == pipelines.entries
        && ExtendedService(service) == Mapping(service.entries[i :=
             Entry(service.entries[i].key, Mapping(Each(pipelines.entries, ExtendPipeline)))]))
  {
    hide Unfit, Each, ExtendPipeline, Put, FirstAt;
    PutFirst(service.entries, i, "pipelines", Mapping(Each(ServicePipelines(service), ExtendPipeline)));
  }

  lemma ServiceWithout(service: Tree)
    requires service.Mapping? ==> Value(service, "pipelines").None?
    ensures ServiceProblem(service) == Some(if service.Mapping? then NoPipelines else ServiceNotMapping)
  {
  }

  method ExtendPipelinesOf(service: Node, pipelines: Node, ghost index: nat) returns (problem: Option<Problem>, changes: seq<Change>)
    requires service.Valid() && service.kind == MappingNode && service.tree.Mapping?
    requires 2 * index + 1 < |service.content| && service.content[2 * index + 1] == pipelines && index < |service.tree.entries|
    requires pipelines.kind == MappingNode && pipelines.tree.Mapping?
    modifies service.repr
    ensures problem == Unfit(old(pipelines.tree.entries))
    ensures problem.None? ==>
      && service.Valid() && service.repr >= old(service.repr) && fresh(service.repr - old(service.repr))
      && service.tree == Mapping(old(service.tree.entries)[index :=
           Entry(old(service.tree.entries)[index].key, Mapping(Each(old(pipelines.tree.entries), ExtendPipeline)))])
      && changes == PipelineChanges(old(pipelines.tree.entries))
  {
    ghost var reprs := Children(service);
    hide *;
    ghost var entries := service.tree.entries;
    problem, changes := ExtendPipelines(pipelines);
    if problem.Some? { return; }
    forall j | 0 <= j < |service.content| && j != 2 * index + 1
      ensures unchanged(service.content[j]) && service.content[j].Valid() && service.content[j].repr !! pipelines.repr
    {
      ApartAt(reprs, j, 2 * index + 1);
    }
    ChildReplaced(service, service.repr + pipelines.repr, index, entries, reprs);
    service.Refresh(service.repr + pipelines.repr);
  }

  method ExtendService(service: Node) returns (problem: Option<Problem>, changes: seq<Change>)
    requires service.Valid()
    modifies service.repr
    ensures problem == ServiceProblem(old(service.tree))
    ensures problem.None? ==>
      && old(service.tree).Mapping?
      && service.Valid() && service.repr >= old(service.repr) && fresh(service.repr - old(service.repr))
      && service.tree == ExtendedService(old(service.tree))
      && changes == PipelineChanges(ServicePipelines(old(service.tree)))
  {
    KindShown(service);
    hide *;
    changes := [];
    if service.kind != MappingNode {
      ServiceWithout(service.tree);
      return Some(ServiceNotMapping), [];
    }
    var pipelines, index := MappingValue(service, "pipelines");
    if pipelines == null {
      ServiceWithout(service.tree);
      return Some(NoPipelines), [];
    }
    ServiceAt(service.tree, index);
    PairCount(service);
    ChildShown(service, index);
    KindShown(pipelines);
    if pipelines.kind != MappingNode { return Some(NoPipelines), []; }
    PairCount(pipelines);
    if |pipelines.content| == 0 { return Some(NoPipelines), []; }
    problem, changes := ExtendPipelinesOf(service, pipelines, index);
  }

  function WithDefinitions(root: Tree): Tree
    requires root.Mapping? && Processors(root).Mapping?
  {
    Mapping(Put(root.entries, "processors", Mapping(Definitions(Processors(root).entries))))
  }

  lemma SectionAt(root: Tree, i: nat)
    requires root.Mapping? && FirstAt(root.entries, i, "processors")
    ensures i < |root.entries| && root.entries[i].key == "processors" && Processors(root) == root.entries[i].value
    ensures Processors(root).Mapping? ==>
      WithDefinitions(root) == Mapping(root.entries[i := Entry("processors", Mapping(Definitions(Processors(root).entries)))])
  {
    hide Definitions, Put, FirstAt;
    if Processors(root).Mapping? {
      PutFirst(root.entries, i, "processors", Mapping(Definitions(Processors(root).entries)));
    } else {
      PutFirst(root.entries, i, "processors", Mapping([]));
    }
  }

  lemma SectionAppended(root: Tree)
    requires root.Mapping? && Value(root, "processors").None?
    ensures Processors(root) == Mapping([])
    ensures WithDefinitions(root) == Mapping(
      (root.entries + [Entry("processors", Mapping([]))])[|root.entries| := Entry("processors", Mapping(Definitions([])))])
  {
    hide Definitions, Put;
    PutAbsent(root.entries, "processors", Mapping(Definitions([])));
  }

  /** The node that defines processors; it is created when absent. */
  method ProcessorSection(root: Node) returns (section: Node, ghost index: nat)
    requires root.Valid() && root.kind == MappingNode && root.tree.Mapping?
    modifies root
    ensures root.Valid() && root.repr >= old(root.repr) && fresh(root.repr - old(root.repr))
    ensures root.tree.Mapping? && 2 * index + 1 < |root.content| && index < |root.tree.entries|
    ensures root.content[2 * index + 1] == section
    ensures (section.kind == MappingNode <==> section.tree.Mapping?) && section.tree == Processors(old(root.tree))
    ensures section.tree.Mapping? ==> WithDefinitions(old(root.tree)) == Mapping(root.tree.entries[index :=
      Entry(root.tree.entries[index].key, Mapping(Definitions(section.tree.entries)))])
  {
    PairCount(root);
    hide *;
    var found;
    found, index := MappingValue(root, "processors");
    if found == null {
      SectionAppended(root.tree);
      section := new Node(MappingNode, "!!map", "");
      index := |root.tree.entries|;
      AppendPair(root, "processors", section);
    } else {
      SectionAt(root.tree, index);
      KindShown(found);
      section := found;
    }
  }

  method DefineProcessorsOf(root: Node, section: Node, ghost index: nat) returns (changes: seq<Change>)
    requires root.Valid() && root.kind == MappingNode && root.tree.Mapping?
    requires 2 * index + 1 < |root.content| && root.content[2 * index + 1] == section && index < |root.tree.entries|
    requires section.kind == MappingNode && section.tree.Mapping?
    modifies section, root`tree, root`repr
    ensures root.Valid() && root.repr >= old(root.repr) && fresh(root.repr - old(root.repr))
    ensures root.tree == Mapping(old(root.tree.entries)[index :=
      Entry(old(root.tree.entries)[index].key, Mapping(Definitions(old(section.tree.entries))))])
    ensures changes == DefinitionChanges(old(section.tree.entries))
  {
    ghost var reprs := Children(root);
    hide *;
    ghost var entries := root.tree.entries;
    changes := DefineProcessors(section);
    forall j | 0 <= j < |root.content| && j != 2 * index + 1
      ensures unchanged(root.content[j]) && root.content[j].Valid() && root.content[j].repr !! section.repr
    {
      ApartAt(reprs, j, 2 * index + 1);
    }
    ChildReplaced(root, root.repr + section.repr, index, entries, reprs);
    root.Refresh(root.repr + section.repr);
  }

  method ExtendServiceOf(root: Node, service: Node, ghost index: nat) returns (problem: Option<Problem>, changes: seq<Change>)
    requires root.Valid() && root.kind == MappingNode && root.tree.Mapping?
    requires 2 * index + 1 < |root.content| && root.content[2 * index + 1] == service && index < |root.tree.entries|
    modifies root.repr
    ensures problem == ServiceProblem(old(service.tree))
    ensures problem.None? ==>
      && old(service.tree).Mapping?
      && root.Valid() && root.repr >= old(root.repr) && fresh(root.repr - old(root.repr))
      && root.tree == Mapping(old(root.tree.entries)[index :=
           Entry(old(root.tree.entries)[index].key, ExtendedService(old(service.tree)))])
      && changes == PipelineChanges(ServicePipelines(old(service.tree)))
  {
    ghost var reprs := Children(root);
    hide *;
    ghost var entries := root.tree.entries;
    problem, changes := ExtendService(service);
    if problem.Some? { return; }
    forall j | 0 <= j < |root.content| && j != 2 * index + 1
      ensures unchanged(root.content[j]) && root.content[j].Valid() && root.content[j].repr !! service.repr
    {
      ApartAt(reprs, j, 2 * index + 1);
    }
    ChildReplaced(root, root.repr + service.repr, index, entries, reprs);
    root.Refresh(root.repr + service.repr);
  }

  lemma PassSteps(root: Tree)
    requires root.Mapping?
    ensures !Processors(root).Mapping? ==> Apply(root) == Refused(ProcessorsNotMapping)
    ensures Processors(root).Mapping? ==>
      var first := WithDefinitions(root);
      && first.Mapping?
      && (Value(first, "service").None? ==> Apply(root) == Refused(ServiceMissing))
      && (Value(first, "service").Some? ==>
           var service := Value(first, "service").value;
           if ServiceProblem(service).Some? then Apply(root) == Refused(ServiceProblem(service).value)
           else service.Mapping? && Apply(root) == Patched(
             Mapping(Put(first.entries, "service", ExtendedService(service))),
             DefinitionChanges(Processors(root).entries) + PipelineChanges(ServicePipelines(service))))
  {
    if Processors(root).Mapping? {
      PutFind(root.entries, "processors", Mapping(Definitions(Processors(root).entries)), "service");
    }
  }

  /** Extends the pipelines of the document's service. */
  method ExtendServiceIn(root: Node) returns (problem: Option<Problem>, changes: seq<Change>)
    requires root.Valid() && root.kind == MappingNode && root.tree.Mapping?
    modifies root.repr
    ensures problem == match Value(old(root.tree), "service")
      case None => Some(ServiceMissing)
      case Some(service) => ServiceProblem(service)
    ensures problem.None? ==>
      && Value(old(root.tree), "service").value.Mapping?
      && root.Valid() && root.repr >= old(root.repr) && fresh(root.repr - old(root.repr))
      && root.tree == Mapping(Put(old(root.tree.entries), "service", ExtendedService(Value(old(root.tree), "service").value)))
      && changes == PipelineChanges(ServicePipelines(Value(old(root.tree), "service").value))
    ensures problem.Some? ==> changes == []
  {
    hide *;
    var service, index := MappingValue(root, "service");
    if service == null { return Some(ServiceMissing), []; }
    ServicePut(root.tree, index);
    PairCount(root);
    ChildShown(root, index);
    problem, changes := ExtendServiceOf(root, service, index);
    if problem.Some? { changes := []; }
  }

  /** Defines the missing processors of the document. */
  method DefineProcessorsIn(root: Node) returns (problem: Option<Problem>, changes: seq<Change>)
    requires root.Valid() && root.kind == MappingNode && root.tree.Mapping?
    modifies root.repr
    ensures problem == if Processors(old(root.tree)).Mapping? then None else Some(ProcessorsNotMapping)
    ensures problem.None? ==>
      && root.Valid() && root.repr >= old(root.repr) && fresh(root.repr - old(root.repr))
      && root.tree == WithDefinitions(old(root.tree))
      && changes == DefinitionChanges(Processors(old(root.tree)).entries)
    ensures problem.Some? ==> changes == []
  {
    hide *;
    KindShown(root);
    var section, place := ProcessorSection(root);
    if section.kind != MappingNode { return Some(ProcessorsNotMapping), []; }
    ChildOf(root, place);
    problem := None;
    changes := DefineProcessorsOf(root, section, place);
  }

  /** The whole pass over the nodes of a document does what the pass on its tree says. */
  method ApplyCollectorBaseline(root: Node) returns (problem: Option<Problem>, changes: seq<Change>)
    requires root.Valid() && root.kind == MappingNode && root.tree.Mapping?
    modifies root.repr
    ensures match Apply(old(root.tree))
      case Patched(tree, reported) =>
        && problem.None? && changes == reported && root.Valid() && root.tree == tree
        && root.repr >= old(root.repr) && fresh(root.repr - old(root.repr))
      case Refused(reason) => problem == Some(reason) && changes == []
  {
    PassSteps(root.tree);
    hide *;
    problem, changes := DefineProcessorsIn(root);
    if problem.Some? { return; }
    var more;
    problem, more := ExtendServiceIn(root);
    changes := if problem.None? then changes + more else [];
  }

  lemma ServicePut(root: Tree, i: nat)
    requires root.Mapping? && FirstAt(root.entries, i, "service")
    ensures i < |root.entries| && root.entries[i].key == "service"
    ensures forall value :: Put(root.entries, "service", value) == root.entries[i := Entry("service", value)]
  {
    forall value ensures Put(root.entries, "service", value) == root.entries[i := Entry("service", value)] {
      PutFirst(root.entries, i, "service", value);
    }
  }

  /** Standardises the document a text decodes to in place and gives the new text. The text has been
      inspected before it was decoded; `rendered` encodes a document. */
  method StandardizeImportedConfiguration(text: string, root: Node, importable: bool, applyBaseline: bool, rendered: Tree -> string)
    returns (problem: Option<Problem>, changes: seq<Change>, standardized: string)
    requires root.Valid() && importable == Importable(root.tree)
    modifies root.repr
    ensures match Standardize(text, old(root.tree), applyBaseline, rendered)
      case Patched(tree, reported) =>
        problem.None? && changes == reported && root.Valid() && root.tree == tree && standardized == rendered(tree)
      case Refused(reason) => problem == Some(reason) && changes == [] && standardized == ""
  {
    changes := [];
    if !importable { return Some(NotImportable), [], ""; }
    KindShown(root);
    assert Keyed(root.tree) && root.tree.Mapping?;
    ghost var before := root.tree;
    if Apply(before).Patched? { PassKeyed(before); }
    hide Node.Valid, Apply, Importable, Canonical, Keyed;
    problem := None;
    if applyBaseline {
      problem, changes := ApplyCollectorBaseline(root);
      if problem.Some? { return problem, [], ""; }
    }
    KindShown(root);
    KeyedOrderable(root.tree);
    CanonicalizeCollectorLayout(root);
    var document := ReadNode(root);
    standardized := rendered(document);
    if NormalizedText(text) != NormalizedText(standardized) { changes := [Layout] + changes; }
  }
}
