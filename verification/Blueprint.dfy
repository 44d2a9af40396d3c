/** Generating a Collector configuration from a pattern, catalog blocks and a destination. */
module Blueprint {
  import opened Wrappers
  import opened CollectorTree

  datatype Kind = Processors | Receivers | Extensions | Connectors | Other(name: string)

  /** A configuration text is given by the mapping it decodes to, or none when it does not decode. */
  datatype Block = Block(
    name: string, kind: Kind, component: string, configuration: Option<Tree>,
    signals: seq<string>, platforms: seq<string>, enabled: bool)

  datatype Pattern = Pattern(platform: string, receiver: string, configuration: Option<Tree>, signals: seq<string>)

  datatype Destination = Destination(exporter: string, configuration: Option<Tree>)

  datatype Pipeline = Pipeline(receivers: seq<string>, processors: seq<string>, exporters: seq<string>)

  type Section = map<string, Tree>

  datatype Document = Document(
    receivers: Section, processors: Section, exporters: Section, extensions: Section, connectors: Section,
    serviceExtensions: seq<string>, pipelines: map<string, Pipeline>)

  datatype Problem =
    | PatternRequired
    | DestinationRequired
    | InvalidDestination
    | InvalidPattern
    | NoSignal
    | InvalidBlock(name: string)
    | UnsupportedKind(kind: Kind)

  datatype Outcome = Generated(document: Document) | Refused(problem: Problem)

  /** A catalog list names a value, or names any. */
  predicate Lists(values: seq<string>, wanted: string) {
    wanted in values || "any" in values
  }

  method ContainsCatalogValue(values: seq<string>, wanted: string) returns (found: bool)
    ensures found == Lists(values, wanted)
  {
    for i := 0 to |values|
      invariant wanted !in values[..i] && "any" !in values[..i]
    {
      if values[i] == wanted || values[i] == "any" { return true; }
    }
    found := false;
  }

  // ---------- What is generated ----------

  /** The selected signals the pattern supports; a pattern with one signal needs no selection. */
  function Signals(pattern: Pattern, selected: seq<string>): set<string> {
    var chosen := set signal | signal in selected && Lists(pattern.signals, signal);
    if chosen == {} && |pattern.signals| == 1 then {pattern.signals[0]} else chosen
  }

  predicate Usable(block: Option<Block>, platform: string) {
    block.Some? && block.value.enabled && Lists(block.value.platforms, platform)
  }

  /** The enabled blocks for the platform, in the given order. */
  function Used(blocks: seq<Option<Block>>, platform: string): seq<Block> {
    if blocks == [] then []
    else
      var last := |blocks| - 1;
      Used(blocks[..last], platform) + if Usable(blocks[last], platform) then [blocks[last].value] else []
  }

  function BlockProblem(block: Block): Option<Problem> {
    if block.configuration.None? then Some(InvalidBlock(block.name))
    else if block.kind.Other? then Some(UnsupportedKind(block.kind))
    else None
  }

  /** The first used block that is refused. */
  function FirstProblem(used: seq<Block>): Option<Problem> {
    if used == [] then None
    else if FirstProblem(used[..|used| - 1]).Some? then FirstProblem(used[..|used| - 1])
    else BlockProblem(used[|used| - 1])
  }

  /** The components of a kind, in block order. */
  function Components(used: seq<Block>, kind: Kind): seq<string> {
    if used == [] then []
    else
      var last := used[|used| - 1];
      Components(used[..|used| - 1], kind) + if last.kind == kind then [last.component] else []
  }

  /** The extra receivers of a signal, in block order. */
  function ReceiversFor(used: seq<Block>, signal: string): seq<string> {
    if used == [] then []
    else
      var last := used[|used| - 1];
      ReceiversFor(used[..|used| - 1], signal) +
        if last.kind == Receivers && Lists(last.signals, signal) then [last.component] else []
  }

  /** The components of a kind with their configuration; the last block for a component counts. */
  function Configured(used: seq<Block>, kind: Kind): Section {
    if used == [] then map[]
    else
      var last := used[|used| - 1];
      var before := Configured(used[..|used| - 1], kind);
      if last.kind == kind && last.configuration.Some? then before[last.component := last.configuration.value] else before
  }

  const PIPELINE_SIGNALS: seq<string> := ["metrics", "traces", "logs"]

  function PipelineFor(pattern: Pattern, used: seq<Block>, destination: Destination, signal: string): Pipeline {
    Pipeline([pattern.receiver] + ReceiversFor(used, signal), Components(used, Processors), [destination.exporter])
  }

  function Generate(pattern: Option<Pattern>, selected: seq<string>, blocks: seq<Option<Block>>,
                    destination: Option<Destination>): Outcome
  {
    if pattern.None? then Refused(PatternRequired)
    else if destination.None? then Refused(DestinationRequired)
    else if destination.value.configuration.None? then Refused(InvalidDestination)
    else if pattern.value.configuration.None? then Refused(InvalidPattern)
    else
      var signals := Signals(pattern.value, selected);
      var used := Used(blocks, pattern.value.platform);
      if signals == {} then Refused(NoSignal)
      else if FirstProblem(used).Some? then Refused(FirstProblem(used).value)
      else Generated(Document(
        map[pattern.value.receiver := pattern.value.configuration.value] + Configured(used, Receivers),
        Configured(used, Processors),
        map[destination.value.exporter := destination.value.configuration.value],
        Configured(used, Extensions),
        Configured(used, Connectors),
        Components(used, Extensions),
        map signal | signal in PIPELINE_SIGNALS && signal in signals :: PipelineFor(pattern.value, used, destination.value, signal)))
  }

  // ---------- What a generated document promises ----------

  /** Everything the service refers to is defined in its section. */
  predicate Closed(document: Document) {
    && (forall name | name in document.serviceExtensions :: name in document.extensions)
    && forall signal | signal in document.pipelines ::
         var pipeline := document.pipelines[signal];
         && (forall name | name in pipeline.receivers :: name in document.receivers)
         && (forall name | name in pipeline.processors :: name in document.processors)
         && (forall name | name in pipeline.exporters :: name in document.exporters)
  }

  lemma {:induction false} ComponentsConfigured(used: seq<Block>, kind: Kind)
    requires FirstProblem(used).None?
    ensures forall name :: name in Components(used, kind) <==> name in Configured(used, kind)
  {
    if used != [] { ComponentsConfigured(used[..|used| - 1], kind); }
  }

  lemma {:induction false} ExtraReceiversConfigured(used: seq<Block>, signal: string)
    requires FirstProblem(used).None?
    ensures forall name | name in ReceiversFor(used, signal) :: name in Configured(used, Receivers)
  {
    if used != [] { ExtraReceiversConfigured(used[..|used| - 1], signal); }
  }

  /** A generated document is closed under reference, for any list of blocks; every pipeline has a
      receiver and an exporter, and all pipelines share one processor list. */
  lemma GeneratedIsClosed(pattern: Option<Pattern>, selected: seq<string>, blocks: seq<Option<Block>>, destination: Option<Destination>)
    requires Generate(pattern, selected, blocks, destination).Generated?
    ensures var document := Generate(pattern, selected, blocks, destination).document;
      && Closed(document)
      && forall signal | signal in document.pipelines ::
           && document.pipelines[signal].receivers != [] && document.pipelines[signal].exporters != []
           && document.pipelines[signal].processors == Components(Used(blocks, pattern.value.platform), Processors)
  {
    var used := Used(blocks, pattern.value.platform);
    ComponentsConfigured(used, Processors);
    ComponentsConfigured(used, Extensions);
    forall signal ensures forall name | name in ReceiversFor(used, signal) :: name in Configured(used, Receivers) {
      ExtraReceiversConfigured(used, signal);
    }
  }

  /** There is a pipeline exactly when a signal other than the unsupported ones was selected: a
      pattern for profiles, or for any signal with none selected, gives a document without one. */
  lemma HasPipelineIff(pattern: Option<Pattern>, selected: seq<string>, blocks: seq<Option<Block>>, destination: Option<Destination>)
    requires Generate(pattern, selected, blocks, destination).Generated?
    ensures Generate(pattern, selected, blocks, destination).document.pipelines != map[] <==>
      exists signal :: signal in Signals(pattern.value, selected) && signal in PIPELINE_SIGNALS
  {
    var document := Generate(pattern, selected, blocks, destination).document;
    if signal :| signal in Signals(pattern.value, selected) && signal in PIPELINE_SIGNALS {
      assert signal in document.pipelines;
    }
    if document.pipelines != map[] {
      var signal :| signal in document.pipelines;
    }
  }

  /** A pattern for profiles alone, without any block, is generated without a pipeline. */
  lemma ProfilesHaveNoPipeline(receiver: Tree, exporter: Tree)
    ensures var pattern := Some(Pattern("linux", "otlp", Some(receiver), ["profiles"]));
      var outcome := Generate(pattern, [], [], Some(Destination("otlp", Some(exporter))));
      && outcome.Generated? && outcome.document.pipelines == map[] && outcome.document.receivers == map["otlp" := receiver]
  {
    var pattern := Pattern("linux", "otlp", Some(receiver), ["profiles"]);
    assert Signals(pattern, []) == {"profiles"} && Used([], "linux") == [];
    hide Signals, Used, Lists;
    HasPipelineIff(Some(pattern), [], [], Some(Destination("otlp", Some(exporter))));
    assert "profiles" !in PIPELINE_SIGNALS by {
      assert forall signal | signal in PIPELINE_SIGNALS :: |signal| < 8;
    }
  }

  /** A used processor block appears in every pipeline, and nothing else does, in block order. */
  lemma {:induction false} ComponentsInOrder(used: seq<Block>, kind: Kind) returns (places: seq<nat>)
    ensures |places| == |Components(used, kind)|
    ensures forall k | 0 <= k < |places| ::
      places[k] < |used| && used[places[k]].kind == kind && used[places[k]].component == Components(used, kind)[k]
    ensures forall k, l | 0 <= k < l < |places| :: places[k] < places[l]
    ensures forall i | 0 <= i < |used| && used[i].kind == kind :: i in places
  {
    places := [];
    if used != [] {
      var last := |used| - 1;
      places := ComponentsInOrder(used[..last], kind);
      if used[last].kind == kind { places := places + [last]; }
    }
  }

  /** When several blocks configure one component, the last of them counts. */
  lemma {:induction false} LastBlockCounts(used: seq<Block>, i: nat)
    requires FirstProblem(used).None? && i < |used|
    requires forall j | i < j < |used| :: used[j].kind != used[i].kind || used[j].component != used[i].component
    ensures used[i].component in Configured(used, used[i].kind)
    ensures Some(Configured(used, used[i].kind)[used[i].component]) == used[i].configuration
  {
    if i < |used| - 1 { LastBlockCounts(used[..|used| - 1], i); }
  }

  lemma {:induction false} FirstProblemNoneIff(used: seq<Block>)
    ensures FirstProblem(used).None? <==> forall i | 0 <= i < |used| :: BlockProblem(used[i]).None?
  {
    if used != [] { FirstProblemNoneIff(used[..|used| - 1]); }
  }

  lemma {:induction false} UsedIff(blocks: seq<Option<Block>>, platform: string, block: Block)
    ensures block in Used(blocks, platform) <==> Some(block) in blocks && Usable(Some(block), platform)
  {
    if blocks != [] {
      UsedIff(blocks[..|blocks| - 1], platform, block);
      assert blocks == blocks[..|blocks| - 1] + [blocks[|blocks| - 1]];
    }
  }

  /** A document is generated exactly when pattern and destination are given and decode, a supported
      signal is selected, and every enabled block for the platform decodes and is of a known kind. */
  lemma GeneratedIff(pattern: Option<Pattern>, selected: seq<string>, blocks: seq<Option<Block>>, destination: Option<Destination>)
    ensures Generate(pattern, selected, blocks, destination).Generated? <==>
      && pattern.Some? && pattern.value.configuration.Some?
      && destination.Some? && destination.value.configuration.Some?
      && Signals(pattern.value, selected) != {}
      && forall block | Some(block) in blocks && block.enabled && Lists(block.platforms, pattern.value.platform) ::
           block.configuration.Some? && !block.kind.Other?
  {
    if pattern.Some? {
      var platform := pattern.value.platform;
      var used := Used(blocks, platform);
      FirstProblemNoneIff(used);
      forall block ensures block in used <==> Some(block) in blocks && Usable(Some(block), platform) {
        UsedIff(blocks, platform, block);
      }
      assert (forall i | 0 <= i < |used| :: BlockProblem(used[i]).None?) <==> forall block | block in used :: BlockProblem(block).None?;
    }
  }

  /** A pipeline receives from the pattern's receiver first, and else from exactly the used receiver
      blocks for its signal. */
  lemma {:induction false} ReceiversForIff(used: seq<Block>, signal: string, name: string)
    ensures name in ReceiversFor(used, signal) <==>
      exists i :: 0 <= i < |used| && used[i].kind == Receivers && Lists(used[i].signals, signal) && used[i].component == name
  {
    if used != [] {
      var last := |used| - 1;
      ReceiversForIff(used[..last], signal, name);
      assert forall i | 0 <= i < last :: used[..last][i] == used[i];
    }
  }

  // ---------- The generator ----------

  method SelectSignals(pattern: Pattern, selected: seq<string>) returns (signals: set<string>)
    ensures signals == Signals(pattern, selected)
  {
    signals := {};
    for i := 0 to |selected|
      invariant signals == set signal | signal in selected[..i] && Lists(pattern.signals, signal)
    {
      var supported := ContainsCatalogValue(pattern.signals, selected[i]);
      assert selected[..i + 1] == selected[..i] + [selected[i]];
      if supported { signals := signals + {selected[i]}; }
    }
    assert selected[..|selected|] == selected;
    if |signals| == 0 && |pattern.signals| == 1 { signals := {pattern.signals[0]}; }
  }

  function Get(extra: map<string, seq<string>>, signal: string): seq<string> {
    if signal in extra then extra[signal] else []
  }

  /** Adds a receiver block to every selected signal it supports. */
  method AddReceiver(extra: map<string, seq<string>>, signals: set<string>, block: Block) returns (next: map<string, seq<string>>)
    ensures forall signal | signal in signals ::
      Get(next, signal) == Get(extra, signal) + if Lists(block.signals, signal) then [block.component] else []
  {
    next := extra;
    var left := signals;
    while left != {}
      invariant left <= signals
      invariant forall signal | signal in left :: Get(next, signal) == Get(extra, signal)
      invariant forall signal | signal in signals - left ::
        Get(next, signal) == Get(extra, signal) + if Lists(block.signals, signal) then [block.component] else []
    {
      var signal :| signal in left;
      var supported := ContainsCatalogValue(block.signals, signal);
      if supported { next := next[signal := Get(next, signal) + [block.component]]; }
      left := left - {signal};
    }
  }

  method BuildPipelines(pattern: Pattern, destination: Destination, signals: set<string>, known: seq<string>,
                        extra: map<string, seq<string>>, processors: seq<string>, ghost used: seq<Block>)
    returns (pipelines: map<string, Pipeline>)
    requires processors == Components(used, Processors)
    requires forall signal | signal in signals :: Get(extra, signal) == ReceiversFor(used, signal)
    ensures pipelines == map signal | signal in known && signal in signals :: PipelineFor(pattern, used, destination, signal)
  {
    hide Components, ReceiversFor, Get;
    pipelines := map[];
    for i := 0 to |known|
      invariant forall signal :: signal in pipelines <==> signal in known[..i] && signal in signals
      invariant forall signal | signal in pipelines :: pipelines[signal] == PipelineFor(pattern, used, destination, signal)
    {
      var signal := known[i];
      assert known[..i + 1] == known[..i] + [signal];
      if signal in signals {
        pipelines := pipelines[signal := Pipeline([pattern.receiver] + Get(extra, signal), processors, [destination.exporter])];
      }
    }
    assert known[..|known|] == known;
  }

  /** The sections under construction. */
  datatype Parts = Parts(
    receivers: Section, processors: Section, extensions: Section, connectors: Section,
    processorIds: seq<string>, extensionIds: seq<string>, extra: map<string, seq<string>>)

  /** The parts hold what the blocks so far contribute. */
  ghost predicate Collects(parts: Parts, first: Section, signals: set<string>, used: seq<Block>) {
    && FirstProblem(used).None?
    && parts.receivers == first + Configured(used, Receivers)
    && parts.processors == Configured(used, Processors)
    && parts.extensions == Configured(used, Extensions)
    && parts.connectors == Configured(used, Connectors)
    && parts.processorIds == Components(used, Processors)
    && parts.extensionIds == Components(used, Extensions)
    && forall signal | signal in signals :: Get(parts.extra, signal) == ReceiversFor(used, signal)
  }

  lemma CollectsNothing(first: Section, signals: set<string>)
    ensures Collects(Parts(first, map[], map[], map[], [], [], map[]), first, signals, [])
  {
    assert first + map[] == first;
  }

  /** What one more block contributes. */
  lemma OneMoreBlock(used: seq<Block>, block: Block)
    ensures FirstProblem(used + [block]) == if FirstProblem(used).Some? then FirstProblem(used) else BlockProblem(block)
    ensures forall kind ::
      Components(used + [block], kind) == Components(used, kind) + if block.kind == kind then [block.component] else []
    ensures forall kind ::
      Configured(used + [block], kind) ==
        if block.kind == kind && block.configuration.Some?
        then Configured(used, kind)[block.component := block.configuration.value] else Configured(used, kind)
    ensures forall signal ::
      ReceiversFor(used + [block], signal) ==
        ReceiversFor(used, signal) + if block.kind == Receivers && Lists(block.signals, signal) then [block.component] else []
  {
    assert (used + [block])[..|used|] == used;
  }

  lemma UpdateAfter(first: Section, rest: Section, component: string, configuration: Tree)
    ensures (first + rest)[component := configuration] == first + rest[component := configuration]
  {
  }

  method AddBlock(parts: Parts, ghost first: Section, signals: set<string>, ghost used: seq<Block>, block: Block)
    returns (problem: Option<Problem>, next: Parts)
    requires Collects(parts, first, signals, used)
    ensures problem == FirstProblem(used + [block])
    ensures problem.None? ==> Collects(next, first, signals, used + [block])
  {
    OneMoreBlock(used, block);
    hide FirstProblem, Components, Configured, ReceiversFor, Lists, Get;
    next := parts;
    if block.configuration.None? { return Some(InvalidBlock(block.name)), next; }
    var configuration := block.configuration.value;
    problem := None;
    match block.kind {
      case Processors =>
        next := parts.(processors := parts.processors[block.component := configuration],
                       processorIds := parts.processorIds + [block.component]);
      case Receivers =>
        UpdateAfter(first, Configured(used, Receivers), block.component, configuration);
        var extra := AddReceiver(parts.extra, signals, block);
        next := parts.(receivers := parts.receivers[block.component := configuration], extra := extra);
      case Extensions =>
        next := parts.(extensions := parts.extensions[block.component := configuration],
                       extensionIds := parts.extensionIds + [block.component]);
      case Connectors =>
        next := parts.(connectors := parts.connectors[block.component := configuration]);
      case Other(_) =>
        problem := Some(UnsupportedKind(block.kind));
    }
  }

  method GenerateBlueprint(pattern: Option<Pattern>, selected: seq<string>, blocks: seq<Option<Block>>,
                           destination: Option<Destination>)
    returns (outcome: Outcome)
    ensures outcome == Generate(pattern, selected, blocks, destination)
  {
    if pattern.None? { return Refused(PatternRequired); }
    if destination.None? { return Refused(DestinationRequired); }
    if destination.value.configuration.None? { return Refused(InvalidDestination); }
    if pattern.value.configuration.None? { return Refused(InvalidPattern); }
    var signals := SelectSignals(pattern.value, selected);
    if |signals| == 0 { return Refused(NoSignal); }
    var problem, parts := CollectBlocks(pattern.value, signals, blocks);
    if problem.Some? { return Refused(problem.value); }
    ghost var used := Used(blocks, pattern.value.platform);
    var pipelines := BuildPipelines(pattern.value, destination.value, signals, PIPELINE_SIGNALS, parts.extra, parts.processorIds, used);
    outcome := Generated(Document(parts.receivers, parts.processors,
      map[destination.value.exporter := destination.value.configuration.value],
      parts.extensions, parts.connectors, parts.extensionIds, pipelines));
  }

  method CollectBlocks(pattern: Pattern, signals: set<string>, blocks: seq<Option<Block>>)
    returns (problem: Option<Problem>, parts: Parts)
    requires pattern.configuration.Some?
    ensures problem == FirstProblem(Used(blocks, pattern.platform))
    ensures problem.None? ==>
      Collects(parts, map[pattern.receiver := pattern.configuration.value], signals, Used(blocks, pattern.platform))
  {
    var first: Section := map[pattern.receiver := pattern.configuration.value];
    parts := Parts(first, map[], map[], map[], [], [], map[]);
    problem := None;
    CollectsNothing(first, signals);
    hide Collects, FirstProblem;
    for i := 0 to |blocks|
      invariant Collects(parts, first, signals, Used(blocks[..i], pattern.platform))
    {
      UsedStep(blocks, i, pattern.platform);
      if blocks[i].None? || !blocks[i].value.enabled { continue; }
      var block := blocks[i].value;
      var compatible := ContainsCatalogValue(block.platforms, pattern.platform);
      if !compatible { continue; }
      problem, parts := AddBlock(parts, first, signals, Used(blocks[..i], pattern.platform), block);
      if problem.Some? {
        ProblemStays(blocks, i + 1, pattern.platform);
        return;
      }
    }
    assert blocks[..|blocks|] == blocks;
    CollectsWithoutProblem(parts, first, signals, Used(blocks, pattern.platform));
    problem := None;
  }

  lemma CollectsWithoutProblem(parts: Parts, first: Section, signals: set<string>, used: seq<Block>)
    requires Collects(parts, first, signals, used)
    ensures FirstProblem(used).None?
  {
  }

  lemma UsedStep(blocks: seq<Option<Block>>, i: nat, platform: string)
    requires i < |blocks|
    ensures Used(blocks[..i + 1], platform)
         == if Usable(blocks[i], platform) then Used(blocks[..i], platform) + [blocks[i].value] else Used(blocks[..i], platform)
  {
    assert blocks[..i + 1][..i] == blocks[..i];
  }

  /** The first refused block decides, whatever follows. */
  lemma {:induction false} ProblemStays(blocks: seq<Option<Block>>, i: nat, platform: string)
    requires i <= |blocks| && FirstProblem(Used(blocks[..i], platform)).Some?
    ensures FirstProblem(Used(blocks, platform)) == FirstProblem(Used(blocks[..i], platform))
  {
    if i < |blocks| {
      var last := |blocks| - 1;
      assert blocks[..last][..i] == blocks[..i];
      ProblemStays(blocks[..last], i, platform);
      UsedStep(blocks, last, platform);
      assert blocks[..last + 1] == blocks;
      if Usable(blocks[last], platform) { OneMoreBlock(Used(blocks[..last], platform), blocks[last].value); }
    } else {
      assert blocks[..i] == blocks;
    }
  }
}
