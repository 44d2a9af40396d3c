/** What generating a configuration comes to, said by the pattern, the blocks and the destination alone. */
module BlueprintOutcome {
  import opened Wrappers
  import opened Places
  import opened CollectorTree
  import opened Blueprint

  /** The block is used: it is there, enabled, and for the platform or for any. */
  predicate InUse(block: Option<Block>, platform: string) {
    block.Some? && block.value.enabled && (platform in block.value.platforms || "any" in block.value.platforms)
  }

  /** The used blocks are those at these places, in their order. */
  ghost predicate UsedAt(blocks: seq<Option<Block>>, platform: string, used: seq<Block>, places: seq<nat>) {
    && |places| == |used| && Increasing(places)
    && (forall i :: 0 <= i < |places| ==> places[i] < |blocks| && blocks[places[i]] == Some(used[i]))
    && (forall k: int :: k in places <==> 0 <= k < |blocks| && InUse(blocks[k], platform))
  }

  lemma {:induction false} UsedPlaces(blocks: seq<Option<Block>>, platform: string) returns (places: seq<nat>)
    ensures UsedAt(blocks, platform, Used(blocks, platform), places)
  {
    places := [];
    if blocks != [] {
      var last := |blocks| - 1;
      var before := UsedPlaces(blocks[..last], platform);
      places := if InUse(blocks[last], platform) then before + [last] else before;
      UsedSnoc(blocks, platform, Used(blocks[..last], platform), before);
    }
  }

  lemma UsedSnoc(blocks: seq<Option<Block>>, platform: string, used: seq<Block>, places: seq<nat>)
    requires blocks != [] && UsedAt(blocks[..|blocks| - 1], platform, used, places)
    ensures var last := |blocks| - 1;
      if InUse(blocks[last], platform) then UsedAt(blocks, platform, used + [blocks[last].value], places + [last])
      else UsedAt(blocks, platform, used, places)
  {
    var last := |blocks| - 1;
    assert InUse(blocks[last], platform) ==> blocks[last] == Some(blocks[last].value);
    hide InUse;
    assert forall k :: 0 <= k < last ==> blocks[..last][k] == blocks[k];
    assert forall k :: k in places ==> k < last;
    Behind(places, last);
    if InUse(blocks[last], platform) {
      var more := used + [blocks[last].value];
      assert forall i :: 0 <= i <= |used| ==> more[i] == if i == |used| then blocks[last].value else used[i];
    }
  }

  /** A component of the kind is configured by the last used block for it. */
  ghost predicate Configures(used: seq<Block>, kind: Kind, section: Section) {
    && (forall name :: name in section <==> exists i :: 0 <= i < |used| && used[i].kind == kind && used[i].component == name)
    && forall i :: 0 <= i < |used| && used[i].kind == kind
                   && (forall j :: i < j < |used| ==> used[j].kind != kind || used[j].component != used[i].component) ==>
         used[i].component in section && used[i].configuration == Some(section[used[i].component])
  }

  lemma {:induction false} ConfiguredExactly(used: seq<Block>, kind: Kind)
    requires FirstProblem(used).None?
    ensures Configures(used, kind, Configured(used, kind))
  {
    forall name ensures name in Configured(used, kind) <==> exists i :: 0 <= i < |used| && used[i].kind == kind && used[i].component == name {
      ConfiguredName(used, kind, name);
    }
    forall i | 0 <= i < |used| && used[i].kind == kind
               && (forall j :: i < j < |used| ==> used[j].kind != kind || used[j].component != used[i].component)
      ensures used[i].component in Configured(used, kind) && used[i].configuration == Some(Configured(used, kind)[used[i].component])
    {
      LastBlockCounts(used, i);
    }
  }

  lemma {:induction false} ConfiguredName(used: seq<Block>, kind: Kind, name: string)
    requires FirstProblem(used).None?
    ensures name in Configured(used, kind) <==> exists i :: 0 <= i < |used| && used[i].kind == kind && used[i].component == name
  {
    if used != [] {
      var last := |used| - 1;
      ConfiguredName(used[..last], kind, name);
      assert forall i :: 0 <= i < last ==> used[..last][i] == used[i];
    }
  }

  /** A signal the pattern supports, or supports any, and that is selected; a pattern with one signal
      needs no selection. */
  predicate SignalChosen(pattern: Pattern, selected: seq<string>, signal: string) {
    || (signal in selected && (signal in pattern.signals || "any" in pattern.signals))
    || (pattern.signals == [signal] && forall other | other in selected :: other !in pattern.signals && "any" !in pattern.signals)
  }

  lemma SignalsExactly(pattern: Pattern, selected: seq<string>)
    ensures forall signal :: signal in Signals(pattern, selected) <==> SignalChosen(pattern, selected, signal)
  {
    var chosen := set signal | signal in selected && Lists(pattern.signals, signal);
    if chosen == {} {
      forall other | other in selected ensures other !in pattern.signals && "any" !in pattern.signals { assert other !in chosen; }
    } else {
      var some :| some in chosen;
    }
    if |pattern.signals| == 1 { assert pattern.signals == [pattern.signals[0]]; }
  }

  /** The components of the used blocks at these places: all blocks of a kind, or the receiver blocks
      for one signal. */
  ghost predicate NamesAt(used: seq<Block>, names: seq<string>, places: seq<nat>, wanted: Block -> bool) {
    && |places| == |names| && Increasing(places)
    && (forall i :: 0 <= i < |places| ==> places[i] < |used| && used[places[i]].component == names[i])
    && (forall k: int :: k in places <==> 0 <= k < |used| && wanted(used[k]))
  }

  function OfKind(kind: Kind): Block -> bool {
    (block: Block) => block.kind == kind
  }

  /** The receiver blocks that list the signal, or any. */
  function ReceivesFor(signal: string): Block -> bool {
    (block: Block) => block.kind == Receivers && (signal in block.signals || "any" in block.signals)
  }

  lemma NamesSnoc(used: seq<Block>, names: seq<string>, places: seq<nat>, wanted: Block -> bool)
    requires used != [] && NamesAt(used[..|used| - 1], names, places, wanted)
    ensures var last := |used| - 1;
      if wanted(used[last]) then NamesAt(used, names + [used[last].component], places + [last], wanted)
      else NamesAt(used, names, places, wanted)
  {
    var last := |used| - 1;
    assert forall k :: 0 <= k < last ==> used[..last][k] == used[k];
    assert forall k :: k in places ==> k < last;
    Behind(places, last);
    var more := names + [used[last].component];
    assert forall i :: 0 <= i <= |names| ==> more[i] == if i == |names| then used[last].component else names[i];
  }

  lemma {:induction false} ComponentsAt(used: seq<Block>, kind: Kind) returns (places: seq<nat>)
    ensures NamesAt(used, Components(used, kind), places, OfKind(kind))
  {
    places := [];
    if used != [] {
      var last := |used| - 1;
      var before := ComponentsAt(used[..last], kind);
      NamesSnoc(used, Components(used[..last], kind), before, OfKind(kind));
      hide NamesAt;
      places := if used[last].kind == kind then before + [last] else before;
      assert Components(used[..last], kind) + [] == Components(used[..last], kind);
    }
  }

  lemma {:induction false} ReceiversAt(used: seq<Block>, signal: string) returns (places: seq<nat>)
    ensures NamesAt(used, ReceiversFor(used, signal), places, ReceivesFor(signal))
  {
    places := [];
    if used != [] {
      var last := |used| - 1;
      var before := ReceiversAt(used[..last], signal);
      NamesSnoc(used, ReceiversFor(used[..last], signal), before, ReceivesFor(signal));
      hide NamesAt;
      places := if ReceivesFor(signal)(used[last]) then before + [last] else before;
      assert ReceiversFor(used[..last], signal) + [] == ReceiversFor(used[..last], signal);
    }
  }

  /** The sections of a generated document. The receivers are the pattern's, unless a used block
      configures one of that name, and those of the used blocks. */
  ghost predicate Sections(document: Document, pattern: Pattern, used: seq<Block>, destination: Destination, extra: Section) {
    && pattern.configuration.Some? && destination.configuration.Some?
    && document.exporters == map[destination.exporter := destination.configuration.value]
    && Configures(used, Processors, document.processors)
    && Configures(used, Extensions, document.extensions)
    && Configures(used, Connectors, document.connectors)
    && Configures(used, Receivers, extra)
    && (forall name :: name in document.receivers <==> name == pattern.receiver || name in extra)
    && forall name :: name in document.receivers ==>
         document.receivers[name] == if name in extra then extra[name] else pattern.configuration.value
  }

  /** The service of a generated document: the extensions of the used blocks, in their order; and for each
      chosen signal of metrics, traces and logs a pipeline from the pattern's receiver and the used
      receiver blocks for the signal, through all used processor blocks, to the destination. */
  ghost predicate Service(document: Document, pattern: Pattern, selected: seq<string>, used: seq<Block>, destination: Destination) {
    && (exists places :: NamesAt(used, document.serviceExtensions, places, OfKind(Extensions)))
    && (forall signal :: signal in document.pipelines <==> signal in ["metrics", "traces", "logs"] && SignalChosen(pattern, selected, signal))
    && forall signal :: signal in document.pipelines ==>
         var pipeline := document.pipelines[signal];
         && pipeline.exporters == [destination.exporter]
         && (exists places :: NamesAt(used, pipeline.processors, places, OfKind(Processors)))
         && pipeline.receivers != [] && pipeline.receivers[0] == pattern.receiver
         && exists places :: NamesAt(used, pipeline.receivers[1..], places, ReceivesFor(signal))
  }

  /** What a generated document contains. */
  lemma GeneratedExactly(pattern: Pattern, selected: seq<string>, blocks: seq<Option<Block>>, destination: Destination)
    returns (used: seq<Block>, places: seq<nat>, extra: Section)
    requires Generate(Some(pattern), selected, blocks, Some(destination)).Generated?
    ensures UsedAt(blocks, pattern.platform, used, places)
    ensures var document := Generate(Some(pattern), selected, blocks, Some(destination)).document;
      Sections(document, pattern, used, destination, extra) && Service(document, pattern, selected, used, destination)
  {
    used := Used(blocks, pattern.platform);
    places := UsedPlaces(blocks, pattern.platform);
    var document := Generate(Some(pattern), selected, blocks, Some(destination)).document;
    hide UsedAt, Used;
    extra := Configured(used, Receivers);
    SectionsHold(pattern, selected, blocks, destination, document);
    ServiceHolds(pattern, selected, blocks, destination, document);
    hide Sections, Service;
  }

  lemma SectionsAre(pattern: Pattern, selected: seq<string>, blocks: seq<Option<Block>>, destination: Destination, document: Document)
    requires Generate(Some(pattern), selected, blocks, Some(destination)) == Generated(document)
    ensures pattern.configuration.Some? && destination.configuration.Some?
    ensures var used := Used(blocks, pattern.platform);
      && FirstProblem(used).None?
      && document.exporters == map[destination.exporter := destination.configuration.value]
      && document.processors == Configured(used, Processors) && document.extensions == Configured(used, Extensions)
      && document.connectors == Configured(used, Connectors)
      && document.receivers == map[pattern.receiver := pattern.configuration.value] + Configured(used, Receivers)
  {
    hide Used, Configured, Signals, Components, PipelineFor, FirstProblem;
  }

  lemma SectionsHold(pattern: Pattern, selected: seq<string>, blocks: seq<Option<Block>>, destination: Destination, document: Document)
    requires Generate(Some(pattern), selected, blocks, Some(destination)) == Generated(document)
    ensures Sections(document, pattern, Used(blocks, pattern.platform), destination, Configured(Used(blocks, pattern.platform), Receivers))
  {
    hide *;
    var used := Used(blocks, pattern.platform);
    SectionsAre(pattern, selected, blocks, destination, document);
    ConfiguredExactly(used, Processors);
    ConfiguredExactly(used, Extensions);
    ConfiguredExactly(used, Connectors);
    ConfiguredExactly(used, Receivers);
    SectionsFit(document, pattern, used, destination, Configured(used, Receivers));
  }

  lemma SectionsFit(document: Document, pattern: Pattern, used: seq<Block>, destination: Destination, extra: Section)
    requires pattern.configuration.Some? && destination.configuration.Some?
    requires document.exporters == map[destination.exporter := destination.configuration.value]
    requires Configures(used, Processors, document.processors) && Configures(used, Extensions, document.extensions)
    requires Configures(used, Connectors, document.connectors) && Configures(used, Receivers, extra)
    requires document.receivers == map[pattern.receiver := pattern.configuration.value] + extra
    ensures Sections(document, pattern, used, destination, extra)
  {
    hide Configures;
  }

  lemma ServiceHolds(pattern: Pattern, selected: seq<string>, blocks: seq<Option<Block>>, destination: Destination, document: Document)
    requires Generate(Some(pattern), selected, blocks, Some(destination)) == Generated(document)
    ensures Service(document, pattern, selected, Used(blocks, pattern.platform), destination)
  {
    var used := Used(blocks, pattern.platform);
    SignalsExactly(pattern, selected);
    var extensions := ComponentsAt(used, Extensions);
    var processors := ComponentsAt(used, Processors);
    hide NamesAt, Signals, SignalChosen, Components, ReceiversFor, Used, Configured;
    forall signal
      ensures exists places :: NamesAt(used, ReceiversFor(used, signal), places, ReceivesFor(signal))
    {
      var receivers := ReceiversAt(used, signal);
    }
    forall signal | signal in document.pipelines ensures document.pipelines[signal].receivers[1..] == ReceiversFor(used, signal) {
    }
  }

  /** Why nothing is generated: the first of these that applies. The blocks are looked at in their order. */
  lemma RefusedExactly(pattern: Option<Pattern>, selected: seq<string>, blocks: seq<Option<Block>>, destination: Option<Destination>)
    ensures var outcome := Generate(pattern, selected, blocks, destination);
      && (outcome == Refused(PatternRequired) <==> pattern.None?)
      && (outcome == Refused(DestinationRequired) <==> pattern.Some? && destination.None?)
      && (pattern.Some? && destination.Some? ==>
            && (outcome == Refused(InvalidDestination) <==> destination.value.configuration.None?)
            && (outcome == Refused(InvalidPattern) <==> destination.value.configuration.Some? && pattern.value.configuration.None?)
            && (outcome == Refused(NoSignal) <==> destination.value.configuration.Some? && pattern.value.configuration.Some?
                                                  && forall signal :: !SignalChosen(pattern.value, selected, signal))
            && (outcome.Refused? && (outcome.problem.InvalidBlock? || outcome.problem.UnsupportedKind?) ==>
                  exists k :: 0 <= k < |blocks| && Faulty(blocks, k, pattern.value.platform, outcome.problem)))
  {
    if pattern.Some? {
      SignalsExactly(pattern.value, selected);
      if FirstProblem(Used(blocks, pattern.value.platform)).Some? {
        var k := FaultyBlock(blocks, pattern.value.platform);
      }
    }
    hide Signals, SignalChosen, Faulty;
  }

  /** The first used block that does not decode or is of an unknown kind, and what is wrong with it. */
  predicate Faulty(blocks: seq<Option<Block>>, k: nat, platform: string, problem: Problem)
    requires k < |blocks|
  {
    && InUse(blocks[k], platform)
    && (match problem
        case InvalidBlock(name) => blocks[k].value.configuration.None? && name == blocks[k].value.name
        case UnsupportedKind(kind) => blocks[k].value.configuration.Some? && blocks[k].value.kind == kind && kind.Other?
        case _ => false)
    && forall j | 0 <= j < k && InUse(blocks[j], platform) :: blocks[j].value.configuration.Some? && !blocks[j].value.kind.Other?
  }

  lemma {:induction false} FaultyBlock(blocks: seq<Option<Block>>, platform: string) returns (k: nat)
    requires FirstProblem(Used(blocks, platform)).Some?
    ensures k < |blocks| && Faulty(blocks, k, platform, FirstProblem(Used(blocks, platform)).value)
  {
    ProblemOf(blocks, platform);
    hide *;
    var last := |blocks| - 1;
    if FirstProblem(Used(blocks[..last], platform)).Some? {
      k := FaultyBlock(blocks[..last], platform);
      FaultyStays(blocks, k, platform, FirstProblem(Used(blocks, platform)).value);
    } else {
      k := last;
      LastFaulty(blocks, platform);
    }
  }

  /** The problem is found before the last block, or is that block's own. */
  lemma ProblemOf(blocks: seq<Option<Block>>, platform: string)
    requires FirstProblem(Used(blocks, platform)).Some?
    ensures blocks != []
    ensures var last := |blocks| - 1;
      if FirstProblem(Used(blocks[..last], platform)).Some?
      then FirstProblem(Used(blocks, platform)) == FirstProblem(Used(blocks[..last], platform))
      else InUse(blocks[last], platform) && FirstProblem(Used(blocks, platform)) == BlockProblem(blocks[last].value)
  {
    assert blocks != [];
    var last := |blocks| - 1;
    var before, used := Used(blocks[..last], platform), Used(blocks, platform);
    if Usable(blocks[last], platform) {
      assert used == before + [blocks[last].value];
      assert used[..|used| - 1] == before && used[|used| - 1] == blocks[last].value;
    } else {
      assert used == before;
    }
    hide Used;
  }

  lemma LastFaulty(blocks: seq<Option<Block>>, platform: string)
    requires blocks != [] && FirstProblem(Used(blocks[..|blocks| - 1], platform)).None?
    requires InUse(blocks[|blocks| - 1], platform) && BlockProblem(blocks[|blocks| - 1].value).Some?
    ensures Faulty(blocks, |blocks| - 1, platform, BlockProblem(blocks[|blocks| - 1].value).value)
  {
    AllSound(blocks, |blocks| - 1, platform);
    hide Used, FirstProblem;
  }

  lemma FaultyStays(blocks: seq<Option<Block>>, k: nat, platform: string, problem: Problem)
    requires k < |blocks| - 1 && Faulty(blocks[..|blocks| - 1], k, platform, problem)
    ensures Faulty(blocks, k, platform, problem)
  {
    assert forall j :: 0 <= j <= k ==> blocks[..|blocks| - 1][j] == blocks[j];
  }

  lemma AllSound(blocks: seq<Option<Block>>, n: nat, platform: string)
    requires n <= |blocks| && FirstProblem(Used(blocks[..n], platform)).None?
    ensures forall j :: 0 <= j < n && InUse(blocks[j], platform) ==> blocks[j].value.configuration.Some? && !blocks[j].value.kind.Other?
  {
    var before := Used(blocks[..n], platform);
    FirstProblemNoneIff(before);
    hide Used;
    forall j | 0 <= j < n && InUse(blocks[j], platform) ensures blocks[j].value.configuration.Some? && !blocks[j].value.kind.Other? {
      assert blocks[..n][j] == blocks[j];
      UsedIff(blocks[..n], platform, blocks[j].value);
      var i :| 0 <= i < |before| && before[i] == blocks[j].value;
      assert BlockProblem(before[i]).None?;
    }
  }
}
