/** Adopting a pattern: the configuration of one matched receiver is replaced by the pattern's. */
module Adoption {
  import opened Wrappers
  import opened TextOrder
  import opened CollectorTree
  import opened PatternMatch

  datatype Problem =
    | PatternUnavailable
    | NotImportable
    | ReceiversNotMapping
    | ReceiverMissing
    | InvalidConfiguration

  datatype Change = Aligned(receiver: string, pattern: string) | OthersLeft(receiver: string)

  datatype Outcome = Adopted(tree: Tree, changes: seq<Change>) | Refused(problem: Problem)

  /** What takes the place of the receiver's configuration: a blank text stands for no settings. */
  function ReceiverConfiguration(configuration: Configuration): Option<Tree> {
    match configuration
    case Blank => Some(Mapping([]))
    case Parsed(tree) => if tree.Mapping? then Some(tree) else None
    case _ => None
  }

  function Replaced(root: Tree, name: string, configuration: Tree): Tree
    requires root.Mapping?
  {
    Mapping(Put(root.entries, "receivers", Mapping(Put(Receivers(root), name, configuration))))
  }

  function Adopt(root: Tree, pattern: Option<Pattern>): Outcome {
    if pattern.None? || !pattern.value.enabled then Refused(PatternUnavailable)
    else if !Importable(root) then Refused(NotImportable)
    else if Value(root, "receivers").None? || !Value(root, "receivers").value.Mapping? then Refused(ReceiversNotMapping)
    else if ReceiverByType(root, pattern.value.receiver).None? then Refused(ReceiverMissing)
    else if ReceiverConfiguration(pattern.value.configuration).None? then Refused(InvalidConfiguration)
    else
      var name := ReceiverByType(root, pattern.value.receiver).value;
      var configuration := ReceiverConfiguration(pattern.value.configuration).value;
      Adopted(
        Canonical(Replaced(root, name, configuration)),
        (if Find(Receivers(root), name) == Some(configuration) then [] else [Aligned(name, pattern.value.name)]) +
        (if |NamesOfType(Receivers(root), pattern.value.receiver)| > 1 then [OthersLeft(pattern.value.receiver)] else []))
  }

  // ---------- What an adoption leaves alone ----------

  lemma ReceiversSame(a: Tree, b: Tree)
    requires Keyed(a) && Keyed(b) && SameDocument(a, b)
    ensures Content(Receivers(a)) == Content(Receivers(b))
    ensures Distinct(Keys(Receivers(a))) && Distinct(Keys(Receivers(b)))
  {
    SameValue(a, b, "receivers");
    if Value(a, "receivers").Some? {
      ValueKeyed(a, "receivers");
      ValueKeyed(b, "receivers");
    }
  }

  lemma PipelinesSame(a: Tree, b: Tree)
    requires SameDocument(a, b)
    ensures Content(Pipelines(a)).Keys == Content(Pipelines(b)).Keys
  {
    SameValue(a, b, "service");
    if Value(a, "service").Some? {
      ValueContent(Value(a, "service").value, "pipelines");
      ValueContent(Value(b, "service").value, "pipelines");
    }
  }

  lemma SameSignals(a: Tree, b: Tree)
    requires SameDocument(a, b)
    ensures PipelineSignals(a) == PipelineSignals(b)
  {
    PipelinesSame(a, b);
    ContentKeys(Pipelines(a));
    ContentKeys(Pipelines(b));
    forall name ensures name in Keys(Pipelines(a)) <==> name in Keys(Pipelines(b)) {
      assert name in Content(Pipelines(a)) <==> name in Content(Pipelines(b));
    }
  }

  lemma ReplacedParts(root: Tree, name: string, configuration: Tree)
    requires root.Mapping? && Value(root, "receivers").Some? && Value(root, "receivers").value.Mapping?
    ensures Receivers(Replaced(root, name, configuration)) == Put(Receivers(root), name, configuration)
    ensures forall key | key != "receivers" :: Value(Replaced(root, name, configuration), key) == Value(root, key)
    ensures Pipelines(Replaced(root, name, configuration)) == Pipelines(root)
  {
    var receivers := Mapping(Put(Receivers(root), name, configuration));
    forall key ensures Value(Replaced(root, name, configuration), key)
        == if key == "receivers" then Some(receivers) else Value(root, key)
    {
      PutFind(root.entries, "receivers", receivers, key);
    }
    assert Value(Replaced(root, name, configuration), "receivers") == Some(receivers);
    assert Value(Replaced(root, name, configuration), "service") == Value(root, "service");
  }

  lemma ReplacedImportable(root: Tree, name: string, configuration: Tree)
    requires Importable(root) && Keyed(configuration)
    requires Value(root, "receivers").Some? && Value(root, "receivers").value.Mapping?
    ensures Importable(Replaced(root, name, configuration))
  {
    var result := Replaced(root, name, configuration);
    ValueKeyed(root, "receivers");
    PutKeyed(Receivers(root), name, configuration);
    PutKeyed(root.entries, "receivers", Mapping(Put(Receivers(root), name, configuration)));
    forall key | key in Content(result.entries) ensures ImportableSection(key, Content(result.entries)[key]) {
      ValueContent(root, key);
      ValueContent(result, key);
      ReplacedParts(root, name, configuration);
      PutFind(root.entries, "receivers", Mapping(Put(Receivers(root), name, configuration)), key);
    }
  }

  function Target(root: Tree, pattern: Pattern): string
    requires ReceiverByType(root, pattern.receiver).Some?
  {
    ReceiverByType(root, pattern.receiver).value
  }

  function Settings(pattern: Pattern): Tree
    requires ReceiverConfiguration(pattern.configuration).Some?
  {
    ReceiverConfiguration(pattern.configuration).value
  }

  /** Only the chosen receiver's subtree differs, up to layout: every other section and every other
      receiver is as it was. A pattern whose settings repeat a key gives a document that cannot be
      imported again; for every other pattern the result can. */
  lemma OnlyTargetChanges(root: Tree, pattern: Pattern, key: string)
    requires Adopt(root, Some(pattern)).Adopted? && Decodes(pattern.configuration)
    ensures var result := Adopt(root, Some(pattern)).tree;
      && Importable(result)
      && Content(Receivers(result)) == Content(Receivers(root))[Target(root, pattern) := Settings(pattern)]
      && (key != "receivers" ==> (Value(result, key).Some? <==> Value(root, key).Some?))
      && (key != "receivers" && Value(root, key).Some? ==> SameSection(key, Value(root, key).value, Value(result, key).value))
  {
    hide Canonical, SameDocument, SameSection, Importable, Replaced, Receivers, ReceiverByType;
    ImportableParts(root);
    var name, configuration := Target(root, pattern), Settings(pattern);
    var replaced := Replaced(root, name, configuration);
    SettingsKeyed(pattern);
    ReplacedImportable(root, name, configuration);
    ImportableParts(replaced);
    CanonicalSame(replaced);
    CanonicalImportable(replaced);
    ReceiversSame(replaced, Canonical(replaced));
    ReplacedParts(root, name, configuration);
    PutContent(Receivers(root), name, configuration);
    SameValue(replaced, Canonical(replaced), key);
  }

  /** The settings end up in the laid-out document as they are. */
  lemma SettingsKept(root: Tree, name: string, configuration: Tree)
    requires root.Mapping?
    ensures var result := Canonical(Replaced(root, name, configuration));
      Keyed(result) ==> Keyed(configuration)
  {
    var receivers := Put(Receivers(root), name, configuration);
    var replaced := Replaced(root, name, configuration);
    var result := Canonical(replaced);
    PutContent(root.entries, "receivers", Mapping(receivers));
    ArrangeSound(CANONICAL_SECTIONS, replaced.entries);
    EachContent(Arrange(CANONICAL_SECTIONS, replaced.entries), TidySection);
    assert Content(result.entries)["receivers"] == Tidy(Mapping(receivers)) by {
      assert "receivers" == COMPONENT_SECTIONS[0];
    }
    PutContent(Receivers(root), name, configuration);
    ArrangeSound([], receivers);
    if Keyed(result) {
      KeyedContent(result.entries, "receivers");
      KeyedContent(Arrange([], receivers), name);
    }
  }

  /** An adopted document can be imported again exactly when the pattern's configuration decodes,
      that is, repeats no key. */
  lemma AdoptedImportableIff(root: Tree, pattern: Pattern)
    requires Adopt(root, Some(pattern)).Adopted?
    ensures Importable(Adopt(root, Some(pattern)).tree) <==> Decodes(pattern.configuration)
  {
    if Decodes(pattern.configuration) { OnlyTargetChanges(root, pattern, "service"); }
    SettingsKept(root, Target(root, pattern), Settings(pattern));
  }

  lemma ImportableParts(root: Tree)
    requires Importable(root)
    ensures root.Mapping? && Keyed(root)
  {
  }

  lemma SettingsKeyed(pattern: Pattern)
    requires ReceiverConfiguration(pattern.configuration).Some? && Decodes(pattern.configuration)
    ensures Keyed(Settings(pattern)) && Features("", Settings(pattern)) == ExpectedFeatures(pattern.configuration)
  {
  }

  /** The adopted receiver is the one the pattern is matched against from now on, and it carries
      the pattern's settings. */
  lemma AdoptedReceiverIsChosen(root: Tree, pattern: Pattern)
    requires Adopt(root, Some(pattern)).Adopted? && Decodes(pattern.configuration)
    ensures var result := Adopt(root, Some(pattern)).tree;
      && ReceiverByType(result, pattern.receiver) == ReceiverByType(root, pattern.receiver)
      && Find(Receivers(result), Target(root, pattern)) == Some(Settings(pattern))
      && PipelineSignals(result) == PipelineSignals(root)
      && (forall name :: name in Keys(Receivers(result)) <==> name in Keys(Receivers(root)))
  {
    var result := Adopt(root, Some(pattern)).tree;
    OnlyTargetChanges(root, pattern, "service");
    ReceiverIsLeast(root, pattern.receiver);
    ContentKeys(Receivers(root));
    ContentKeys(Receivers(result));
    forall name ensures name in Keys(Receivers(result)) <==> name in Keys(Receivers(root)) {
      assert name in Content(Receivers(result)) <==> name in Content(Receivers(root));
    }
    SameNamesSameReceiver(root, result, pattern.receiver);
    ContentFind(Receivers(result), Target(root, pattern));
    var replaced := Replaced(root, Target(root, pattern), Settings(pattern));
    ReplacedParts(root, Target(root, pattern), Settings(pattern));
    SettingsKeyed(pattern);
    ReplacedImportable(root, Target(root, pattern), Settings(pattern));
    CanonicalSame(replaced);
    SameSignals(replaced, result);
  }

  /** The structure score becomes exactly 20, the signal score stays, and the match score does not
      drop. */
  lemma AdoptionRaisesScore(root: Tree, pattern: Pattern)
    requires Adopt(root, Some(pattern)).Adopted? && Decodes(pattern.configuration)
    ensures var result := Adopt(root, Some(pattern)).tree;
      var signals := SignalScore(PipelineSignals(root), pattern.signals);
      && MatchScore(root, pattern).Some?
      && MatchScore(result, pattern) == Some(75 + signals)
      && MatchScore(root, pattern).value <= 75 + signals
  {
    var result := Adopt(root, Some(pattern)).tree;
    AdoptedReceiverIsChosen(root, pattern);
    SettingsKeyed(pattern);
    ReceiverIsLeast(root, pattern.receiver);
    var name := Target(root, pattern);
    ContentKeys(Receivers(root));
    ContentFind(Receivers(root), name);
    var wanted := ExpectedFeatures(pattern.configuration);
    SimilarityBounds(wanted, wanted);
    ScoreRange(PipelineSignals(root), pattern.signals, wanted, wanted);
    SimilarityBounds(Features("", Find(Receivers(root), name).value), wanted);
    ScoreRange(PipelineSignals(root), pattern.signals, Features("", Find(Receivers(root), name).value), wanted);
  }

  lemma {:induction false} NamesOfTypeDistinct(entries: seq<Entry>, componentType: string)
    requires Distinct(Keys(entries))
    ensures Distinct(NamesOfType(entries, componentType))
  {
    if entries != [] {
      assert Keys(entries[1..]) == Keys(entries)[1..];
      NamesOfTypeDistinct(entries[1..], componentType);
      NamesOfTypeIff(entries[1..], componentType, entries[0].key);
      assert Keys(entries)[0] !in Keys(entries)[1..];
    }
  }

  /** A second adoption makes no change and reports no alignment; what it may still report is that
      other receivers of the type were left alone. */
  lemma SecondAdoptionAligned(root: Tree, pattern: Pattern)
    requires Adopt(root, Some(pattern)).Adopted? && Decodes(pattern.configuration)
    ensures var result := Adopt(root, Some(pattern)).tree;
      Adopt(result, Some(pattern)) == Adopted(result,
        if |NamesOfType(Receivers(root), pattern.receiver)| > 1 then [OthersLeft(pattern.receiver)] else [])
  {
    var result := Adopt(root, Some(pattern)).tree;
    var name := Target(root, pattern);
    AdoptedReceiverIsChosen(root, pattern);
    OnlyTargetChanges(root, pattern, "receivers");
    ReceiverIsLeast(result, pattern.receiver);
    SettingsKeyed(pattern);
    ReplacedImportable(root, name, Settings(pattern));
    CanonicalIdempotent(Replaced(root, name, Settings(pattern)));
    CountSame(root, result, pattern.receiver);
    PutSame(Receivers(result), name, Settings(pattern));
    PutSame(result.entries, "receivers", Mapping(Receivers(result)));
    assert Replaced(result, name, Settings(pattern)) == result;
  }

  lemma CountSame(a: Tree, b: Tree, componentType: string)
    requires Keyed(a) && Keyed(b)
    requires forall name :: name in Keys(Receivers(a)) <==> name in Keys(Receivers(b))
    ensures |NamesOfType(Receivers(a), componentType)| == |NamesOfType(Receivers(b), componentType)|
  {
    if Value(a, "receivers").Some? { ValueKeyed(a, "receivers"); }
    if Value(b, "receivers").Some? { ValueKeyed(b, "receivers"); }
    var x, y := NamesOfType(Receivers(a), componentType), NamesOfType(Receivers(b), componentType);
    NamesOfTypeDistinct(Receivers(a), componentType);
    NamesOfTypeDistinct(Receivers(b), componentType);
    forall name ensures name in x <==> name in y {
      NamesOfTypeIff(Receivers(a), componentType, name);
      NamesOfTypeIff(Receivers(b), componentType, name);
    }
    SameNamesSameMultiset(x, y);
    assert |multiset(x)| == |x| && |multiset(y)| == |y|;
  }
}
