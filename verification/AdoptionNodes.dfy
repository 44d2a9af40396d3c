/** Adopting a pattern in the nodes of a document, in place. */
module AdoptionNodes {
  import opened Wrappers
  import opened TextOrder
  import opened CollectorTree
  import opened CollectorNodes
  import opened PatternMatch
  import opened Adoption

  /** Two nodes print alike exactly when they show the same tree. */
  method NodesEqual(a: Node, b: Node) returns (equal: bool)
    requires a.Valid() && b.Valid()
    ensures equal == (a.tree == b.tree)
    decreases a.repr
  {
    KindShown(a);
    KindShown(b);
    if a.kind != b.kind { return false; }
    match a.kind {
      case ScalarNode =>
        equal := a.tag == b.tag && a.value == b.value;
      case SequenceNode =>
        equal := SameItems(a, b);
      case MappingNode =>
        equal := SamePairs(a, b);
    }
  }

  method SameItems(a: Node, b: Node) returns (equal: bool)
    requires a.Valid() && b.Valid() && a.kind == SequenceNode && b.kind == SequenceNode
    ensures equal == (a.tree == b.tree)
    decreases a.repr, 0
  {
    if |a.content| != |b.content| {
      assert |a.Items()| != |b.Items()|;
      return false;
    }
    for i := 0 to |a.content|
      invariant a.Items()[..i] == b.Items()[..i]
    {
      var same := NodesEqual(a.content[i], b.content[i]);
      assert a.Items()[i] == a.content[i].tree && b.Items()[i] == b.content[i].tree;
      if !same { return false; }
    }
    assert a.Items()[..|a.content|] == a.Items() && b.Items()[..|a.content|] == b.Items();
    equal := true;
  }

  method SamePairs(a: Node, b: Node) returns (equal: bool)
    requires a.Valid() && b.Valid() && a.kind == MappingNode && b.kind == MappingNode
    ensures equal == (a.tree == b.tree)
    decreases a.repr, 0
  {
    if |a.content| != |b.content| {
      assert |a.Entries()| != |b.Entries()|;
      return false;
    }
    var i := 0;
    while i < |a.content|
      invariant i % 2 == 0 && i <= |a.content|
      invariant a.Entries()[..i / 2] == b.Entries()[..i / 2]
    {
      var same := NodesEqual(a.content[i + 1], b.content[i + 1]);
      assert a.Entries()[i / 2] == Entry(a.content[i].value, a.content[i + 1].tree);
      assert b.Entries()[i / 2] == Entry(b.content[i].value, b.content[i + 1].tree);
      if a.content[i].value != b.content[i].value || !same { return false; }
      i := i + 2;
    }
    assert a.Entries()[..i / 2] == a.Entries() && b.Entries()[..i / 2] == b.Entries();
    equal := true;
  }

  /** The names of the receivers of a type, in document order. */
  method ReceiverNames(receivers: Node, componentType: string) returns (names: seq<string>)
    requires receivers.Valid() && receivers.kind == MappingNode
    ensures receivers.tree.Mapping? && names == NamesOfType(receivers.tree.entries, componentType)
  {
    PairCount(receivers);
    ghost var entries := receivers.tree.entries;
    names := [];
    var i := 0;
    while 2 * i < |receivers.content|
      invariant i <= |entries|
      invariant names == NamesOfType(entries[..i], componentType)
    {
      ChildShown(receivers, i);
      NamesSnoc(entries[..i], entries[i], componentType);
      assert entries[..i + 1] == entries[..i] + [entries[i]];
      var name := receivers.content[2 * i].value;
      if ComponentType(name) == componentType { names := names + [name]; }
      i := i + 1;
    }
    assert entries[..i] == entries;
  }

  lemma {:induction false} NamesSnoc(entries: seq<Entry>, entry: Entry, componentType: string)
    ensures NamesOfType(entries + [entry], componentType)
         == NamesOfType(entries, componentType) + if ComponentType(entry.key) == componentType then [entry.key] else []
  {
    if entries == [] {
      assert [] + [entry] == [entry] && [entry][1..] == [];
    } else {
      assert (entries + [entry])[1..] == entries[1..] + [entry];
      NamesSnoc(entries[1..], entry, componentType);
    }
  }

  /** Puts other settings in the place of the named receiver's, and tells whether they print alike. */
  method ReplaceReceiver(receivers: Node, name: string, settings: Node) returns (same: bool)
    requires receivers.Valid() && receivers.kind == MappingNode && receivers.tree.Mapping?
    requires Find(receivers.tree.entries, name).Some?
    requires settings.Valid() && settings.repr !! receivers.repr
    modifies receivers
    ensures receivers.Valid() && receivers.repr == old(receivers.repr) + settings.repr
    ensures receivers.tree == Mapping(Put(old(receivers.tree.entries), name, settings.tree))
    ensures same == (Find(old(receivers.tree.entries), name) == Some(settings.tree))
    ensures settings.tree == old(settings.tree)
  {
    hide *;
    ghost var reprs := Children(receivers);
    ghost var entries := receivers.tree.entries;
    var previous, index := FindReceiver(receivers, name);
    PutFirst(entries, index, name, settings.tree);
    same := NodesEqual(previous, settings);
    receivers.content := receivers.content[2 * index + 1 := settings];
    forall j | 0 <= j < |receivers.content| && j != 2 * index + 1
      ensures receivers.content[j].Valid() && receivers.content[j].repr !! settings.repr
    {
      assert receivers !in reprs[j] && reprs[j] <= old(receivers.repr);
    }
    ChildReplaced(receivers, receivers.repr + settings.repr, index, entries, reprs);
    receivers.Refresh(receivers.repr + settings.repr);
  }

  method FindReceiver(receivers: Node, name: string) returns (found: Node, index: nat)
    requires receivers.Valid() && receivers.kind == MappingNode && receivers.tree.Mapping?
    requires Find(receivers.tree.entries, name).Some?
    ensures 2 * index + 1 < |receivers.content| && receivers.content[2 * index + 1] == found && found.Valid()
    ensures FirstAt(receivers.tree.entries, index, name) && receivers.tree.entries[index].value == found.tree
  {
    PairCount(receivers);
    ghost var entries := receivers.tree.entries;
    index := 0;
    while 2 * index < |receivers.content| && receivers.content[2 * index].value != name
      invariant index <= |entries|
      invariant forall j | 0 <= j < index :: entries[j].key != name
      invariant Find(entries[index..], name) == Find(entries, name)
    {
      ChildShown(receivers, index);
      assert entries[index..][1..] == entries[index + 1..];
      index := index + 1;
    }
    ChildShown(receivers, index);
    found := receivers.content[2 * index + 1];
  }

  method ReplaceReceiverOf(root: Node, receivers: Node, ghost index: nat, name: string, settings: Node) returns (same: bool)
    requires root.Valid() && root.kind == MappingNode && root.tree.Mapping?
    requires FirstAt(root.tree.entries, index, "receivers")
    requires 2 * index + 1 < |root.content| && root.content[2 * index + 1] == receivers
    requires receivers.kind == MappingNode && receivers.tree.Mapping? && Find(receivers.tree.entries, name).Some?
    requires settings.Valid() && settings.repr !! root.repr
    modifies root.repr
    ensures root.Valid() && root.repr == old(root.repr) + settings.repr
    ensures root.tree == Replaced(old(root.tree), name, settings.tree)
    ensures same == (Find(Receivers(old(root.tree)), name) == Some(settings.tree)) && settings.tree == old(settings.tree)
  {
    hide *;
    ghost var reprs := Children(root);
    ghost var entries := root.tree.entries;
    ReplacedAt(root.tree, index, name, settings.tree);
    same := ReplaceReceiver(receivers, name, settings);
    forall j | 0 <= j < |root.content| && j != 2 * index + 1
      ensures unchanged(root.content[j]) && root.content[j].Valid() && root.content[j].repr !! receivers.repr
    {
      ApartAt(reprs, j, 2 * index + 1);
    }
    ChildReplaced(root, root.repr + receivers.repr, index, entries, reprs);
    root.Refresh(root.repr + receivers.repr);
  }

  lemma ReplacedAt(root: Tree, i: nat, name: string, settings: Tree)
    requires root.Mapping? && FirstAt(root.entries, i, "receivers")
    requires i < |root.entries| && root.entries[i].value.Mapping?
    ensures Receivers(root) == root.entries[i].value.entries
    ensures Replaced(root, name, settings)
         == Mapping(root.entries[i := Entry(root.entries[i].key, Mapping(Put(Receivers(root), name, settings)))])
  {
    hide Put, FirstAt;
    PutFirst(root.entries, i, "receivers", Mapping([]));
    PutFirst(root.entries, i, "receivers", Mapping(Put(Receivers(root), name, settings)));
  }

  /** The receivers section, where it is, and the names of the receivers of a type. */
  method Candidates(root: Node, componentType: string)
    returns (problem: Option<Problem>, receivers: Node, ghost index: nat, names: seq<string>)
    requires root.Valid() && root.kind == MappingNode && root.tree.Mapping?
    ensures problem ==
      if Value(root.tree, "receivers").None? || !Value(root.tree, "receivers").value.Mapping? then Some(ReceiversNotMapping)
      else if ReceiverByType(root.tree, componentType).None? then Some(ReceiverMissing)
      else None
    ensures problem.None? ==>
      && FirstAt(root.tree.entries, index, "receivers")
      && 2 * index + 1 < |root.content| && root.content[2 * index + 1] == receivers
      && receivers.kind == MappingNode && receivers.tree == Mapping(Receivers(root.tree))
      && names == NamesOfType(Receivers(root.tree), componentType) && names != []
  {
    hide Node.Valid, FirstAt, Find;
    problem, names := None, [];
    var found;
    found, index := MappingValue(root, "receivers");
    receivers := root;
    if found == null { return Some(ReceiversNotMapping), receivers, index, []; }
    receivers := found;
    KindShown(receivers);
    if receivers.kind != MappingNode { return Some(ReceiversNotMapping), receivers, index, []; }
    names := ReceiverNames(receivers, componentType);
    SortSound([], names);
    if |names| == 0 { problem := Some(ReceiverMissing); }
  }

  lemma TargetFacts(root: Tree, pattern: Pattern, names: seq<string>)
    requires Importable(root) && ReceiverConfiguration(pattern.configuration).Some?
    requires Value(root, "receivers").Some? && Value(root, "receivers").value.Mapping?
    requires names == NamesOfType(Receivers(root), pattern.receiver) && names != []
    ensures Sorted(names) != [] && ReceiverByType(root, pattern.receiver) == Some(Sorted(names)[0])
    ensures root.Mapping? && Find(Receivers(root), Sorted(names)[0]).Some?
    ensures Orderable(Replaced(root, Sorted(names)[0], Settings(pattern)))
  {
    SortSound([], names);
    ReceiverIsLeast(root, pattern.receiver);
    ContentKeys(Receivers(root));
    ContentFind(Receivers(root), Sorted(names)[0]);
    ReplacedOrderable(root, Sorted(names)[0], Settings(pattern));
  }

  /** Whatever the new settings repeat, the layout arranges other mappings. */
  /** What a document with a replaced receiver has under each key. */
  lemma ReplacedValues(root: Tree, name: string, settings: Tree)
    requires Importable(root) && Find(Receivers(root), name).Some?
    ensures var result, receivers := Replaced(root, name, settings), Mapping(Put(Receivers(root), name, settings));
      && result.Mapping? && Keys(result.entries) == Keys(root.entries) && Keys(receivers.entries) == Keys(Receivers(root))
      && forall key :: Value(result, key) == if key == "receivers" then Some(receivers) else Value(root, key)
  {
    var receivers := Mapping(Put(Receivers(root), name, settings));
    PutKeys(root.entries, "receivers", receivers);
    PutKeys(Receivers(root), name, settings);
    ContentFind(root.entries, "receivers");
    ContentKeys(root.entries);
    ContentFind(Receivers(root), name);
    ContentKeys(Receivers(root));
    hide Put, Keys, Content, Importable;
    forall key { PutFind(root.entries, "receivers", receivers, key); }
    hide Find;
  }

  lemma ReplacedOrderable(root: Tree, name: string, settings: Tree)
    requires Importable(root) && Find(Receivers(root), name).Some?
    ensures Orderable(Replaced(root, name, settings))
  {
    KeyedOrderable(root);
    ReplacedValues(root, name, settings);
    var result := Replaced(root, name, settings);
    hide Replaced, Put, Find, Keys, Importable, TextOrder.Distinct;
    assert UnrepeatedUnder(root, "receivers");
    hide Receivers;
    forall section | section in COMPONENT_SECTIONS ensures UnrepeatedUnder(result, section) { assert UnrepeatedUnder(root, section); }
  }

  /** Adopts the pattern in place. The text has been inspected before it was decoded; `settings` is
      the node the pattern's configuration decodes to, if it does. */
  method AdoptCollectorPattern(root: Node, importable: bool, pattern: Option<Pattern>, settings: Node?)
    returns (problem: Option<Problem>, changes: seq<Change>)
    requires root.Valid() && importable == Importable(root.tree)
    requires settings != null ==> settings.Valid() && settings.repr !! root.repr
    requires pattern.Some? ==>
      && (settings == null <==> ReceiverConfiguration(pattern.value.configuration).None?)
      && (settings != null ==> Some(settings.tree) == ReceiverConfiguration(pattern.value.configuration))
    modifies root.repr, if settings != null then settings.repr else {}
    ensures match Adopt(old(root.tree), pattern)
      case Adopted(tree, reported) => problem.None? && changes == reported && root.Valid() && root.tree == tree
      case Refused(reason) => problem == Some(reason) && changes == []
  {
    changes := [];
    if pattern.None? || !pattern.value.enabled { return Some(PatternUnavailable), []; }
    if !importable { return Some(NotImportable), []; }
    KindShown(root);
    hide Node.Valid, Replaced, Canonical, ReceiverByType, Receivers, ReceiverConfiguration, Decodes, NamesOfType, Find, Value, Keyed, Orderable;
    var receivers;
    ghost var index;
    var names;
    problem, receivers, index, names := Candidates(root, pattern.value.receiver);
    if problem.Some? { return; }
    if settings == null { return Some(InvalidConfiguration), []; }
    TargetFacts(root.tree, pattern.value, names);
    var target := Sorted(names)[0];
    var same := ReplaceReceiverOf(root, receivers, index, target, settings);
    KindShown(root);
    CanonicalizeCollectorLayout(root);
    if !same { changes := changes + [Aligned(target, pattern.value.name)]; }
    if |names| > 1 { changes := changes + [OthersLeft(pattern.value.receiver)]; }
  }
}
