/** The document as the program holds it: nodes that are rewritten in place. Each node shows the tree
    it stands for, and owns the nodes below it. */
module CollectorNodes {
  import opened Wrappers
  import opened TextOrder
  import opened CollectorTree

  datatype Kind = ScalarNode | MappingNode | SequenceNode

  class Node {
    const kind: Kind
    const tag: string
    const value: string
    /** A mapping alternates keys and values. */
    var content: seq<Node>
    ghost var tree: Tree
    ghost var repr: set<Node>

    constructor (kind: Kind, tag: string, value: string)
      ensures this.kind == kind && this.tag == tag && this.value == value && content == []
      ensures Valid() && repr == {this}
      ensures tree == match kind case ScalarNode => Scalar(tag, value) case MappingNode => Mapping([]) case SequenceNode => Sequence([])
    {
      this.kind, this.tag, this.value := kind, tag, value;
      content := [];
      repr := {this};
      tree := match kind case ScalarNode => Scalar(tag, value) case MappingNode => Mapping([]) case SequenceNode => Sequence([]);
    }

    /** The nodes below are valid, lie in the region, and share nothing with each other. */
    ghost predicate Assembled(region: set<Node>)
      requires this in region
      reads region
      decreases region, 0
    {
      && (forall i | 0 <= i < |content| ::
            content[i] in region && content[i].repr <= region && this !in content[i].repr && content[i].Valid())
      && (forall i, j | 0 <= i < j < |content| :: content[i].repr !! content[j].repr)
      && (kind == ScalarNode ==> content == [])
      && (kind == MappingNode ==> |content| % 2 == 0)
    }

    ghost predicate Valid()
      reads this, repr
      decreases repr, 1
    {
      && this in repr
      && Assembled(repr)
      && tree == Shown()
    }

    ghost function Entries(): seq<Entry>
      reads this, content
    {
      seq(|content| / 2, i requires 0 <= i < |content| / 2 reads this, content =>
        Entry(content[2 * i].value, content[2 * i + 1].tree))
    }

    ghost function Items(): seq<Tree>
      reads this, content
    {
      seq(|content|, i requires 0 <= i < |content| reads this, content => content[i].tree)
    }

    ghost function Shown(): Tree
      reads this, content
    {
      match kind
      case ScalarNode => Scalar(tag, value)
      case MappingNode => Mapping(Entries())
      case SequenceNode => Sequence(Items())
    }

    /** Brings the tree up to date after a node below has changed. */
    ghost method Refresh(region: set<Node>)
      requires this in region && Assembled(region)
      modifies this`tree, this`repr
      ensures Valid() && repr == region && tree == old(Shown())
    {
      repr := region;
      tree := Shown();
    }
  }

  predicate FirstAt(entries: seq<Entry>, i: nat, key: string) {
    i < |entries| && entries[i].key == key && forall j | 0 <= j < i :: entries[j].key != key
  }

  /** The value node under the key, and where it is. */
  method MappingValue(mapping: Node, key: string) returns (node: Node?, ghost index: nat)
    requires mapping.Valid()
    ensures node == null <==> Value(mapping.tree, key).None?
    ensures node != null ==>
      && mapping.kind == MappingNode && 2 * index + 1 < |mapping.content| && mapping.content[2 * index + 1] == node
      && mapping.tree.Mapping? && FirstAt(mapping.tree.entries, index, key)
      && node.Valid() && Value(mapping.tree, key) == Some(node.tree)
      && node in mapping.repr && node.repr <= mapping.repr && mapping !in node.repr
  {
    KindShown(mapping);
    node, index := null, 0;
    if mapping.kind != MappingNode { return; }
    PairCount(mapping);
    hide Node.Valid;
    ghost var entries := mapping.tree.entries;
    var i := 0;
    while 2 * i < |mapping.content|
      invariant i <= |entries|
      invariant Find(entries, key) == Find(entries[i..], key)
      invariant forall j | 0 <= j < i :: entries[j].key != key
    {
      ChildShown(mapping, i);
      if mapping.content[2 * i].value == key {
        ChildBelow(mapping, 2 * i + 1);
        index := i;
        node := mapping.content[2 * i + 1];
        return;
      }
      assert entries[i..][1..] == entries[i + 1..];
      i := i + 1;
    }
  }

  lemma ChildBelow(parent: Node, i: nat)
    requires parent.Valid() && i < |parent.content|
    ensures parent.content[i].Valid() && parent.content[i] in parent.repr
    ensures parent.content[i].repr <= parent.repr && parent !in parent.content[i].repr
  {
  }

  // ---------- Reordering one mapping ----------

  datatype Pair = Pair(key: Node, value: Node)

  /** The key and value nodes of a name. */
  function Nodes(pairs: map<string, Pair>, name: string): seq<Node> {
    if name in pairs then [pairs[name].key, pairs[name].value] else []
  }

  /** The nodes of these names, one pair after the other. */
  function Flat(pairs: map<string, Pair>, names: seq<string>): seq<Node> {
    if names == [] then [] else Flat(pairs, names[..|names| - 1]) + Nodes(pairs, names[|names| - 1])
  }

  lemma {:induction false} FlatAt(pairs: map<string, Pair>, names: seq<string>, i: nat)
    requires forall name | name in names :: name in pairs
    requires i < |names|
    ensures |Flat(pairs, names)| == 2 * |names|
    ensures Flat(pairs, names)[2 * i] == pairs[names[i]].key && Flat(pairs, names)[2 * i + 1] == pairs[names[i]].value
  {
    var last := |names| - 1;
    if i < last { FlatAt(pairs, names[..last], i); } else if last > 0 { FlatAt(pairs, names[..last], 0); }
  }

  lemma FlatSnoc(pairs: map<string, Pair>, names: seq<string>, name: string)
    ensures Flat(pairs, names + [name]) == Flat(pairs, names) + Nodes(pairs, name)
  {
    assert (names + [name])[..|names|] == names;
  }

  /** Where every name of a mapping is found: its content is the pairs of its names. */
  ghost predicate Indexed(mapping: Node, pairs: map<string, Pair>, keys: seq<string>)
    reads mapping
  {
    && (forall name :: name in pairs <==> name in keys)
    && mapping.content == Flat(pairs, keys)
  }

  lemma {:induction false} FlatFrame(pairs: map<string, Pair>, names: seq<string>, key: string, pair: Pair)
    requires key !in names
    ensures Flat(pairs[key := pair], names) == Flat(pairs, names)
  {
    if names != [] { FlatFrame(pairs, names[..|names| - 1], key, pair); }
  }

  method IndexPairs(mapping: Node) returns (pairs: map<string, Pair>, keys: seq<string>)
    requires mapping.Valid() && mapping.kind == MappingNode && Distinct(Keys(mapping.tree.entries))
    ensures keys == Keys(mapping.tree.entries) && Indexed(mapping, pairs, keys)
  {
    PairCount(mapping);
    KeyNames(mapping.tree.entries);
    NoNodes(map[]);
    hide *;
    pairs, keys := map[], [];
    ghost var all := Keys(mapping.tree.entries);
    var i := 0;
    while 2 * i < |mapping.content|
      invariant i <= |all| && keys == all[..i]
      invariant forall name :: name in pairs <==> name in keys
      invariant mapping.content[..2 * i] == Flat(pairs, keys)
    {
      ChildShown(mapping, i);
      var key := mapping.content[2 * i].value;
      var pair := Pair(mapping.content[2 * i], mapping.content[2 * i + 1]);
      NotYet(all, i);
      IndexStep(mapping.content, pairs, keys, i, key, pair);
      pairs := pairs[key := pair];
      keys := keys + [key];
      i := i + 1;
    }
    assert mapping.content[..2 * i] == mapping.content && all[..i] == all;
    IsIndexed(mapping, pairs, keys);
  }

  lemma IsIndexed(mapping: Node, pairs: map<string, Pair>, keys: seq<string>)
    ensures Indexed(mapping, pairs, keys) <==>
      (forall name :: name in pairs <==> name in keys) && mapping.content == Flat(pairs, keys)
  {
  }

  lemma NotYet(names: seq<string>, i: nat)
    requires Distinct(names) && i < |names|
    ensures names[i] !in names[..i] && names[..i + 1] == names[..i] + [names[i]]
  {
  }

  lemma KeyNames(entries: seq<Entry>)
    ensures |Keys(entries)| == |entries| && forall i | 0 <= i < |entries| :: Keys(entries)[i] == entries[i].key
  {
  }

  lemma IndexStep(content: seq<Node>, pairs: map<string, Pair>, keys: seq<string>, i: nat, key: string, pair: Pair)
    requires 2 * i + 1 < |content| && content[..2 * i] == Flat(pairs, keys) && key !in keys
    requires pair == Pair(content[2 * i], content[2 * i + 1])
    ensures content[..2 * (i + 1)] == Flat(pairs[key := pair], keys + [key])
  {
    FlatFrame(pairs, keys, key, pair);
    FlatSnoc(pairs[key := pair], keys, key);
    hide Flat;
    assert content[..2 * (i + 1)] == content[..2 * i] + [pair.key, pair.value];
  }

  method TakePreferred(pairs: map<string, Pair>, keys: seq<string>, preferred: seq<string>)
    returns (ordered: seq<Node>, used: set<string>)
    requires forall name :: name in pairs <==> name in keys
    ensures ordered == Flat(pairs, Chosen(preferred, keys))
    ensures forall name :: name in used <==> name in preferred && name in keys
  {
    ordered, used := [], {};
    ghost var names: seq<string> := [];
    assert Flat(pairs, names) == [];
    hide Flat;
    for i := 0 to |preferred|
      invariant names == Chosen(preferred[..i], keys)
      invariant ordered == Flat(pairs, names)
      invariant forall name :: name in used <==> name in preferred[..i] && name in keys
    {
      assert preferred[..i + 1][..i] == preferred[..i];
      if preferred[i] in pairs {
        FlatSnoc(pairs, names, preferred[i]);
        names := names + [preferred[i]];
        ordered := ordered + [pairs[preferred[i]].key, pairs[preferred[i]].value];
        used := used + {preferred[i]};
      }
    }
    assert preferred[..|preferred|] == preferred;
  }

  method TakeAll(pairs: map<string, Pair>, before: seq<Node>, ghost names: seq<string>, remaining: seq<string>)
    returns (ordered: seq<Node>)
    requires forall name | name in names + remaining :: name in pairs
    requires before == Flat(pairs, names)
    ensures ordered == Flat(pairs, names + remaining)
  {
    hide Flat;
    ordered := before;
    ghost var all := names + remaining;
    assert all[..|names|] == names;
    for i := 0 to |remaining|
      invariant ordered == Flat(pairs, all[..|names| + i])
    {
      assert remaining[i] == all[|names| + i] && all[|names| + i] in all;
      FlatSnoc(pairs, all[..|names| + i], remaining[i]);
      assert all[..|names| + i + 1] == all[..|names| + i] + [remaining[i]];
      ordered := ordered + [pairs[remaining[i]].key, pairs[remaining[i]].value];
    }
    assert all[..|names| + |remaining|] == all;
  }

  method OrderPairs(pairs: map<string, Pair>, keys: seq<string>, preferred: seq<string>) returns (ordered: seq<Node>)
    requires Distinct(keys) && Distinct(preferred) && forall name :: name in pairs <==> name in keys
    ensures ordered == Flat(pairs, Sort(preferred, keys))
  {
    hide Flat, Sort, Sorted, Chosen;
    var used;
    ordered, used := TakePreferred(pairs, keys, preferred);
    var remaining: seq<string> := [];
    for i := 0 to |keys|
      invariant remaining == Remaining(preferred, keys[..i])
    {
      assert keys[..i + 1][..i] == keys[..i];
      if keys[i] !in used { remaining := remaining + [keys[i]]; }
    }
    assert keys[..|keys|] == keys;
    ChosenThenRemaining(preferred, keys);
    SortSound(preferred, keys);
    ordered := TakeAll(pairs, ordered, Chosen(preferred, keys), Sorted(remaining));
  }

  lemma ShortArranged(preferred: seq<string>, entries: seq<Entry>)
    requires |entries| < 2
    ensures Arrange(preferred, entries) == entries
  {
    SortSound(preferred, Keys(entries));
    if entries != [] {
      assert Sort(preferred, Keys(entries)) == Keys(entries) by {
        assert Keys(entries) == [entries[0].key];
        assert Sort(preferred, Keys(entries)[1..]) == [];
      }
    }
  }

  lemma {:induction false} InsertFlat(pairs: map<string, Pair>, preferred: seq<string>, name: string, names: seq<string>)
    ensures multiset(Flat(pairs, Insert(preferred, name, names))) == multiset(Flat(pairs, names)) + multiset(Flat(pairs, [name]))
  {
    hide Flat, Precedes;
    if names == [] {
      NoNodes(pairs);
    } else if Precedes(preferred, name, names[0]) {
      FlatAppend(pairs, [name], names);
    } else {
      InsertFlat(pairs, preferred, name, names[1..]);
      FlatAppend(pairs, [names[0]], Insert(preferred, name, names[1..]));
      FlatAppend(pairs, [names[0]], names[1..]);
      assert names == [names[0]] + names[1..];
    }
  }

  lemma NoNodes(pairs: map<string, Pair>)
    ensures Flat(pairs, []) == []
  {
  }

  lemma {:induction false} FlatAppend(pairs: map<string, Pair>, a: seq<string>, b: seq<string>)
    ensures Flat(pairs, a + b) == Flat(pairs, a) + Flat(pairs, b)
  {
    if b == [] {
      assert a + b == a;
    } else {
      assert (a + b)[..|a + b| - 1] == a + b[..|b| - 1];
      FlatAppend(pairs, a, b[..|b| - 1]);
    }
  }

  /** Sorting names moves whole pairs, each once. */
  lemma {:induction false} SortFlat(pairs: map<string, Pair>, preferred: seq<string>, names: seq<string>)
    ensures multiset(Flat(pairs, Sort(preferred, names))) == multiset(Flat(pairs, names))
  {
    hide Flat, Insert;
    if names != [] {
      SortFlat(pairs, preferred, names[1..]);
      InsertFlat(pairs, preferred, names[0], Sort(preferred, names[1..]));
      FlatAppend(pairs, [names[0]], names[1..]);
      assert names == [names[0]] + names[1..];
    }
  }

  lemma {:induction false} CountedOnce(nodes: seq<Node>, node: Node)
    requires forall i, j | 0 <= i < j < |nodes| :: nodes[i] != nodes[j]
    ensures multiset(nodes)[node] <= 1
  {
    if nodes != [] {
      CountedOnce(nodes[1..], node);
      assert nodes == [nodes[0]] + nodes[1..];
      assert nodes[0] !in nodes[1..];
    }
  }

  /** Rearranged children are the same children, each once. */
  lemma SameChildren(mapping: Node, ordered: seq<Node>)
    requires mapping.Valid() && multiset(ordered) == multiset(mapping.content)
    ensures forall i | 0 <= i < |ordered| :: ordered[i] in mapping.content
    ensures forall i, j | 0 <= i < j < |ordered| :: ordered[i].repr !! ordered[j].repr
  {
    var reprs := Children(mapping);
    hide Node.Valid;
    forall i | 0 <= i < |ordered| ensures ordered[i] in mapping.content { assert ordered[i] in multiset(ordered); }
    forall i, j | 0 <= i < j < |mapping.content| ensures mapping.content[i] != mapping.content[j] {
      ApartAt(reprs, i, j);
    }
    forall i, j | 0 <= i < j < |ordered| ensures ordered[i].repr !! ordered[j].repr {
      CountedOnce(mapping.content, ordered[i]);
      if ordered[i] == ordered[j] { RepeatsCountTwice(ordered, i, j); }
      var x: nat :| x < |mapping.content| && mapping.content[x] == ordered[i];
      var y: nat :| y < |mapping.content| && mapping.content[y] == ordered[j];
      ApartAt(reprs, x, y);
    }
  }

  /** The i-th pair of nodes shows the i-th entry. */
  ghost predicate PairShows(nodes: seq<Node>, entries: seq<Entry>, i: nat)
    reads nodes
  {
    2 * i + 1 < |nodes| && i < |entries| && Entry(nodes[2 * i].value, nodes[2 * i + 1].tree) == entries[i]
  }

  lemma OrderedEntry(mapping: Node, pairs: map<string, Pair>, preferred: seq<string>, i: nat)
    requires mapping.Valid() && mapping.kind == MappingNode
    requires Distinct(Keys(mapping.tree.entries)) && Indexed(mapping, pairs, Keys(mapping.tree.entries))
    requires i < |Arrange(preferred, mapping.tree.entries)|
    ensures PairShows(Flat(pairs, Sort(preferred, Keys(mapping.tree.entries))), Arrange(preferred, mapping.tree.entries), i)
  {
    var entries := mapping.tree.entries;
    var keys := Keys(entries);
    var names := Sort(preferred, keys);
    SortSound(preferred, keys);
    assert |Arrange(preferred, entries)| == |names|;
    assert names[i] in names;
    var place: nat :| place < |keys| && keys[place] == names[i];
    ContentAt(entries, place);
    FlatAt(pairs, keys, place);
    ChildShown(mapping, place);
    forall name | name in names ensures name in pairs { assert name in keys; }
    FlatAt(pairs, names, i);
  }

  /** The children of a mapping, rearranged: they are the same children and show the arranged entries. */
  ghost predicate Rearranges(mapping: Node, ordered: seq<Node>, entries: seq<Entry>)
    reads mapping, ordered
  {
    && |ordered| == 2 * |entries|
    && multiset(ordered) == multiset(mapping.content)
    && forall i: nat | i < |entries| :: PairShows(ordered, entries, i)
  }

  lemma PairsArranged(mapping: Node, pairs: map<string, Pair>, preferred: seq<string>)
    requires mapping.Valid() && mapping.kind == MappingNode
    requires Distinct(Keys(mapping.tree.entries)) && Indexed(mapping, pairs, Keys(mapping.tree.entries))
    ensures Rearranges(mapping, Flat(pairs, Sort(preferred, Keys(mapping.tree.entries))), Arrange(preferred, mapping.tree.entries))
  {
    PairCount(mapping);
    var entries := mapping.tree.entries;
    hide Sort, Keys, Flat, Distinct, Arrange, Node.Valid, PairShows, Indexed;
    IsIndexed(mapping, pairs, Keys(entries));
    SortFlat(pairs, preferred, Keys(entries));
    ArrangedCount(preferred, entries);
    AllPresent(preferred, pairs, Keys(entries));
    forall i: nat | i < |Arrange(preferred, entries)|
      ensures PairShows(Flat(pairs, Sort(preferred, Keys(entries))), Arrange(preferred, entries), i)
    {
      OrderedEntry(mapping, pairs, preferred, i);
    }
  }

  lemma ArrangedCount(preferred: seq<string>, entries: seq<Entry>)
    ensures |Arrange(preferred, entries)| == |Sort(preferred, Keys(entries))|
  {
  }

  lemma AllPresent(preferred: seq<string>, pairs: map<string, Pair>, keys: seq<string>)
    requires forall name :: name in pairs <==> name in keys
    ensures |Flat(pairs, Sort(preferred, keys))| == 2 * |Sort(preferred, keys)|
  {
    var names := Sort(preferred, keys);
    SortSound(preferred, keys);
    if names != [] { FlatAt(pairs, names, 0); }
  }

  method ReorderMapping(mapping: Node, preferred: seq<string>)
    requires mapping.Valid() && Distinct(preferred)
    requires mapping.kind == MappingNode ==> Distinct(Keys(mapping.tree.entries))
    modifies mapping
    ensures mapping.Valid() && mapping.repr == old(mapping.repr)
    ensures mapping.tree == if mapping.kind == MappingNode then Mapping(Arrange(preferred, old(mapping.tree.entries))) else old(mapping.tree)
  {
    if mapping.kind != MappingNode { return; }
    if |mapping.content| < 4 {
      ShortArranged(preferred, mapping.tree.entries);
      return;
    }
    var pairs, keys := IndexPairs(mapping);
    var ordered := OrderPairs(pairs, keys, preferred);
    PairsArranged(mapping, pairs, preferred);
    Rearrange(mapping, ordered, Arrange(preferred, mapping.tree.entries));
  }

  method Rearrange(mapping: Node, ordered: seq<Node>, ghost entries: seq<Entry>)
    requires mapping.Valid() && mapping.kind == MappingNode && Rearranges(mapping, ordered, entries)
    modifies mapping
    ensures mapping.Valid() && mapping.repr == old(mapping.repr) && mapping.tree == Mapping(entries)
  {
    forall i | 0 <= i < |entries| ensures Entry(ordered[2 * i].value, ordered[2 * i + 1].tree) == entries[i] {
      assert PairShows(ordered, entries, i);
    }
    SameChildren(mapping, ordered);
    mapping.content := ordered;
    assert mapping.Entries() == entries;
    mapping.Refresh(mapping.repr);
  }

  // ---------- Changing a node below another ----------

  /** Applies a change to the value of one key. */
  function OnKey(name: string, change: Tree -> Tree): (string, Tree) -> Tree {
    (key, value) => if key == name then change(value) else value
  }

  lemma EachOnKey(entries: seq<Entry>, i: nat, key: string, change: Tree -> Tree)
    requires FirstAt(entries, i, key) && Distinct(Keys(entries))
    ensures i < |entries| && entries[i].key == key && Value(Mapping(entries), key) == Some(entries[i].value)
    ensures Each(entries, OnKey(key, change)) == entries[i := Entry(key, change(entries[i].value))]
  {
    forall j | 0 <= j < |entries| && j != i ensures entries[j].key != entries[i].key {
      assert Keys(entries)[j] != Keys(entries)[i];
    }
    ContentAt(entries, i);
    ContentFind(entries, key);
  }

  lemma EachOnAbsent(entries: seq<Entry>, name: string, change: Tree -> Tree)
    requires Value(Mapping(entries), name).None?
    ensures Each(entries, OnKey(name, change)) == entries
  {
    ContentFind(entries, name);
    ContentKeys(entries);
    forall j | 0 <= j < |entries| ensures entries[j].key != name { assert Keys(entries)[j] in Keys(entries); }
  }

  lemma KindShown(node: Node)
    requires node.Valid()
    ensures node in node.repr
    ensures node.tree.Scalar? <==> node.kind == ScalarNode
    ensures node.tree.Mapping? <==> node.kind == MappingNode
    ensures node.tree.Sequence? <==> node.kind == SequenceNode
  {
  }

  /** Sets that share nothing with each other. */
  ghost predicate Apart(reprs: seq<set<Node>>) {
    forall i, j | 0 <= i < j < |reprs| :: reprs[i] !! reprs[j]
  }

  lemma ApartAt(reprs: seq<set<Node>>, i: nat, j: nat)
    requires Apart(reprs) && i < |reprs| && j < |reprs| && i != j
    ensures reprs[i] !! reprs[j]
  {
  }

  ghost function ReprsOf(nodes: seq<Node>): seq<set<Node>>
    reads nodes
  {
    seq(|nodes|, i requires 0 <= i < |nodes| reads nodes => nodes[i].repr)
  }

  /** What the children of a valid node own. */
  lemma Children(parent: Node) returns (reprs: seq<set<Node>>)
    requires parent.Valid()
    ensures parent in parent.repr && |reprs| == |parent.content| && Apart(reprs)
    ensures forall i | 0 <= i < |parent.content| ::
      && parent.content[i].Valid() && parent.content[i].repr == reprs[i] && parent.content[i] in reprs[i]
      && reprs[i] <= parent.repr && parent !in reprs[i]
    ensures parent.kind == MappingNode ==> parent.tree.Mapping? && |parent.content| == 2 * |parent.tree.entries|
    ensures parent.kind == MappingNode ==> forall i | 0 <= i < |parent.tree.entries| ::
      parent.content[2 * i].value == parent.tree.entries[i].key && parent.content[2 * i + 1].tree == parent.tree.entries[i].value
  {
    reprs := ReprsOf(parent.content);
    forall i | 0 <= i < |parent.content| ensures parent.content[i].Valid() && parent.content[i] in parent.content[i].repr {
      assert parent.content[i].Valid();
    }
  }

  /** When one child has changed and is valid again, its parent is put together as before, with that
      child's tree replaced. */
  lemma ChildReplaced(parent: Node, region: set<Node>, i: nat, entries: seq<Entry>, reprs: seq<set<Node>>)
    requires parent in region && parent.kind == MappingNode
    requires |parent.content| == |reprs| == 2 * |entries| && i < |entries| && Apart(reprs)
    requires forall j | 0 <= j < |parent.content| ::
      && parent.content[j].Valid() && parent.content[j].repr <= region && parent !in parent.content[j].repr
      && (j != 2 * i + 1 ==> parent.content[j].repr == reprs[j] && parent.content[j].repr !! parent.content[2 * i + 1].repr)
    requires forall j | 0 <= j < |entries| ::
      parent.content[2 * j].value == entries[j].key && (j != i ==> parent.content[2 * j + 1].tree == entries[j].value)
    ensures parent.Assembled(region)
    ensures parent.Shown() == Mapping(entries[i := Entry(entries[i].key, parent.content[2 * i + 1].tree)])
  {
    forall j, k | 0 <= j < k < |parent.content| ensures parent.content[j].repr !! parent.content[k].repr {
      ApartAt(reprs, j, k);
    }
    forall j | 0 <= j < |parent.content| ensures parent.content[j] in parent.content[j].repr {
      assert parent.content[j].Valid();
    }
    assert parent.Entries() == entries[i := Entry(entries[i].key, parent.content[2 * i + 1].tree)];
  }

  method TidyValue(parent: Node, key: string)
    requires parent.Valid() && parent.kind == MappingNode && Unrepeated(parent.tree) && UnrepeatedUnder(parent.tree, key)
    modifies parent.repr
    ensures parent.Valid() && parent.repr == old(parent.repr)
    ensures parent.tree == Mapping(Each(old(parent.tree.entries), OnKey(key, Tidy)))
  {
    ghost var reprs := Children(parent);
    ghost var entries := parent.tree.entries;
    assert Distinct(Keys(entries)) && UnrepeatedUnder(Mapping(entries), key);
    hide *;
    var node, index := MappingValue(parent, key);
    if node == null {
      EachOnAbsent(entries, key, Tidy);
      return;
    }
    EachOnKey(entries, index, key, Tidy);
    assert Unrepeated(node.tree) by { UnderMeans(Mapping(entries), key); }
    TidyNode(node);
    forall j | 0 <= j < |parent.content| && j != 2 * index + 1
      ensures unchanged(parent.content[j]) && parent.content[j].Valid() && parent.content[j].repr !! node.repr
    {
      ApartAt(reprs, j, 2 * index + 1);
    }
    ChildReplaced(parent, parent.repr, index, entries, reprs);
    parent.Refresh(parent.repr);
  }

  method TidyNode(node: Node)
    requires node.Valid() && Unrepeated(node.tree)
    modifies node.repr
    ensures node.Valid() && node.repr == old(node.repr) && node.tree == Tidy(old(node.tree))
  {
    ReorderMapping(node, []);
  }

  lemma UnderMeans(tree: Tree, key: string)
    requires UnrepeatedUnder(tree, key) && Value(tree, key).Some?
    ensures Unrepeated(Value(tree, key).value)
  {
  }

  lemma EachOnKeyIs(entries: seq<Entry>, name: string, change: Tree -> Tree, f: (string, Tree) -> Tree)
    requires forall i | 0 <= i < |entries| ::
      f(entries[i].key, entries[i].value) == if entries[i].key == name then change(entries[i].value) else entries[i].value
    ensures Each(entries, OnKey(name, change)) == Each(entries, f)
  {
  }

  method TidyServiceNode(service: Node)
    requires service.Valid() && OrderableService(service.tree)
    modifies service.repr
    ensures service.Valid() && service.repr == old(service.repr)
    ensures service.tree == TidyService(old(service.tree))
  {
    if service.kind != MappingNode { return; }
    ghost var entries := service.tree.entries;
    ArrangeSound(SERVICE_SECTIONS, entries);
    assert Value(Mapping(Arrange(SERVICE_SECTIONS, entries)), "pipelines") == Value(service.tree, "pipelines");
    EachOnKeyIs(Arrange(SERVICE_SECTIONS, entries), "pipelines", Tidy, TidyPipelines);
    hide Arrange, Each, Tidy;
    ReorderMapping(service, SERVICE_SECTIONS);
    TidyValue(service, "pipelines");
  }

  /** The sections in the list are tidied, the others are as they were. */
  function Partly(done: seq<string>): (string, Tree) -> Tree {
    (key, value) => if key in done then Tidy(value) else value
  }

  lemma OneMoreTidy(entries: seq<Entry>, i: nat)
    requires i < |COMPONENT_SECTIONS|
    ensures Each(Each(entries, Partly(COMPONENT_SECTIONS[..i])), OnKey(COMPONENT_SECTIONS[i], Tidy))
         == Each(entries, Partly(COMPONENT_SECTIONS[..i + 1]))
  {
    assert COMPONENT_SECTIONS[i] !in COMPONENT_SECTIONS[..i];
    assert COMPONENT_SECTIONS[..i + 1] == COMPONENT_SECTIONS[..i] + [COMPONENT_SECTIONS[i]];
  }

  lemma LastTidy(entries: seq<Entry>)
    ensures Each(Each(entries, Partly(COMPONENT_SECTIONS)), OnKey("service", TidyService)) == Each(entries, TidySection)
  {
    var partly := Each(entries, Partly(COMPONENT_SECTIONS));
    forall i | 0 <= i < |entries|
      ensures OnKey("service", TidyService)(partly[i].key, partly[i].value) == TidySection(entries[i].key, entries[i].value)
    {
      assert partly[i].key == entries[i].key;
      if entries[i].key in COMPONENT_SECTIONS { assert entries[i].key[0] != 's'; }
    }
  }

  lemma PartlyOrderable(entries: seq<Entry>, done: seq<string>)
    requires Orderable(Mapping(entries)) && forall section | section in done :: section in COMPONENT_SECTIONS
    ensures Orderable(Mapping(Each(entries, Partly(done))))
  {
    var before, after := Mapping(entries), Mapping(Each(entries, Partly(done)));
    EachContent(entries, Partly(done));
    forall key
      ensures Value(after, key) == if Value(before, key).None? then None else Some(Partly(done)(key, Value(before, key).value))
    {
      ContentFind(entries, key);
      ContentFind(after.entries, key);
    }
    hide Content, Find, Keys, Tidy;
    forall section | section in COMPONENT_SECTIONS ensures UnrepeatedUnder(after, section) {
      assert UnrepeatedUnder(before, section);
      if Value(before, section).Some? { TidyUnrepeated(Value(before, section).value); }
    }
    assert "service" !in done by {
      assert forall section | section in COMPONENT_SECTIONS :: section[0] != 's';
    }
  }

  method CanonicalizeCollectorLayout(root: Node)
    requires root.Valid() && root.kind == MappingNode && Orderable(root.tree)
    modifies root.repr
    ensures root.Valid() && root.repr == old(root.repr)
    ensures root.tree == Canonical(old(root.tree))
  {
    ghost var before := root.tree;
    ghost var arranged := LayoutSteps(before);
    hide *;
    ReorderMapping(root, CANONICAL_SECTIONS);
    for i := 0 to |COMPONENT_SECTIONS|
      invariant root.Valid() && root.kind == MappingNode && root.repr == old(root.repr)
      invariant root.tree == Mapping(Each(arranged, Partly(COMPONENT_SECTIONS[..i])))
    {
      TidyNext(root, arranged, i);
    }
    assert COMPONENT_SECTIONS[..|COMPONENT_SECTIONS|] == COMPONENT_SECTIONS;
    PartlyOrderable(arranged, COMPONENT_SECTIONS);
    ServiceMeans(root.tree);
    TidyServiceUnder(root, "service");
  }

  /** Tidies one more section. */
  method TidyNext(root: Node, ghost arranged: seq<Entry>, i: nat)
    requires root.Valid() && root.kind == MappingNode && Orderable(Mapping(arranged)) && i < |COMPONENT_SECTIONS|
    requires root.tree == Mapping(Each(arranged, Partly(COMPONENT_SECTIONS[..i])))
    modifies root.repr
    ensures root.Valid() && root.repr == old(root.repr)
    ensures root.tree == Mapping(Each(arranged, Partly(COMPONENT_SECTIONS[..i + 1])))
  {
    hide *;
    PartlyOrderable(arranged, COMPONENT_SECTIONS[..i]);
    OrderableMeans(root.tree, COMPONENT_SECTIONS[i]);
    OneMoreTidy(arranged, i);
    TidyValue(root, COMPONENT_SECTIONS[i]);
  }

  lemma SectionsDistinct()
    ensures Distinct(CANONICAL_SECTIONS)
  {
  }

  lemma LayoutSteps(root: Tree) returns (arranged: seq<Entry>)
    requires Orderable(root)
    ensures root.Mapping? && Distinct(CANONICAL_SECTIONS) && Distinct(Keys(root.entries))
    ensures arranged == Arrange(CANONICAL_SECTIONS, root.entries) && Orderable(Mapping(arranged))
    ensures Each(arranged, Partly(COMPONENT_SECTIONS[..0])) == arranged
    ensures Canonical(root) == Mapping(Each(Each(arranged, Partly(COMPONENT_SECTIONS)), OnKey("service", TidyService)))
  {
    arranged := Arrange(CANONICAL_SECTIONS, root.entries);
    ArrangeOrderable(root, CANONICAL_SECTIONS);
    LastTidy(arranged);
    SectionsDistinct();
    OrderableRoot(root);
    hide Arrange, TidyService, Tidy, Orderable, OnKey, TidySection, Distinct, Keys;
    var none := Each(arranged, Partly(COMPONENT_SECTIONS[..0]));
    assert none == arranged by {
      assert forall i | 0 <= i < |arranged| :: none[i] == arranged[i];
    }
  }

  lemma OrderableRoot(root: Tree)
    requires Orderable(root)
    ensures root.Mapping? && Unrepeated(root) && Distinct(Keys(root.entries))
  {
  }

  lemma ServiceMeans(root: Tree)
    requires Orderable(root)
    ensures root.Mapping? && Unrepeated(root)
    ensures Value(root, "service").Some? ==> OrderableService(Value(root, "service").value)
  {
  }

  lemma OrderableMeans(root: Tree, section: string)
    requires Orderable(root) && section in COMPONENT_SECTIONS
    ensures root.Mapping? && Unrepeated(root) && UnrepeatedUnder(root, section)
  {
  }

  method TidyServiceUnder(root: Node, key: string)
    requires root.Valid() && root.kind == MappingNode && Unrepeated(root.tree)
    requires Value(root.tree, key).Some? ==> OrderableService(Value(root.tree, key).value)
    modifies root.repr
    ensures root.Valid() && root.repr == old(root.repr)
    ensures root.tree == Mapping(Each(old(root.tree.entries), OnKey(key, TidyService)))
  {
    ghost var reprs := Children(root);
    ghost var entries := root.tree.entries;
    assert Distinct(Keys(entries)) && (Value(Mapping(entries), key).Some? ==> OrderableService(Value(Mapping(entries), key).value));
    hide *;
    var service, index := MappingValue(root, key);
    if service == null {
      EachOnAbsent(entries, key, TidyService);
      return;
    }
    EachOnKey(entries, index, key, TidyService);
    TidyServiceNode(service);
    forall j | 0 <= j < |root.content| && j != 2 * index + 1
      ensures unchanged(root.content[j]) && root.content[j].Valid() && root.content[j].repr !! service.repr
    {
      ApartAt(reprs, j, 2 * index + 1);
    }
    ChildReplaced(root, root.repr, index, entries, reprs);
    root.Refresh(root.repr);
  }

  lemma {:induction false} PutFirst(entries: seq<Entry>, i: nat, key: string, value: Tree)
    requires FirstAt(entries, i, key)
    ensures i < |entries| && entries[i].key == key && Find(entries, key) == Some(entries[i].value)
    ensures Put(entries, key, value) == entries[i := Entry(key, value)]
  {
    if i > 0 {
      assert FirstAt(entries[1..], i - 1, key);
      PutFirst(entries[1..], i - 1, key, value);
      assert entries[i := Entry(key, value)] == [entries[0]] + entries[1..][i - 1 := Entry(key, value)];
    } else {
      assert entries[0 := Entry(key, value)] == [Entry(key, value)] + entries[1..];
    }
  }

  lemma {:induction false} PutAbsent(entries: seq<Entry>, key: string, value: Tree)
    requires Find(entries, key).None?
    ensures Put(entries, key, value) == entries + [Entry(key, value)]
  {
    if entries != [] { PutAbsent(entries[1..], key, value); }
  }

  lemma PairCount(mapping: Node)
    requires mapping.Valid() && mapping.kind == MappingNode
    ensures mapping.tree.Mapping? && |mapping.content| == 2 * |mapping.tree.entries|
  {
  }

  lemma ChildShown(parent: Node, i: nat)
    requires parent.Valid() && parent.kind == MappingNode && 2 * i + 1 < |parent.content|
    ensures parent.tree.Mapping? && i < |parent.tree.entries|
    ensures parent.tree.entries[i] == Entry(parent.content[2 * i].value, parent.content[2 * i + 1].tree)
  {
  }

  lemma ChildOf(parent: Node, i: nat)
    requires parent.Valid() && parent.kind == MappingNode && 2 * i + 1 < |parent.content|
    ensures parent.content[2 * i + 1] in parent.repr && parent in parent.repr
  {
  }

  // ---------- Reading a document back ----------

  /** The encoder walks the nodes and finds the tree they show. */
  method ReadNode(node: Node) returns (tree: Tree)
    requires node.Valid()
    ensures tree == node.tree
    decreases node.repr
  {
    KindShown(node);
    match node.kind {
      case ScalarNode => tree := Scalar(node.tag, node.value);
      case SequenceNode => tree := ReadItems(node);
      case MappingNode => tree := ReadPairs(node);
    }
  }

  method ReadItems(node: Node) returns (tree: Tree)
    requires node.Valid() && node.kind == SequenceNode
    ensures tree == node.tree
    decreases node.repr, 0
  {
    var items := [];
    for i := 0 to |node.content|
      invariant items == node.Items()[..i]
    {
      assert node.Items()[i] == node.content[i].tree;
      var item := ReadNode(node.content[i]);
      items := items + [item];
    }
    assert node.Items()[..|node.content|] == node.Items();
    tree := Sequence(items);
  }

  method ReadPairs(node: Node) returns (tree: Tree)
    requires node.Valid() && node.kind == MappingNode
    ensures tree == node.tree
    decreases node.repr, 0
  {
    var entries := [];
    for i := 0 to |node.content| / 2
      invariant entries == node.Entries()[..i]
    {
      assert node.Entries()[i] == Entry(node.content[2 * i].value, node.content[2 * i + 1].tree);
      var value := ReadNode(node.content[2 * i + 1]);
      entries := entries + [Entry(node.content[2 * i].value, value)];
    }
    assert node.Entries()[..|node.content| / 2] == node.Entries();
    tree := Mapping(entries);
  }

  // ---------- Adding to a mapping or a list ----------

  /** Appends an entry; the value node must be new to the mapping. */
  method AppendPair(mapping: Node, key: string, value: Node)
    requires mapping.Valid() && mapping.kind == MappingNode
    requires value.Valid() && value.repr !! mapping.repr
    modifies mapping
    ensures mapping.Valid() && mapping.repr >= old(mapping.repr) && fresh(mapping.repr - old(mapping.repr) - value.repr)
    ensures mapping.tree == Mapping(old(mapping.tree.entries) + [Entry(key, value.tree)])
    ensures |mapping.content| == |old(mapping.content)| + 2 && mapping.content[|mapping.content| - 1] == value
    ensures value.Valid() && value.repr == old(value.repr) && value.tree == old(value.tree)
  {
    ghost var entries := mapping.tree.entries;
    var node := new Node(ScalarNode, "!!str", key);
    mapping.content := mapping.content + [node, value];
    assert mapping.Entries() == entries + [Entry(key, value.tree)];
    mapping.Refresh(mapping.repr + {node} + value.repr);
  }

  method Prepend(list: Node, item: Node)
    requires list.Valid() && list.kind == SequenceNode
    requires item.Valid() && item.repr !! list.repr
    modifies list
    ensures list.Valid() && list.repr == old(list.repr) + item.repr
    ensures list.tree == Sequence([item.tree] + old(list.tree.items))
  {
    ghost var items := list.tree.items;
    list.content := [item] + list.content;
    assert list.Items() == [item.tree] + items;
    list.Refresh(list.repr + item.repr);
  }

  method Append(list: Node, item: Node)
    requires list.Valid() && list.kind == SequenceNode
    requires item.Valid() && item.repr !! list.repr
    modifies list
    ensures list.Valid() && list.repr == old(list.repr) + item.repr
    ensures list.tree == Sequence(old(list.tree.items) + [item.tree])
  {
    ghost var items := list.tree.items;
    list.content := list.content + [item];
    assert list.Items() == items + [item.tree];
    list.Refresh(list.repr + item.repr);
  }
}
