/** Collector configurations as trees, and the canonical layout FleetAMP gives them. A mapping is
    an ordered list of entries; decoding has already refused a mapping that repeats a key. */
module CollectorTree {
  import opened Wrappers
  import opened TextOrder

  datatype Tree = Scalar(tag: string, text: string) | Mapping(entries: seq<Entry>) | Sequence(items: seq<Tree>)
  datatype Entry = Entry(key: string, value: Tree)

  function Keys(entries: seq<Entry>): seq<string> {
    seq(|entries|, i requires 0 <= i < |entries| => entries[i].key)
  }

  /** No mapping anywhere in the tree repeats a key. */
  predicate Keyed(tree: Tree) {
    match tree
    case Scalar(_, _) => true
    case Mapping(entries) =>
      Distinct(Keys(entries)) && forall i | 0 <= i < |entries| :: Keyed(entries[i].value)
    case Sequence(items) => forall i | 0 <= i < |items| :: Keyed(items[i])
  }

  /** A mapping without repeated keys, or no mapping. */
  predicate Unrepeated(tree: Tree) {
    tree.Mapping? ==> Distinct(Keys(tree.entries))
  }

  /** The value of the first entry with this key. */
  function Find(entries: seq<Entry>, key: string): Option<Tree> {
    if entries == [] then None
    else if entries[0].key == key then Some(entries[0].value)
    else Find(entries[1..], key)
  }

  function Value(tree: Tree, key: string): Option<Tree> {
    if tree.Mapping? then Find(tree.entries, key) else None
  }

  /** What a mapping says, without its order. */
  function Content(entries: seq<Entry>): map<string, Tree> {
    if entries == [] then map[] else Content(entries[1..])[entries[0].key := entries[0].value]
  }

  /** The component type in a component name such as `batch/custom`. */
  function ComponentType(name: string): string {
    if name == "" || name[0] == '/' then "" else [name[0]] + ComponentType(name[1..])
  }

  /** Replaces the value of the first entry with this key, or appends a new entry. */
  function Put(entries: seq<Entry>, key: string, value: Tree): seq<Entry> {
    if entries == [] then [Entry(key, value)]
    else if entries[0].key == key then [Entry(key, value)] + entries[1..]
    else [entries[0]] + Put(entries[1..], key, value)
  }

  /** The entries of `service.pipelines`. */
  function Pipelines(root: Tree): seq<Entry> {
    match Value(root, "service")
    case Some(service) =>
      (match Value(service, "pipelines") case Some(Mapping(pipelines)) => pipelines case _ => [])
    case None => []
  }

  // ---------- Arranging one mapping ----------

  function Listed(names: seq<string>, content: map<string, Tree>): seq<Entry>
    requires forall name | name in names :: name in content
  {
    seq(|names|, i requires 0 <= i < |names| => Entry(names[i], content[names[i]]))
  }

  function Arrange(preferred: seq<string>, entries: seq<Entry>): seq<Entry> {
    SortSound(preferred, Keys(entries));
    ContentKeys(entries);
    Listed(Sort(preferred, Keys(entries)), Content(entries))
  }

  /** Rewrites every value, keeping keys and order. */
  function Each(entries: seq<Entry>, f: (string, Tree) -> Tree): seq<Entry> {
    seq(|entries|, i requires 0 <= i < |entries| => Entry(entries[i].key, f(entries[i].key, entries[i].value)))
  }

  lemma {:induction false} ContentKeys(entries: seq<Entry>)
    ensures forall key :: key in Content(entries) <==> key in Keys(entries)
  {
    if entries != [] {
      ContentKeys(entries[1..]);
      assert Keys(entries) == [entries[0].key] + Keys(entries[1..]);
    }
  }

  lemma {:induction false} ContentFind(entries: seq<Entry>, key: string)
    ensures Find(entries, key) == if key in Content(entries) then Some(Content(entries)[key]) else None
  {
    if entries != [] { ContentFind(entries[1..], key); }
  }

  lemma {:induction false} ContentAt(entries: seq<Entry>, i: nat)
    requires i < |entries| && Distinct(Keys(entries))
    ensures entries[i].key in Content(entries) && Content(entries)[entries[i].key] == entries[i].value
  {
    if i > 0 {
      assert Keys(entries[1..]) == Keys(entries)[1..];
      ContentAt(entries[1..], i - 1);
      assert Keys(entries)[0] != Keys(entries)[i];
    }
  }

  lemma {:induction false} ListedContent(names: seq<string>, content: map<string, Tree>)
    requires forall name | name in names :: name in content
    ensures Content(Listed(names, content)) == map name | name in names :: content[name]
    ensures Keys(Listed(names, content)) == names
  {
    if names != [] {
      assert Listed(names, content)[1..] == Listed(names[1..], content);
      ListedContent(names[1..], content);
      assert names == [names[0]] + names[1..];
    }
  }

  lemma {:induction false} EachContent(entries: seq<Entry>, f: (string, Tree) -> Tree)
    ensures Keys(Each(entries, f)) == Keys(entries)
    ensures Content(Each(entries, f)) == map key | key in Content(entries) :: f(key, Content(entries)[key])
  {
    if entries != [] {
      assert Each(entries, f)[1..] == Each(entries[1..], f);
      EachContent(entries[1..], f);
    }
  }

  lemma {:induction false} PutKeys(entries: seq<Entry>, key: string, value: Tree)
    ensures Keys(Put(entries, key, value)) == if key in Keys(entries) then Keys(entries) else Keys(entries) + [key]
  {
    if entries != [] {
      assert Keys(entries) == [entries[0].key] + Keys(entries[1..]);
      if entries[0].key == key {
        assert Keys(Put(entries, key, value)) == Keys(entries);
      } else {
        PutKeys(entries[1..], key, value);
        assert Keys(Put(entries, key, value)) == [entries[0].key] + Keys(Put(entries[1..], key, value));
      }
    }
  }

  lemma {:induction false} PutContent(entries: seq<Entry>, key: string, value: Tree)
    ensures Content(Put(entries, key, value)) == Content(entries)[key := value]
  {
    if entries != [] && entries[0].key != key {
      PutContent(entries[1..], key, value);
      assert Put(entries, key, value)[1..] == Put(entries[1..], key, value);
    }
  }

  lemma {:induction false} PutFind(entries: seq<Entry>, key: string, value: Tree, other: string)
    ensures Find(Put(entries, key, value), other) == if other == key then Some(value) else Find(entries, other)
  {
    PutContent(entries, key, value);
    ContentFind(Put(entries, key, value), other);
    ContentFind(entries, other);
  }

  lemma {:induction false} PutSame(entries: seq<Entry>, key: string, value: Tree)
    requires Find(entries, key) == Some(value)
    ensures Put(entries, key, value) == entries
  {
    if entries[0].key != key { PutSame(entries[1..], key, value); }
  }

  /** Arranging only permutes the entries, and lists them in the required order. */
  lemma ArrangeSound(preferred: seq<string>, entries: seq<Entry>)
    ensures Content(Arrange(preferred, entries)) == Content(entries)
    ensures InOrder(preferred, Keys(Arrange(preferred, entries)))
    ensures multiset(Keys(Arrange(preferred, entries))) == multiset(Keys(entries))
    ensures Distinct(Keys(entries)) ==> Distinct(Keys(Arrange(preferred, entries)))
    ensures forall key :: Find(Arrange(preferred, entries), key) == Find(entries, key)
  {
    var names := Sort(preferred, Keys(entries));
    SortSound(preferred, Keys(entries));
    ContentKeys(entries);
    ListedContent(names, Content(entries));
    if Distinct(Keys(entries)) { SortKeepsDistinct(preferred, Keys(entries)); }
    forall key ensures Find(Arrange(preferred, entries), key) == Find(entries, key) {
      ContentFind(entries, key);
      ContentFind(Arrange(preferred, entries), key);
    }
  }

  /** Two mappings come out of arranging and rewriting alike exactly when they have the same keys
      and their values are rewritten alike: the order of the entries is all that is lost. */
  lemma SameArranged(preferred: seq<string>, a: seq<Entry>, b: seq<Entry>, f: (string, Tree) -> Tree)
    requires Distinct(Keys(a)) && Distinct(Keys(b))
    ensures Each(Arrange(preferred, a), f) == Each(Arrange(preferred, b), f) <==>
      && Content(a).Keys == Content(b).Keys
      && forall key | key in Content(a) :: f(key, Content(a)[key]) == f(key, Content(b)[key])
  {
    ArrangeSound(preferred, a);
    ArrangeSound(preferred, b);
    EachContent(Arrange(preferred, a), f);
    EachContent(Arrange(preferred, b), f);
    var x, y := Each(Arrange(preferred, a), f), Each(Arrange(preferred, b), f);
    if x == y {
      assert Content(x).Keys == Content(a).Keys && Content(y).Keys == Content(b).Keys;
      forall key | key in Content(a) ensures f(key, Content(a)[key]) == f(key, Content(b)[key]) {
        assert Content(x)[key] == Content(y)[key];
      }
    }
    if Content(a).Keys == Content(b).Keys
      && (forall key | key in Content(a) :: f(key, Content(a)[key]) == f(key, Content(b)[key]))
    {
      ContentKeys(a);
      ContentKeys(b);
      forall name ensures name in Keys(a) <==> name in Keys(b) {
        assert name in Content(a) <==> name in Content(b);
      }
      SortByNames(preferred, Keys(a), Keys(b));
      SortSound(preferred, Keys(a));
      forall i | 0 <= i < |x| ensures x[i] == y[i] {
        assert Sort(preferred, Keys(a))[i] in Sort(preferred, Keys(a));
      }
      assert x == y;
    }
  }

  // ---------- The canonical layout ----------

  const CANONICAL_SECTIONS: seq<string> :=
    ["receivers", "processors", "exporters", "extensions", "connectors", "service"]
  const COMPONENT_SECTIONS: seq<string> :=
    ["receivers", "processors", "exporters", "extensions", "connectors"]
  const SERVICE_SECTIONS: seq<string> := ["extensions", "pipelines", "telemetry"]

  function Tidy(tree: Tree): Tree {
    if tree.Mapping? then Mapping(Arrange([], tree.entries)) else tree
  }

  function TidyPipelines(key: string, value: Tree): Tree {
    if key == "pipelines" then Tidy(value) else value
  }

  function TidyService(tree: Tree): Tree {
    if tree.Mapping? then Mapping(Each(Arrange(SERVICE_SECTIONS, tree.entries), TidyPipelines)) else tree
  }

  function TidySection(key: string, value: Tree): Tree {
    if key in COMPONENT_SECTIONS then Tidy(value)
    else if key == "service" then TidyService(value)
    else value
  }

  function Canonical(root: Tree): Tree {
    if root.Mapping? then Mapping(Each(Arrange(CANONICAL_SECTIONS, root.entries), TidySection)) else root
  }

  // Documents that differ only in the order of entries, in those mappings where order is no matter.

  predicate SameEntries(a: Tree, b: Tree) {
    a == b || (a.Mapping? && b.Mapping? && Content(a.entries) == Content(b.entries))
  }

  predicate SameServiceEntry(key: string, a: Tree, b: Tree) {
    if key == "pipelines" then SameEntries(a, b) else a == b
  }

  predicate SameService(a: Tree, b: Tree) {
    || a == b
    || (&& a.Mapping? && b.Mapping?
        && Content(a.entries).Keys == Content(b.entries).Keys
        && forall key | key in Content(a.entries) ::
             SameServiceEntry(key, Content(a.entries)[key], Content(b.entries)[key]))
  }

  predicate SameSection(key: string, a: Tree, b: Tree) {
    if key in COMPONENT_SECTIONS then SameEntries(a, b)
    else if key == "service" then SameService(a, b)
    else a == b
  }

  predicate SameDocument(a: Tree, b: Tree) {
    || a == b
    || (&& a.Mapping? && b.Mapping?
        && Content(a.entries).Keys == Content(b.entries).Keys
        && forall key | key in Content(a.entries) ::
             SameSection(key, Content(a.entries)[key], Content(b.entries)[key]))
  }

  lemma TidyForm(a: Tree, b: Tree)
    requires Keyed(a) && Keyed(b)
    ensures Tidy(a) == Tidy(b) <==> SameEntries(a, b)
  {
    if a.Mapping? && b.Mapping? {
      SameArranged([], a.entries, b.entries, (key, value) => value);
      assert Each(Arrange([], a.entries), (key, value) => value) == Arrange([], a.entries);
      assert Each(Arrange([], b.entries), (key, value) => value) == Arrange([], b.entries);
    }
  }

  lemma KeyedContent(entries: seq<Entry>, key: string)
    requires Keyed(Mapping(entries)) && key in Content(entries)
    ensures Keyed(Content(entries)[key])
  {
    ContentKeys(entries);
    var i: nat :| i < |entries| && Keys(entries)[i] == key;
    ContentAt(entries, i);
  }

  lemma ServiceForm(a: Tree, b: Tree)
    requires Keyed(a) && Keyed(b)
    ensures TidyService(a) == TidyService(b) <==> SameService(a, b)
  {
    if a.Mapping? && b.Mapping? {
      var x, y := Content(a.entries), Content(b.entries);
      SameArranged(SERVICE_SECTIONS, a.entries, b.entries, TidyPipelines);
      forall key | key in x && key in y
        ensures TidyPipelines(key, x[key]) == TidyPipelines(key, y[key]) <==> SameServiceEntry(key, x[key], y[key])
      {
        KeyedContent(a.entries, key);
        KeyedContent(b.entries, key);
        TidyForm(x[key], y[key]);
      }
    }
  }

  /** The layout is a true canonical form: two documents are laid out as the same tree exactly when
      they differ in nothing but the order of the arranged entries. */
  lemma CanonicalForm(a: Tree, b: Tree)
    requires Keyed(a) && Keyed(b)
    ensures Canonical(a) == Canonical(b) <==> SameDocument(a, b)
  {
    if a.Mapping? && b.Mapping? {
      var x, y := Content(a.entries), Content(b.entries);
      SameArranged(CANONICAL_SECTIONS, a.entries, b.entries, TidySection);
      forall key | key in x && key in y
        ensures TidySection(key, x[key]) == TidySection(key, y[key]) <==> SameSection(key, x[key], y[key])
      {
        KeyedContent(a.entries, key);
        KeyedContent(b.entries, key);
        TidyForm(x[key], y[key]);
        ServiceForm(x[key], y[key]);
      }
    }
  }

  lemma EntriesKeyed(entries: seq<Entry>)
    requires Distinct(Keys(entries))
    requires forall key | key in Content(entries) :: Keyed(Content(entries)[key])
    ensures Keyed(Mapping(entries))
  {
    forall i | 0 <= i < |entries| ensures Keyed(entries[i].value) { ContentAt(entries, i); }
  }

  lemma ArrangedKeyed(preferred: seq<string>, entries: seq<Entry>, f: (string, Tree) -> Tree)
    requires Keyed(Mapping(entries))
    requires forall key | key in Content(entries) :: Keyed(f(key, Content(entries)[key]))
    ensures Keyed(Mapping(Each(Arrange(preferred, entries), f)))
  {
    ArrangeSound(preferred, entries);
    EachContent(Arrange(preferred, entries), f);
    EntriesKeyed(Each(Arrange(preferred, entries), f));
  }

  lemma TidySame(tree: Tree)
    requires Keyed(tree)
    ensures SameEntries(tree, Tidy(tree)) && Keyed(Tidy(tree))
  {
    if tree.Mapping? {
      ArrangeSound([], tree.entries);
      forall key | key in Content(tree.entries) ensures Keyed(Content(tree.entries)[key]) {
        KeyedContent(tree.entries, key);
      }
      EntriesKeyed(Arrange([], tree.entries));
    }
  }

  lemma ServiceSame(tree: Tree)
    requires Keyed(tree)
    ensures SameService(tree, TidyService(tree)) && Keyed(TidyService(tree))
  {
    if tree.Mapping? {
      ArrangeSound(SERVICE_SECTIONS, tree.entries);
      EachContent(Arrange(SERVICE_SECTIONS, tree.entries), TidyPipelines);
      forall key | key in Content(tree.entries) ensures
          && Keyed(TidyPipelines(key, Content(tree.entries)[key]))
          && SameServiceEntry(key, Content(tree.entries)[key], TidyPipelines(key, Content(tree.entries)[key]))
      {
        KeyedContent(tree.entries, key);
        TidySame(Content(tree.entries)[key]);
      }
      ArrangedKeyed(SERVICE_SECTIONS, tree.entries, TidyPipelines);
    }
  }

  /** Laying a document out changes nothing but the order of entries. */
  lemma CanonicalSame(root: Tree)
    requires Keyed(root)
    ensures SameDocument(root, Canonical(root)) && Keyed(Canonical(root))
    ensures root.Mapping? ==> Canonical(root).Mapping? && InOrder(CANONICAL_SECTIONS, Keys(Canonical(root).entries))
  {
    if root.Mapping? {
      ArrangeSound(CANONICAL_SECTIONS, root.entries);
      EachContent(Arrange(CANONICAL_SECTIONS, root.entries), TidySection);
      forall key | key in Content(root.entries) ensures
          && Keyed(TidySection(key, Content(root.entries)[key]))
          && SameSection(key, Content(root.entries)[key], TidySection(key, Content(root.entries)[key]))
      {
        KeyedContent(root.entries, key);
        TidySame(Content(root.entries)[key]);
        ServiceSame(Content(root.entries)[key]);
      }
      ArrangedKeyed(CANONICAL_SECTIONS, root.entries, TidySection);
    }
  }

  lemma CanonicalIdempotent(root: Tree)
    requires Keyed(root)
    ensures Canonical(Canonical(root)) == Canonical(root)
  {
    CanonicalSame(root);
    CanonicalForm(root, Canonical(root));
  }

  // ---------- What an import accepts ----------

  predicate Null(tree: Tree) {
    tree.Scalar? && tree.tag == "!!null"
  }

  predicate ImportableSection(key: string, value: Tree) {
    (key in COMPONENT_SECTIONS ==> value.Mapping? || Null(value)) &&
    (key == "service" ==> value.Mapping? && ImportableService(value))
  }

  predicate ImportableService(service: Tree) {
    Value(service, "pipelines").Some? ==> Value(service, "pipelines").value.Mapping?
  }

  /** Decoding refuses repeated keys; the inspection refuses sections that are not mappings. */
  predicate Importable(root: Tree) {
    && Keyed(root)
    && root.Mapping? && root.entries != []
    && forall key | key in Content(root.entries) :: ImportableSection(key, Content(root.entries)[key])
  }

  lemma ValueContent(tree: Tree, key: string)
    ensures tree.Mapping? ==> Value(tree, key) == if key in Content(tree.entries) then Some(Content(tree.entries)[key]) else None
  {
    if tree.Mapping? { ContentFind(tree.entries, key); }
  }

  lemma ValueKeyed(tree: Tree, key: string)
    requires Keyed(tree) && Value(tree, key).Some?
    ensures Keyed(Value(tree, key).value)
  {
    ValueContent(tree, key);
    KeyedContent(tree.entries, key);
  }

  predicate UnrepeatedUnder(tree: Tree, key: string) {
    Value(tree, key).Some? ==> Unrepeated(Value(tree, key).value)
  }

  predicate OrderableService(service: Tree) {
    Unrepeated(service) && UnrepeatedUnder(service, "pipelines")
  }

  /** No key is repeated in the mappings that the layout arranges. */
  predicate Orderable(root: Tree) {
    && root.Mapping? && Unrepeated(root)
    && (forall section | section in COMPONENT_SECTIONS :: UnrepeatedUnder(root, section))
    && (Value(root, "service").Some? ==> OrderableService(Value(root, "service").value))
  }

  lemma KeyedOrderable(root: Tree)
    requires Keyed(root) && root.Mapping?
    ensures Orderable(root)
  {
    forall key | Value(root, key).Some? ensures Keyed(Value(root, key).value) { ValueKeyed(root, key); }
    if Value(root, "service").Some? {
      var service := Value(root, "service").value;
      if Value(service, "pipelines").Some? { ValueKeyed(service, "pipelines"); }
    }
  }

  /** Arranging the entries of a document keeps it orderable. */
  lemma ArrangeOrderable(root: Tree, preferred: seq<string>)
    requires Orderable(root)
    ensures Orderable(Mapping(Arrange(preferred, root.entries)))
  {
    ArrangeSound(preferred, root.entries);
    forall key ensures Value(Mapping(Arrange(preferred, root.entries)), key) == Value(root, key) { }
  }

  lemma TidyUnrepeated(tree: Tree)
    requires Unrepeated(tree)
    ensures Unrepeated(Tidy(tree))
  {
    if tree.Mapping? { ArrangeSound([], tree.entries); }
  }

  lemma PutKeyed(entries: seq<Entry>, key: string, value: Tree)
    requires Keyed(Mapping(entries)) && Keyed(value)
    ensures Keyed(Mapping(Put(entries, key, value)))
  {
    PutKeys(entries, key, value);
    PutContent(entries, key, value);
    forall other | other in Content(entries) ensures Keyed(Content(entries)[other]) { KeyedContent(entries, other); }
    EntriesKeyed(Put(entries, key, value));
  }

  /** Under every key, the same document has the same section. */
  lemma SameValue(a: Tree, b: Tree, key: string)
    requires SameDocument(a, b)
    ensures Value(a, key).Some? <==> Value(b, key).Some?
    ensures Value(a, key).Some? ==> SameSection(key, Value(a, key).value, Value(b, key).value)
  {
    ValueContent(a, key);
    ValueContent(b, key);
  }

  lemma ImportableSame(a: Tree, b: Tree)
    requires Importable(a) && Keyed(b) && SameDocument(a, b)
    ensures Importable(b)
  {
    forall key | key in Content(b.entries) ensures ImportableSection(key, Content(b.entries)[key]) {
      SameValue(a, b, key);
      ValueContent(a, key);
      ValueContent(b, key);
      ValueContent(Value(a, key).value, "pipelines");
      ValueContent(Value(b, key).value, "pipelines");
    }
    assert a.entries != [] && a.entries[0].key in Content(a.entries);
  }

  lemma CanonicalImportable(root: Tree)
    requires Importable(root)
    ensures Importable(Canonical(root))
  {
    CanonicalSame(root);
    ImportableSame(root, Canonical(root));
  }
}
