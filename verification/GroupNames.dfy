/** Names of groups and the identifiers derived from them. */
module GroupNames {
  import opened Names
  import opened Texts
  import TextOrder

  const NAME_LIMIT := 120
  const ID_LIMIT := 80

  predicate SlugChar(c: char) {
    'a' <= c <= 'z' || '0' <= c <= '9'
  }

  predicate ValidName(name: string) {
    Trim(name) != "" && |Trim(name)| <= NAME_LIMIT
  }

  // ---------- Slugs ----------

  /** Letters and digits in lower case; whatever stands between them becomes a single dash. */
  function Slug(text: string): string {
    if text == "" then ""
    else
      var before, c := Slug(text[..|text| - 1]), FoldChar(text[|text| - 1]);
      if SlugChar(c) then before + [c] else if EndsOpen(before) then before + "-" else before
  }

  predicate EndsOpen(text: string) {
    text != "" && text[|text| - 1] != '-'
  }

  /** Slug characters and dashes, no dash first and no two dashes in a row. */
  predicate Sluglike(text: string) {
    && (forall i | 0 <= i < |text| :: SlugChar(text[i]) || text[i] == '-')
    && (text != "" ==> text[0] != '-')
    && forall i | 0 < i < |text| :: text[i - 1] == '-' ==> text[i] != '-'
  }

  lemma {:induction false} SlugSound(text: string)
    ensures Sluglike(Slug(text))
  {
    if text != "" { SlugSound(text[..|text| - 1]); }
  }

  lemma {:induction false} SlugOfSluglike(text: string)
    requires Sluglike(text)
    ensures Slug(text) == text
  {
    if text != "" {
      var before := text[..|text| - 1];
      SlugOfSluglike(before);
      assert text == before + [text[|text| - 1]];
      assert before != "" ==> before[|before| - 1] == text[|text| - 2];
    }
  }

  method MakeSlug(text: string) returns (slug: string)
    ensures slug == Slug(text)
  {
    slug := "";
    var dash := false;
    for i := 0 to |text|
      invariant slug == Slug(text[..i])
      invariant slug != "" ==> (dash <==> slug[|slug| - 1] == '-')
    {
      assert text[..i + 1][..i] == text[..i];
      var c := FoldChar(text[i]);
      if SlugChar(c) {
        slug, dash := slug + [c], false;
      } else if !dash && |slug| > 0 {
        slug, dash := slug + "-", true;
      }
    }
    assert text[..|text|] == text;
  }

  function TrimDashesRight(text: string): string {
    if text != "" && text[|text| - 1] == '-' then TrimDashesRight(text[..|text| - 1]) else text
  }

  function TrimDashes(text: string): string {
    if text != "" && text[0] == '-' then TrimDashes(text[1..]) else TrimDashesRight(text)
  }

  lemma {:induction false} TrimDashesSound(text: string)
    requires Sluglike(text)
    ensures TrimDashes(text) <= text && Sluglike(TrimDashes(text))
    ensures TrimDashes(text) != "" ==> EndsOpen(TrimDashes(text))
    ensures EndsOpen(text) ==> TrimDashes(text) == text
  {
    if text != "" && text[|text| - 1] == '-' {
      var before := text[..|text| - 1];
      assert before != "" ==> before[|before| - 1] == text[|text| - 2];
      assert TrimDashesRight(before) == before;
    }
  }

  // ---------- Identifiers ----------

  function IDOf(name: string): string {
    var id := TrimDashes(Slug(Trim(name)));
    var cut := if |id| > ID_LIMIT then TrimDashes(id[..ID_LIMIT]) else id;
    if cut == "" then "group" else cut
  }

  method GroupIDFromName(name: string) returns (id: string)
    ensures id == IDOf(name)
  {
    id := MakeSlug(Trim(name));
    id := TrimDashes(id);
    if |id| > ID_LIMIT {
      id := TrimDashes(id[..ID_LIMIT]);
    }
    if id == "" {
      id := "group";
    }
  }

  /** Identifiers are never empty, at most 80 characters long, and made of lower-case letters, digits
      and single dashes between them. */
  lemma IDSound(name: string)
    ensures 0 < |IDOf(name)| <= ID_LIMIT && Sluglike(IDOf(name)) && EndsOpen(IDOf(name))
  {
    var slug := Slug(Trim(name));
    SlugSound(Trim(name));
    TrimDashesSound(slug);
    var id := TrimDashes(slug);
    if |id| > ID_LIMIT { TrimDashesSound(id[..ID_LIMIT]); }
  }

  /** An identifier used as a name is its own identifier. */
  lemma IDOfID(name: string)
    ensures IDOf(IDOf(name)) == IDOf(name)
  {
    var id := IDOf(name);
    IDSound(name);
    assert SlugChar(id[0]) && SlugChar(id[|id| - 1]);
    TrimKeeps(id);
    SlugOfSluglike(id);
    TrimDashesSound(id);
  }

  // ---------- Names derived from a selector ----------

  /** The parts joined by dashes. */
  function Joined(parts: seq<string>): string {
    if parts == [] then ""
    else if |parts| == 1 then parts[0]
    else Joined(parts[..|parts| - 1]) + "-" + parts[|parts| - 1]
  }

  function Parts(selector: map<string, string>, keys: seq<string>): seq<string>
    requires forall key | key in keys :: key in selector
  {
    if keys == [] then []
    else
      var last := |keys| - 1;
      Parts(selector, keys[..last]) + [TrimDashes(Slug(Trim(selector[keys[last]])))]
  }

  /** The names, each once, in byte order. */
  ghost predicate Lists(keys: seq<string>, names: set<string>) {
    && TextOrder.Distinct(keys) && TextOrder.InOrder([], keys)
    && forall name :: name in keys <==> name in names
  }

  lemma ListsOnce(a: seq<string>, b: seq<string>, names: set<string>)
    requires Lists(a, names) && Lists(b, names)
    ensures a == b
  {
    TextOrder.SameNamesSameMultiset(a, b);
    TextOrder.OnlyOneOrder([], a, b);
  }

  lemma {:induction false} SomeListing(names: set<string>) returns (keys: seq<string>)
    ensures TextOrder.Distinct(keys) && forall name :: name in keys <==> name in names
  {
    keys := [];
    if name :| name in names {
      var before := SomeListing(names - {name});
      keys := before + [name];
    }
  }

  ghost function SortedKeys(names: set<string>): (keys: seq<string>)
    ensures Lists(keys, names)
  {
    assert exists keys :: Lists(keys, names) by {
      var keys := SomeListing(names);
      TextOrder.SortSound([], keys);
      TextOrder.SortKeepsDistinct([], keys);
      assert Lists(TextOrder.Sorted(keys), names);
    }
    var keys :| Lists(keys, names);
    keys
  }

  /** The values of a selector in the order of its keys, as slugs. */
  ghost function CanonicalName(selector: map<string, string>): string {
    Joined(Parts(selector, SortedKeys(selector.Keys)))
  }

  method KeysInOrder(selector: map<string, string>) returns (keys: seq<string>)
    ensures keys == SortedKeys(selector.Keys)
  {
    keys := [];
    var left := selector.Keys;
    while left != {}
      invariant left <= selector.Keys && TextOrder.Distinct(keys)
      invariant forall key :: key in keys <==> key in selector.Keys && key !in left
    {
      var key :| key in left;
      left := left - {key};
      keys := keys + [key];
    }
    TextOrder.SortSound([], keys);
    TextOrder.SortKeepsDistinct([], keys);
    keys := TextOrder.Sorted(keys);
    ListsOnce(keys, SortedKeys(selector.Keys), selector.Keys);
  }

  method CanonicalGroupName(selector: map<string, string>) returns (name: string)
    ensures name == CanonicalName(selector)
  {
    hide Slug, TrimDashes, Trim, Lists, Joined;
    var keys := KeysInOrder(selector);
    assert forall key :: key in keys <==> key in selector by { ListsNames(keys, selector.Keys); }
    JoinedNone();
    name := "";
    for i := 0 to |keys|
      invariant name == Joined(Parts(selector, keys[..i]))
    {
      assert keys[..i + 1][..i] == keys[..i];
      JoinedSnoc(Parts(selector, keys[..i]), TrimDashes(Slug(Trim(selector[keys[i]]))));
      PartsLength(selector, keys[..i]);
      var part := MakeSlug(Trim(selector[keys[i]]));
      part := TrimDashes(part);
      name := if i == 0 then part else name + "-" + part;
    }
    assert keys[..|keys|] == keys;
  }

  lemma ListsNames(keys: seq<string>, names: set<string>)
    requires Lists(keys, names)
    ensures forall name :: name in keys <==> name in names
  {
  }

  lemma JoinedNone()
    ensures Joined([]) == ""
  {
  }

  lemma JoinedSnoc(parts: seq<string>, part: string)
    ensures Joined(parts + [part]) == if parts == [] then part else Joined(parts) + "-" + part
  {
    assert (parts + [part])[..|parts|] == parts;
  }

  lemma {:induction false} PartsLength(selector: map<string, string>, keys: seq<string>)
    requires forall key | key in keys :: key in selector
    ensures |Parts(selector, keys)| == |keys|
  {
    if keys != [] { PartsLength(selector, keys[..|keys| - 1]); }
  }

  /** The name a group is created with. */
  ghost function GivenName(requested: string, selector: map<string, string>): string {
    if Trim(requested) == "" then CanonicalName(selector) else Trim(requested)
  }
}
