/** How well a pattern fits an imported configuration: a receiver of the pattern's type must be
    present; pipeline signals and the receiver's structure then raise the score. */
module PatternMatch {
  import opened Wrappers
  import opened TextOrder
  import opened CollectorTree

  /** A pattern's receiver configuration text: blank, a text without a document, a text that does
      not parse, or a tree. */
  datatype Configuration = Blank | NoDocument | Malformed | Parsed(tree: Tree)

  datatype Pattern = Pattern(
    id: string, name: string, enabled: bool, receiver: string, configuration: Configuration, signals: seq<string>)

  // ---------- The receiver a pattern is matched against ----------

  /** The component names of this type, in document order. */
  function NamesOfType(entries: seq<Entry>, componentType: string): seq<string> {
    if entries == [] then []
    else (if ComponentType(entries[0].key) == componentType then [entries[0].key] else []) + NamesOfType(entries[1..], componentType)
  }

  /** The entries of the receivers section; a section that is not a mapping has none. */
  function Receivers(root: Tree): seq<Entry> {
    match Value(root, "receivers")
    case Some(Mapping(entries)) => entries
    case _ => []
  }

  /** The least name of the type. */
  function ReceiverByType(root: Tree, componentType: string): Option<string> {
    SortSound([], NamesOfType(Receivers(root), componentType));
    var names := Sorted(NamesOfType(Receivers(root), componentType));
    if names == [] then None else Some(names[0])
  }

  lemma {:induction false} NamesOfTypeIff(entries: seq<Entry>, componentType: string, name: string)
    ensures name in NamesOfType(entries, componentType) <==> name in Keys(entries) && ComponentType(name) == componentType
  {
    if entries != [] {
      NamesOfTypeIff(entries[1..], componentType, name);
      assert Keys(entries) == [entries[0].key] + Keys(entries[1..]);
    }
  }

  /** The chosen receiver has the type, and no receiver of the type has a smaller name; there is
      none to choose exactly when no receiver has the type. */
  lemma ReceiverIsLeast(root: Tree, componentType: string)
    ensures ReceiverByType(root, componentType).None? <==>
      forall name | name in Keys(Receivers(root)) :: ComponentType(name) != componentType
    ensures ReceiverByType(root, componentType).Some? ==>
      var chosen := ReceiverByType(root, componentType).value;
      && chosen in Keys(Receivers(root)) && ComponentType(chosen) == componentType
      && forall name | name in Keys(Receivers(root)) && ComponentType(name) == componentType :: AtMost(chosen, name)
  {
    var names := NamesOfType(Receivers(root), componentType);
    forall name ensures name in names <==> name in Keys(Receivers(root)) && ComponentType(name) == componentType {
      NamesOfTypeIff(Receivers(root), componentType, name);
    }
    SortSound([], names);
    if names != [] { FirstIsLeast(names); assert names[0] in names; }
  }

  /** Only the set of receiver names matters to the choice. */
  lemma SameNamesSameReceiver(a: Tree, b: Tree, componentType: string)
    requires forall name :: name in Keys(Receivers(a)) <==> name in Keys(Receivers(b))
    ensures ReceiverByType(a, componentType) == ReceiverByType(b, componentType)
  {
    ReceiverIsLeast(a, componentType);
    ReceiverIsLeast(b, componentType);
    if ReceiverByType(a, componentType).Some? {
      AtMostAntisymmetric(ReceiverByType(a, componentType).value, ReceiverByType(b, componentType).value);
    }
  }

  // ---------- Signals ----------

  const KNOWN_SIGNALS: set<string> := {"metrics", "traces", "logs", "profiles"}

  function PipelineSignals(root: Tree): set<string> {
    set name | name in Keys(Pipelines(root)) && ComponentType(name) in KNOWN_SIGNALS :: ComponentType(name)
  }

  function Matched(actual: set<string>, expected: seq<string>): (count: nat)
    ensures count <= |expected|
  {
    if expected == [] then 0
    else Matched(actual, expected[..|expected| - 1]) + if expected[|expected| - 1] in actual then 1 else 0
  }

  /** `weight * part / whole`, rounded to the nearest integer, halves up. */
  function Rounded(weight: nat, part: nat, whole: nat): (score: nat)
    requires 0 < whole
  {
    (2 * weight * part + whole) / (2 * whole)
  }

  lemma RoundedNearest(weight: nat, part: nat, whole: nat)
    requires 0 < whole
    ensures var score := Rounded(weight, part, whole);
      (2 * score - 1) * whole <= 2 * weight * part < (2 * score + 1) * whole
  {
    var dividend := 2 * weight * part + whole;
    var score := Rounded(weight, part, whole);
    assert dividend == score * (2 * whole) + dividend % (2 * whole);
  }

  lemma QuotientAtLeast(dividend: nat, divisor: nat, bound: nat)
    requires 0 < divisor
    ensures dividend / divisor >= bound <==> dividend >= bound * divisor
  {
    var quotient := dividend / divisor;
    assert dividend == quotient * divisor + dividend % divisor;
    if quotient >= bound {
      AtLeastTimes(bound, quotient, divisor);
    } else {
      AtLeastTimes(quotient + 1, bound, divisor);
    }
  }

  lemma AtLeastTimes(a: nat, b: nat, factor: nat)
    requires a <= b
    ensures a * factor <= b * factor
  {
    assert (b - a) * factor >= 0;
    assert b * factor == a * factor + (b - a) * factor;
  }

  lemma RoundedTo20(part: nat, whole: nat)
    requires 0 < whole && part <= whole
    ensures Rounded(20, part, whole) <= 20
    ensures Rounded(20, part, whole) == 20 <==> 40 * part >= 39 * whole
  {
    QuotientAtLeast(40 * part + whole, 2 * whole, 20);
    QuotientAtLeast(40 * part + whole, 2 * whole, 21);
  }

  lemma RoundedTo25(part: nat, whole: nat)
    requires 0 < whole && part <= whole
    ensures Rounded(25, part, whole) <= 25
    ensures Rounded(25, part, whole) == 25 <==> 50 * part >= 49 * whole
  {
    QuotientAtLeast(50 * part + whole, 2 * whole, 25);
    QuotientAtLeast(50 * part + whole, 2 * whole, 26);
  }

  function SignalScore(actual: set<string>, expected: seq<string>): nat {
    if expected == [] then 0 else Rounded(25, Matched(actual, expected), |expected|)
  }

  // ---------- Structure ----------

  function Path(prefix: string, key: string): string {
    if prefix == "" then key else prefix + "." + key
  }

  function Named(prefix: string, suffix: string): set<string> {
    if prefix == "" then {} else {prefix + suffix}
  }

  /** A tree flattened into the set of its paths and leaf values. */
  function Features(prefix: string, tree: Tree): set<string>
    decreases tree, match tree case Scalar(_, _) => 0 case Mapping(entries) => |entries| + 1 case Sequence(items) => |items| + 1
  {
    match tree
    case Scalar(tag, text) => if tag == "!!null" then Named(prefix, "=null") else {prefix + "=" + text}
    case Mapping(entries) => Named(prefix, "") + (if entries == [] then Named(prefix, "={}") else {}) +
                             EntryFeatures(prefix, tree, |entries|)
    case Sequence(items) => Named(prefix, "") + ItemFeatures(prefix, tree, |items|)
  }

  /** The features of the first `count` entries. */
  function EntryFeatures(prefix: string, tree: Tree, count: nat): set<string>
    requires tree.Mapping? && count <= |tree.entries|
    decreases tree, count
  {
    if count == 0 then {}
    else EntryFeatures(prefix, tree, count - 1) +
         Features(Path(prefix, tree.entries[count - 1].key), tree.entries[count - 1].value)
  }

  function ItemFeatures(prefix: string, tree: Tree, count: nat): set<string>
    requires tree.Sequence? && count <= |tree.items|
    decreases tree, count
  {
    if count == 0 then {} else ItemFeatures(prefix, tree, count - 1) + Features(prefix + "[]", tree.items[count - 1])
  }

  /** A configuration text decodes to a value unless it is malformed or repeats a key; no document
      decodes to nothing. */
  predicate Decodes(configuration: Configuration) {
    configuration != Malformed && (configuration.Parsed? ==> Keyed(configuration.tree))
  }

  function ExpectedFeatures(configuration: Configuration): set<string> {
    if configuration.Parsed? then Features("", configuration.tree) else {}
  }

  function Similarity(actual: set<string>, expected: set<string>): nat {
    if actual + expected == {} then 20 else Rounded(20, |actual * expected|, |actual + expected|)
  }

  // ---------- The score ----------

  function Score(signals: nat, structure: nat): nat {
    if 55 + signals + structure > 100 then 100 else 55 + signals + structure
  }

  /** The score of a pattern whose receiver is present and whose configuration decodes. */
  function MatchScore(root: Tree, pattern: Pattern): Option<nat> {
    var name := ReceiverByType(root, pattern.receiver);
    if name.None? || Find(Receivers(root), name.value).None? || !Decodes(pattern.configuration) then None
    else Some(Score(
      SignalScore(PipelineSignals(root), pattern.signals),
      Similarity(Features("", Find(Receivers(root), name.value).value), ExpectedFeatures(pattern.configuration))))
  }

  lemma OverlapAtMostUnion(a: set<string>, b: set<string>)
    ensures |a * b| <= |a + b|
  {
    assert a + b == (a * b) + ((a + b) - (a * b));
    assert |a + b| == |a * b| + |(a + b) - (a * b)|;
  }

  lemma SimilarityBounds(actual: set<string>, expected: set<string>)
    ensures Similarity(actual, expected) <= 20
    ensures Similarity(actual, expected) == 20 <==>
      (actual == {} && expected == {}) || 40 * |actual * expected| >= 39 * |actual + expected| > 0
    ensures actual == expected ==> Similarity(actual, expected) == 20
  {
    OverlapAtMostUnion(actual, expected);
    if actual + expected != {} {
      assert |actual + expected| > 0;
      RoundedTo20(|actual * expected|, |actual + expected|);
    } else {
      assert actual <= actual + expected && expected <= actual + expected;
    }
    if actual == expected { assert actual * expected == actual && actual + expected == actual; }
  }

  lemma SignalBounds(actual: set<string>, expected: seq<string>)
    ensures SignalScore(actual, expected) <= 25
    ensures SignalScore(actual, expected) == 25 <==> expected != [] && 50 * Matched(actual, expected) >= 49 * |expected|
  {
    if expected != [] { RoundedTo25(Matched(actual, expected), |expected|); }
  }

  /** Every score lies in 55..100, so the cap at 100 never applies; it is 100 exactly when nearly
      all signals match and the receiver's structure is nearly the pattern's. */
  lemma ScoreRange(actual: set<string>, expected: seq<string>, found: set<string>, wanted: set<string>)
    ensures var score := Score(SignalScore(actual, expected), Similarity(found, wanted));
      && 55 <= score <= 100
      && score == 55 + SignalScore(actual, expected) + Similarity(found, wanted)
      && (score == 100 <==>
            && expected != [] && 50 * Matched(actual, expected) >= 49 * |expected|
            && ((found == {} && wanted == {}) || 40 * |found * wanted| >= 39 * |found + wanted| > 0))
  {
    SignalBounds(actual, expected);
    SimilarityBounds(found, wanted);
  }

  // ---------- The computation ----------

  /** The shared set that flattening writes into. */
  class FeatureSet {
    var names: set<string>

    constructor ()
      ensures names == {}
    {
      names := {};
    }

    method Flatten(prefix: string, tree: Tree)
      modifies this
      ensures names == old(names) + Features(prefix, tree)
      decreases tree
    {
      match tree {
        case Mapping(entries) =>
          if prefix != "" { names := names + {prefix}; }
          if |entries| == 0 && prefix != "" { names := names + {prefix + "={}"}; }
          ghost var before := names;
          for i := 0 to |entries|
            invariant names == before + EntryFeatures(prefix, tree, i)
          {
            var path := entries[i].key;
            if prefix != "" { path := prefix + "." + entries[i].key; }
            Flatten(path, entries[i].value);
          }
          assert Named(prefix, "") == if prefix == "" then {} else {prefix} by { assert prefix + "" == prefix; }
        case Sequence(items) =>
          if prefix != "" { names := names + {prefix}; }
          ghost var before := names;
          for i := 0 to |items|
            invariant names == before + ItemFeatures(prefix, tree, i)
          {
            Flatten(prefix + "[]", items[i]);
          }
          assert Named(prefix, "") == if prefix == "" then {} else {prefix} by { assert prefix + "" == prefix; }
        case Scalar(tag, text) =>
          if tag == "!!null" {
            if prefix != "" { names := names + {prefix + "=null"}; }
          } else {
            names := names + {prefix + "=" + text};
          }
      }
    }
  }

  method PatternSignalScore(actual: set<string>, expected: seq<string>) returns (score: nat, matched: seq<string>)
    ensures score == SignalScore(actual, expected)
    ensures forall signal :: signal in matched <==> signal in expected && signal in actual
    ensures InOrder([], matched)
  {
    if |expected| == 0 { return 0, []; }
    matched := [];
    for i := 0 to |expected|
      invariant |matched| == Matched(actual, expected[..i])
      invariant forall signal :: signal in matched <==> signal in expected[..i] && signal in actual
    {
      assert expected[..i + 1][..i] == expected[..i];
      if expected[i] in actual { matched := matched + [expected[i]]; }
    }
    assert expected[..|expected|] == expected;
    score := Rounded(25, |matched|, |expected|);
    SortSound([], matched);
    matched := Sorted(matched);
  }

  lemma OneMoreShared(found: set<string>, seen: set<string>, feature: string)
    requires feature !in seen
    ensures |found * (seen + {feature})| == |found * seen| + if feature in found then 1 else 0
  {
    if feature in found {
      assert found * (seen + {feature}) == found * seen + {feature};
    } else {
      assert found * (seen + {feature}) == found * seen;
    }
  }

  /** Counts the wanted features that were found while collecting the union. */
  method Compare(found: set<string>, wanted: set<string>) returns (intersection: nat, union: set<string>)
    ensures intersection == |found * wanted| && union == found + wanted
  {
    intersection, union := 0, found;
    var left := wanted;
    ghost var seen: set<string> := {};
    assert found * seen == {};
    while left != {}
      invariant left + seen == wanted && left !! seen
      invariant union == found + seen
      invariant intersection == |found * seen|
    {
      var feature :| feature in left;
      OneMoreShared(found, seen, feature);
      left, seen := left - {feature}, seen + {feature};
      if feature in found { intersection := intersection + 1; }
      union := union + {feature};
    }
    assert seen == wanted;
  }

  method PatternReceiverConfigScore(actual: Tree, configuration: Configuration) returns (score: Option<nat>)
    ensures score == if Decodes(configuration)
                     then Some(Similarity(Features("", actual), ExpectedFeatures(configuration))) else None
  {
    if !Decodes(configuration) { return None; }
    var found := new FeatureSet();
    var wanted := new FeatureSet();
    found.Flatten("", actual);
    if configuration.Parsed? { wanted.Flatten("", configuration.tree); }
    if |found.names| == 0 && |wanted.names| == 0 {
      return Some(20);
    }
    var intersection, union := Compare(found.names, wanted.names);
    assert union != {} by { assert found.names <= union && wanted.names <= union; }
    score := Some(Rounded(20, intersection, |union|));
  }
}
