/** The list of patterns offered for an imported configuration, the best one first. */
module PatternRanking {
  import opened Wrappers
  import opened Names
  import opened TextOrder
  import opened CollectorTree
  import opened PatternMatch

  datatype Match = Match(id: string, name: string, score: nat)

  // ---------- Which patterns are looked at ----------

  /** Enabled patterns, the first one of every id. */
  function Considered(patterns: seq<Option<Pattern>>): seq<Pattern> {
    if patterns == [] then []
    else
      var last := |patterns| - 1;
      var before := Considered(patterns[..last]);
      if patterns[last].Some? && patterns[last].value.enabled && !Seen(before, patterns[last].value.id)
      then before + [patterns[last].value] else before
  }

  predicate Seen(patterns: seq<Pattern>, id: string) {
    exists i :: 0 <= i < |patterns| && patterns[i].id == id
  }

  /** The matches of the patterns whose receiver is present; none when one of these does not decode. */
  function Matches(root: Tree, patterns: seq<Pattern>): Option<seq<Match>> {
    if patterns == [] then Some([])
    else
      var last := patterns[|patterns| - 1];
      var before := Matches(root, patterns[..|patterns| - 1]);
      if before.None? || ReceiverByType(root, last.receiver).None? then before
      else if MatchScore(root, last).None? then None
      else Some(before.value + [Match(last.id, last.name, MatchScore(root, last).value)])
  }

  lemma {:induction false} ConsideredOnce(patterns: seq<Option<Pattern>>)
    ensures var considered := Considered(patterns);
      && (forall i, j | 0 <= i < j < |considered| :: considered[i].id != considered[j].id)
      && forall p | p in considered :: p.enabled && Some(p) in patterns
    ensures forall p | Some(p) in patterns && p.enabled :: Seen(Considered(patterns), p.id)
  {
    if patterns != [] {
      var last := |patterns| - 1;
      ConsideredOnce(patterns[..last]);
      var before, all := Considered(patterns[..last]), Considered(patterns);
      assert patterns == patterns[..last] + [patterns[last]];
      forall id | Seen(before, id) ensures Seen(all, id) {
        var i :| 0 <= i < |before| && before[i].id == id;
        assert all[i] == before[i];
      }
      if all != before { assert all[|before|] == patterns[last].value; }
    }
  }

  /** The match is the score of one of the patterns. */
  ghost predicate Scored(root: Tree, patterns: seq<Pattern>, m: Match) {
    exists i :: 0 <= i < |patterns| && ScoreOf(root, patterns[i], m)
  }

  ghost predicate ScoreOf(root: Tree, pattern: Pattern, m: Match) {
    Some(m.score) == MatchScore(root, pattern) && m.id == pattern.id && m.name == pattern.name
  }

  lemma ScoredSnoc(root: Tree, patterns: seq<Pattern>, m: Match)
    requires patterns != []
    ensures Scored(root, patterns, m) <==>
      Scored(root, patterns[..|patterns| - 1], m) || ScoreOf(root, patterns[|patterns| - 1], m)
  {
    hide ScoreOf;
    var before := patterns[..|patterns| - 1];
    if Scored(root, before, m) {
      var i :| 0 <= i < |before| && ScoreOf(root, before[i], m);
      assert patterns[i] == before[i];
    }
    if Scored(root, patterns, m) {
      var i :| 0 <= i < |patterns| && ScoreOf(root, patterns[i], m);
      if i < |before| { assert before[i] == patterns[i]; }
    }
  }

  lemma NoReceiverNoScore(root: Tree, pattern: Pattern, m: Match)
    ensures ReceiverByType(root, pattern.receiver).None? ==> !ScoreOf(root, pattern, m)
    ensures MatchScore(root, pattern).Some? ==>
      (ScoreOf(root, pattern, m) <==> m == Match(pattern.id, pattern.name, MatchScore(root, pattern).value))
  {
  }

  lemma {:induction false} MatchesExactly(root: Tree, patterns: seq<Pattern>, m: Match)
    requires Matches(root, patterns).Some?
    ensures m in Matches(root, patterns).value <==> Scored(root, patterns, m)
  {
    if patterns != [] {
      var last := |patterns| - 1;
      ScoredSnoc(root, patterns, m);
      NoReceiverNoScore(root, patterns[last], m);
      hide ReceiverByType, MatchScore, ScoreOf, Scored;
      MatchesExactly(root, patterns[..last], m);
    }
  }

  // ---------- Ranking ----------

  /** A higher score comes first; equal scores go by name, without regard to letter case. */
  predicate RanksBefore(a: Match, b: Match) {
    a.score > b.score || (a.score == b.score && AtMost(Fold(a.name), Fold(b.name)))
  }

  predicate Ranked(matches: seq<Match>) {
    forall i, j | 0 <= i < j < |matches| :: RanksBefore(matches[i], matches[j])
  }

  function Place(m: Match, ranked: seq<Match>): seq<Match> {
    if ranked == [] then [m]
    else if RanksBefore(m, ranked[0]) then [m] + ranked
    else [ranked[0]] + Place(m, ranked[1..])
  }

  function Rank(matches: seq<Match>): seq<Match> {
    if matches == [] then [] else Place(matches[0], Rank(matches[1..]))
  }

  lemma RanksTotal(a: Match, b: Match)
    ensures RanksBefore(a, b) || RanksBefore(b, a)
  {
    AtMostTotal(Fold(a.name), Fold(b.name));
  }

  lemma RanksTransitive(a: Match, b: Match, c: Match)
    requires RanksBefore(a, b) && RanksBefore(b, c)
    ensures RanksBefore(a, c)
  {
    if a.score == b.score == c.score { AtMostTransitive(Fold(a.name), Fold(b.name), Fold(c.name)); }
  }

  lemma {:induction false} PlaceKeeps(m: Match, ranked: seq<Match>)
    requires Ranked(ranked)
    ensures Ranked(Place(m, ranked)) && multiset(Place(m, ranked)) == multiset(ranked) + multiset{m}
  {
    hide RanksBefore;
    if ranked == [] { return; }
    assert ranked == [ranked[0]] + ranked[1..];
    if RanksBefore(m, ranked[0]) {
      forall j | 0 <= j < |ranked| ensures RanksBefore(m, ranked[j]) {
        if j > 0 { RanksTransitive(m, ranked[0], ranked[j]); }
      }
    } else {
      RanksTotal(m, ranked[0]);
      PlaceKeeps(m, ranked[1..]);
      var rest := Place(m, ranked[1..]);
      forall j | 0 <= j < |rest| ensures RanksBefore(ranked[0], rest[j]) {
        assert rest[j] in multiset(rest);
        assert rest[j] == m || rest[j] in multiset(ranked[1..]);
      }
    }
  }

  lemma {:induction false} RankSound(matches: seq<Match>)
    ensures Ranked(Rank(matches)) && multiset(Rank(matches)) == multiset(matches)
  {
    if matches != [] {
      RankSound(matches[1..]);
      PlaceKeeps(matches[0], Rank(matches[1..]));
      assert matches == [matches[0]] + matches[1..];
    }
  }

  lemma {:induction false} FailureStays(root: Tree, patterns: seq<Pattern>, i: nat)
    requires i <= |patterns| && Matches(root, patterns[..i]).None?
    ensures Matches(root, patterns).None?
  {
    if i < |patterns| {
      assert patterns[..|patterns| - 1][..i] == patterns[..i];
      FailureStays(root, patterns[..|patterns| - 1], i);
    } else {
      assert patterns[..i] == patterns;
    }
  }

  lemma {:induction false} ConsideredPrefix(patterns: seq<Option<Pattern>>, i: nat)
    requires i <= |patterns|
    ensures Considered(patterns[..i]) <= Considered(patterns)
  {
    if i < |patterns| {
      assert patterns[..|patterns| - 1][..i] == patterns[..i];
      ConsideredPrefix(patterns[..|patterns| - 1], i);
    } else {
      assert patterns[..i] == patterns;
    }
  }

  /** Scores every enabled pattern whose receiver is present, once per id, and ranks them; the
      recommended pattern is the first, and no offered pattern scores higher. */
  method MatchCollectorPatterns(root: Tree, patterns: seq<Option<Pattern>>)
    returns (ranked: Option<seq<Match>>, recommended: Option<Match>)
    ensures ranked.None? <==> !Importable(root) || Matches(root, Considered(patterns)).None?
    ensures ranked.Some? ==>
      && Ranked(ranked.value)
      && multiset(ranked.value) == multiset(Matches(root, Considered(patterns)).value)
      && (recommended.Some? <==> ranked.value != [])
      && (recommended.Some? ==>
            recommended.value == ranked.value[0] && forall m | m in ranked.value :: m.score <= recommended.value.score)
  {
    if !Importable(root) { return None, None; }
    hide *;
    var result := [];
    var seen: set<string> := {};
    NothingConsidered(root, patterns);
    for i := 0 to |patterns|
      invariant Matches(root, Considered(patterns[..i])) == Some(result)
      invariant Tracks(seen, Considered(patterns[..i]))
    {
      ConsiderStep(root, patterns, i, seen);
      if patterns[i].None? || !patterns[i].value.enabled || patterns[i].value.id in seen { continue; }
      var pattern := patterns[i].value;
      seen := seen + {pattern.id};
      var name := ReceiverByType(root, pattern.receiver);
      if name.None? { continue; }
      var score := ScorePattern(root, pattern, name.value);
      if score.None? {
        ConsideredFailure(root, patterns, i + 1);
        return None, None;
      }
      result := result + [Match(pattern.id, pattern.name, score.value)];
    }
    assert patterns[..|patterns|] == patterns;
    RankSound(result);
    FirstIsBest(Rank(result));
    ranked := Some(Rank(result));
    recommended := if |ranked.value| > 0 then Some(ranked.value[0]) else None;
  }

  /** The ids of the patterns. */
  ghost predicate Tracks(seen: set<string>, patterns: seq<Pattern>) {
    forall id :: id in seen <==> Seen(patterns, id)
  }

  lemma NothingConsidered(root: Tree, patterns: seq<Option<Pattern>>)
    ensures Matches(root, Considered(patterns[..0])) == Some([]) && Tracks({}, Considered(patterns[..0]))
  {
  }

  /** What one more pattern adds. */
  lemma ConsiderStep(root: Tree, patterns: seq<Option<Pattern>>, i: nat, seen: set<string>)
    requires i < |patterns| && Tracks(seen, Considered(patterns[..i]))
    ensures var before, after := Considered(patterns[..i]), Considered(patterns[..i + 1]);
      if patterns[i].None? || !patterns[i].value.enabled || patterns[i].value.id in seen then after == before
      else
        var p := patterns[i].value;
        && Tracks(seen + {p.id}, after)
        && (Matches(root, before).Some? ==>
             Matches(root, after) ==
               if ReceiverByType(root, p.receiver).None? then Matches(root, before)
               else if MatchScore(root, p).None? then None
               else Some(Matches(root, before).value + [Match(p.id, p.name, MatchScore(root, p).value)]))
  {
    hide ReceiverByType, MatchScore;
    var before := Considered(patterns[..i]);
    assert patterns[..i + 1][..i] == patterns[..i];
    if patterns[i].Some? {
      assert patterns[i].value.id in seen <==> Seen(before, patterns[i].value.id);
      SeenSnoc(before, patterns[i].value);
      assert (before + [patterns[i].value])[..|before|] == before;
    }
    hide Seen;
  }

  lemma ConsideredFailure(root: Tree, patterns: seq<Option<Pattern>>, i: nat)
    requires i <= |patterns| && Matches(root, Considered(patterns[..i])).None?
    ensures Matches(root, Considered(patterns)).None?
  {
    ConsideredPrefix(patterns, i);
    var some, all := Considered(patterns[..i]), Considered(patterns);
    assert all[..|some|] == some;
    FailureStays(root, all, |some|);
  }

  lemma FirstIsBest(ranked: seq<Match>)
    requires Ranked(ranked)
    ensures ranked != [] ==> forall m | m in ranked :: m.score <= ranked[0].score
  {
    hide RanksBefore;
    forall m | ranked != [] && m in ranked ensures m.score <= ranked[0].score {
      var k: nat :| k < |ranked| && ranked[k] == m;
      if k > 0 { HigherOrEqual(ranked[0], ranked[k]); }
    }
  }

  lemma HigherOrEqual(a: Match, b: Match)
    requires RanksBefore(a, b)
    ensures b.score <= a.score
  {
  }

  lemma SeenSnoc(patterns: seq<Pattern>, pattern: Pattern)
    ensures forall id :: Seen(patterns + [pattern], id) <==> Seen(patterns, id) || id == pattern.id
  {
    forall id ensures Seen(patterns + [pattern], id) <==> Seen(patterns, id) || id == pattern.id {
      if Seen(patterns, id) {
        var i :| 0 <= i < |patterns| && patterns[i].id == id;
        assert (patterns + [pattern])[i] == patterns[i];
      }
      assert (patterns + [pattern])[|patterns|] == pattern;
    }
  }

  method ScorePattern(root: Tree, pattern: Pattern, receiver: string) returns (score: Option<nat>)
    requires ReceiverByType(root, pattern.receiver) == Some(receiver)
    ensures score == MatchScore(root, pattern)
  {
    ReceiverIsLeast(root, pattern.receiver);
    ContentKeys(Receivers(root));
    ContentFind(Receivers(root), receiver);
    hide SignalScore, Similarity, Features, ExpectedFeatures, Content, Find, Sorted;
    var signals, _ := PatternSignalScore(PipelineSignals(root), pattern.signals);
    var structure := PatternReceiverConfigScore(Find(Receivers(root), receiver).value, pattern.configuration);
    if structure.None? { return None; }
    var total := 55 + signals + structure.value;
    score := Some(if total > 100 then 100 else total);
  }
}
