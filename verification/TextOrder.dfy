/** The order in which names are listed: some preferred names first, the others in byte order. */
module TextOrder {
  /** Byte order on text. */
  predicate AtMost(a: string, b: string) {
    a == "" || (b != "" && (a[0] < b[0] || (a[0] == b[0] && AtMost(a[1..], b[1..]))))
  }

  lemma {:induction false} AtMostTotal(a: string, b: string)
    ensures AtMost(a, b) || AtMost(b, a)
  {
    if a != "" && b != "" { AtMostTotal(a[1..], b[1..]); }
  }

  lemma {:induction false} AtMostAntisymmetric(a: string, b: string)
    requires AtMost(a, b) && AtMost(b, a)
    ensures a == b
  {
    if a != "" {
      AtMostAntisymmetric(a[1..], b[1..]);
      assert a == [a[0]] + a[1..] && b == [b[0]] + b[1..];
    }
  }

  lemma {:induction false} AtMostTransitive(a: string, b: string, c: string)
    requires AtMost(a, b) && AtMost(b, c)
    ensures AtMost(a, c)
  {
    if a != "" && a[0] == b[0] == c[0] { AtMostTransitive(a[1..], b[1..], c[1..]); }
  }

  /** A preferred name ranks by its place in the list; every other name comes after all of them. */
  function Rank(preferred: seq<string>, name: string): (rank: nat)
    ensures rank <= |preferred|
    ensures rank < |preferred| ==> preferred[rank] == name
    ensures rank == |preferred| <==> name !in preferred
  {
    if preferred == [] then 0 else if preferred[0] == name then 0 else 1 + Rank(preferred[1..], name)
  }

  predicate Precedes(preferred: seq<string>, a: string, b: string) {
    Rank(preferred, a) < Rank(preferred, b) || (Rank(preferred, a) == Rank(preferred, b) && AtMost(a, b))
  }

  lemma PrecedesTotal(preferred: seq<string>, a: string, b: string)
    ensures Precedes(preferred, a, b) || Precedes(preferred, b, a)
  {
    AtMostTotal(a, b);
  }

  lemma PrecedesAntisymmetric(preferred: seq<string>, a: string, b: string)
    requires Precedes(preferred, a, b) && Precedes(preferred, b, a)
    ensures a == b
  {
    AtMostAntisymmetric(a, b);
  }

  lemma PrecedesTransitive(preferred: seq<string>, a: string, b: string, c: string)
    requires Precedes(preferred, a, b) && Precedes(preferred, b, c)
    ensures Precedes(preferred, a, c)
  {
    if Rank(preferred, a) == Rank(preferred, b) == Rank(preferred, c) { AtMostTransitive(a, b, c); }
  }

  predicate InOrder(preferred: seq<string>, names: seq<string>) {
    forall i, j | 0 <= i < j < |names| :: Precedes(preferred, names[i], names[j])
  }

  predicate Distinct(names: seq<string>) {
    forall i, j | 0 <= i < j < |names| :: names[i] != names[j]
  }

  // ---------- Sorting ----------

  function Insert(preferred: seq<string>, name: string, names: seq<string>): seq<string> {
    if names == [] then [name]
    else if Precedes(preferred, name, names[0]) then [name] + names
    else [names[0]] + Insert(preferred, name, names[1..])
  }

  function Sort(preferred: seq<string>, names: seq<string>): seq<string> {
    if names == [] then [] else Insert(preferred, names[0], Sort(preferred, names[1..]))
  }

  /** `sort.Strings`. */
  function Sorted(names: seq<string>): seq<string> {
    Sort([], names)
  }

  lemma {:induction false} InsertKeeps(preferred: seq<string>, name: string, names: seq<string>)
    ensures multiset(Insert(preferred, name, names)) == multiset(names) + multiset{name}
  {
    if names != [] {
      assert names == [names[0]] + names[1..];
      if !Precedes(preferred, name, names[0]) { InsertKeeps(preferred, name, names[1..]); }
    }
  }

  lemma {:induction false} InsertInOrder(preferred: seq<string>, name: string, names: seq<string>)
    requires InOrder(preferred, names)
    ensures InOrder(preferred, Insert(preferred, name, names))
  {
    if names == [] { return; }
    var result := Insert(preferred, name, names);
    if Precedes(preferred, name, names[0]) {
      forall j | 0 < j < |result| ensures Precedes(preferred, name, result[j]) {
        if j > 1 { PrecedesTransitive(preferred, name, names[0], names[j - 1]); }
      }
    } else {
      PrecedesTotal(preferred, name, names[0]);
      InsertInOrder(preferred, name, names[1..]);
      InsertKeeps(preferred, name, names[1..]);
      var rest := Insert(preferred, name, names[1..]);
      forall j | 0 <= j < |rest| ensures Precedes(preferred, names[0], rest[j]) {
        assert rest[j] in multiset(rest);
        assert rest[j] == name || rest[j] in multiset(names[1..]);
      }
    }
  }

  lemma {:induction false} SortPermutes(preferred: seq<string>, names: seq<string>)
    ensures InOrder(preferred, Sort(preferred, names))
    ensures multiset(Sort(preferred, names)) == multiset(names)
  {
    if names != [] {
      SortPermutes(preferred, names[1..]);
      InsertInOrder(preferred, names[0], Sort(preferred, names[1..]));
      InsertKeeps(preferred, names[0], Sort(preferred, names[1..]));
      assert names == [names[0]] + names[1..];
    }
  }

  lemma SortSound(preferred: seq<string>, names: seq<string>)
    ensures InOrder(preferred, Sort(preferred, names))
    ensures multiset(Sort(preferred, names)) == multiset(names)
    ensures |Sort(preferred, names)| == |names|
    ensures forall name :: name in Sort(preferred, names) <==> name in names
  {
    hide *;
    SortPermutes(preferred, names);
    var sorted := Sort(preferred, names);
    assert |multiset(sorted)| == |sorted| && |multiset(names)| == |names|;
    forall name ensures name in sorted <==> name in names {
      assert name in sorted <==> name in multiset(sorted);
      assert name in names <==> name in multiset(names);
    }
  }

  lemma SameFirst(preferred: seq<string>, a: seq<string>, b: seq<string>)
    requires InOrder(preferred, a) && InOrder(preferred, b)
    requires a != [] && b != [] && a[0] in b && b[0] in a
    ensures a[0] == b[0]
  {
    var i: nat :| i < |b| && b[i] == a[0];
    var j: nat :| j < |a| && a[j] == b[0];
    if a[0] != b[0] { PrecedesAntisymmetric(preferred, a[0], b[0]); }
  }

  lemma InOrderTail(preferred: seq<string>, names: seq<string>)
    requires names != [] && InOrder(preferred, names)
    ensures InOrder(preferred, names[1..])
  {
    hide Precedes;
  }

  lemma SameTails(a: seq<string>, b: seq<string>)
    requires a != [] && b != [] && a[0] == b[0] && multiset(a) == multiset(b)
    ensures multiset(a[1..]) == multiset(b[1..])
  {
    assert a == [a[0]] + a[1..] && b == [b[0]] + b[1..];
    assert multiset(a[1..]) == multiset(a) - multiset{a[0]};
    assert multiset(b[1..]) == multiset(b) - multiset{b[0]};
  }

  lemma SameHeads(preferred: seq<string>, a: seq<string>, b: seq<string>)
    requires InOrder(preferred, a) && InOrder(preferred, b)
    requires multiset(a) == multiset(b) && a != []
    ensures b != [] && a[0] == b[0]
  {
    assert |multiset(a)| == |a| && |multiset(b)| == |b|;
    assert a[0] in multiset(b) && b[0] in multiset(a);
    SameFirst(preferred, a, b);
  }

  /** There is only one way to list the same names in order. */
  lemma {:induction false} OnlyOneOrder(preferred: seq<string>, a: seq<string>, b: seq<string>)
    requires InOrder(preferred, a) && InOrder(preferred, b)
    requires multiset(a) == multiset(b)
    ensures a == b
  {
    hide InOrder;
    if a == [] {
      assert |multiset(b)| == |b|;
    } else {
      SameHeads(preferred, a, b);
      SameTails(a, b);
      InOrderTail(preferred, a);
      InOrderTail(preferred, b);
      OnlyOneOrder(preferred, a[1..], b[1..]);
      assert a == [a[0]] + a[1..] && b == [b[0]] + b[1..];
    }
  }

  lemma {:induction false} DistinctCounts(names: seq<string>, name: string)
    requires Distinct(names)
    ensures multiset(names)[name] == if name in names then 1 else 0
  {
    if names != [] {
      assert names == [names[0]] + names[1..];
      DistinctCounts(names[1..], name);
    }
  }

  lemma SameNamesSameMultiset(a: seq<string>, b: seq<string>)
    requires Distinct(a) && Distinct(b)
    requires forall name :: name in a <==> name in b
    ensures multiset(a) == multiset(b)
  {
    forall name ensures multiset(a)[name] == multiset(b)[name] {
      DistinctCounts(a, name);
      DistinctCounts(b, name);
    }
  }

  lemma RepeatsCountTwice<T>(items: seq<T>, i: nat, j: nat)
    requires i < j < |items| && items[i] == items[j]
    ensures multiset(items)[items[i]] >= 2
  {
    assert items == items[..j] + items[j..];
    assert items[i] == items[..j][i] && items[j] == items[j..][0];
  }

  lemma SameMultisetDistinct(a: seq<string>, b: seq<string>)
    requires Distinct(a) && multiset(a) == multiset(b)
    ensures Distinct(b)
  {
    forall i, j | 0 <= i < j < |b| ensures b[i] != b[j] {
      DistinctCounts(a, b[i]);
      if b[i] == b[j] { RepeatsCountTwice(b, i, j); }
    }
  }

  /** Sorting depends only on which names there are, when no name repeats. */
  lemma SortByNames(preferred: seq<string>, a: seq<string>, b: seq<string>)
    requires Distinct(a) && Distinct(b)
    requires forall name :: name in a <==> name in b
    ensures Sort(preferred, a) == Sort(preferred, b)
  {
    SortSound(preferred, a);
    SortSound(preferred, b);
    SameNamesSameMultiset(a, b);
    OnlyOneOrder(preferred, Sort(preferred, a), Sort(preferred, b));
  }

  lemma SortKeepsDistinct(preferred: seq<string>, names: seq<string>)
    requires Distinct(names)
    ensures Distinct(Sort(preferred, names))
  {
    SortSound(preferred, names);
    SameMultisetDistinct(names, Sort(preferred, names));
  }

  /** The first sorted name is the least. */
  lemma FirstIsLeast(names: seq<string>)
    requires names != []
    ensures Sorted(names) != [] && Sorted(names)[0] in names
    ensures forall name | name in names :: AtMost(Sorted(names)[0], name)
  {
    SortSound([], names);
    var sorted := Sorted(names);
    assert sorted[0] in sorted;
    forall name | name in names ensures AtMost(sorted[0], name) {
      assert name in sorted;
      var i: nat :| i < |sorted| && sorted[i] == name;
      if i > 0 { assert Precedes([], sorted[0], sorted[i]); } else { AtMostTotal(name, name); }
    }
  }

  // ---------- Preferred names first ----------

  /** The preferred names that are present, in the preferred order. */
  function Chosen(preferred: seq<string>, names: seq<string>): seq<string> {
    if preferred == [] then []
    else Chosen(preferred[..|preferred| - 1], names) +
         if preferred[|preferred| - 1] in names then [preferred[|preferred| - 1]] else []
  }

  /** The names that are not preferred, in their own order. */
  function Remaining(preferred: seq<string>, names: seq<string>): seq<string> {
    if names == [] then []
    else Remaining(preferred, names[..|names| - 1]) +
         if names[|names| - 1] in preferred then [] else [names[|names| - 1]]
  }

  lemma {:induction false} RankAt(preferred: seq<string>, i: nat)
    requires Distinct(preferred) && i < |preferred|
    ensures Rank(preferred, preferred[i]) == i
  {
    if i > 0 { RankAt(preferred[1..], i - 1); }
  }

  lemma {:induction false} ChosenSound(preferred: seq<string>, names: seq<string>, count: nat)
    requires Distinct(preferred) && count <= |preferred|
    ensures var chosen := Chosen(preferred[..count], names);
      && Distinct(chosen) && InOrder(preferred, chosen)
      && forall name :: name in chosen <==> name in preferred[..count] && name in names
  {
    if count > 0 {
      assert preferred[..count][..count - 1] == preferred[..count - 1];
      ChosenSound(preferred, names, count - 1);
      RankAt(preferred, count - 1);
      var chosen := Chosen(preferred[..count - 1], names);
      forall i | 0 <= i < |chosen| ensures Precedes(preferred, chosen[i], preferred[count - 1]) && chosen[i] != preferred[count - 1] {
        assert chosen[i] in preferred[..count - 1];
        var k: nat :| k < count - 1 && preferred[k] == chosen[i];
        RankAt(preferred, k);
      }
      assert preferred[..count] == preferred[..count - 1] + [preferred[count - 1]];
    }
  }

  lemma {:induction false} RemainingSound(preferred: seq<string>, names: seq<string>)
    requires Distinct(names)
    ensures Distinct(Remaining(preferred, names))
    ensures forall name :: name in Remaining(preferred, names) <==> name in names && name !in preferred
  {
    if names != [] {
      var last := |names| - 1;
      RemainingSound(preferred, names[..last]);
      assert names == names[..last] + [names[last]];
      assert names[last] !in names[..last];
    }
  }

  /** Taking the preferred names first and sorting the others lists all names in order. */
  lemma ChosenThenRemaining(preferred: seq<string>, names: seq<string>)
    requires Distinct(preferred) && Distinct(names)
    ensures Sort(preferred, names) == Chosen(preferred, names) + Sorted(Remaining(preferred, names))
  {
    var chosen, rest := Chosen(preferred, names), Sorted(Remaining(preferred, names));
    assert preferred[..|preferred|] == preferred;
    ChosenSound(preferred, names, |preferred|);
    RemainingSound(preferred, names);
    SortSound([], Remaining(preferred, names));
    SortKeepsDistinct([], Remaining(preferred, names));
    SortSound(preferred, names);
    SortKeepsDistinct(preferred, names);
    hide Chosen, Remaining, Sort, Precedes;
    BehindPreferred(preferred, chosen, rest);
    SameNamesSameMultiset(chosen + rest, Sort(preferred, names));
    OnlyOneOrder(preferred, chosen + rest, Sort(preferred, names));
  }

  /** Preferred names in order, followed by others in byte order, are in order. */
  lemma BehindPreferred(preferred: seq<string>, chosen: seq<string>, rest: seq<string>)
    requires InOrder(preferred, chosen) && Distinct(chosen) && forall name | name in chosen :: name in preferred
    requires InOrder([], rest) && Distinct(rest) && forall name | name in rest :: name !in preferred
    ensures InOrder(preferred, chosen + rest) && Distinct(chosen + rest)
  {
    var all := chosen + rest;
    hide AtMost, Rank;
    forall i, j | 0 <= i < j < |all| ensures Precedes(preferred, all[i], all[j]) && all[i] != all[j] {
      if i < |chosen| <= j {
        assert all[i] == chosen[i] && chosen[i] in chosen && all[j] == rest[j - |chosen|] && rest[j - |chosen|] in rest;
      } else if |chosen| <= i {
        var a, b := rest[i - |chosen|], rest[j - |chosen|];
        assert all[i] == a && all[j] == b && a in rest && b in rest && Precedes([], a, b);
      }
    }
  }

  /** Text comes first when it is the beginning of the other, or has the smaller character where they
      differ first. */
  lemma {:induction false} AtMostExactly(a: string, b: string)
    ensures AtMost(a, b) <==> a <= b || exists k :: 0 <= k < |a| && k < |b| && a[..k] == b[..k] && a[k] < b[k]
  {
    if a != "" && b != "" && a[0] == b[0] {
      AtMostExactly(a[1..], b[1..]);
      assert a == [a[0]] + a[1..] && b == [b[0]] + b[1..];
      if k :| 0 <= k < |a[1..]| && k < |b[1..]| && a[1..][..k] == b[1..][..k] && a[1..][k] < b[1..][k] {
        assert a[..k + 1] == [a[0]] + a[1..][..k] && b[..k + 1] == [b[0]] + b[1..][..k];
        assert a[k + 1] < b[k + 1];
      }
      if k :| 0 <= k < |a| && k < |b| && a[..k] == b[..k] && a[k] < b[k] {
        assert a[1..][..k - 1] == a[..k][1..] && b[1..][..k - 1] == b[..k][1..];
        assert a[1..][k - 1] < b[1..][k - 1];
      }
    } else if a != "" && b != "" && a[0] < b[0] {
      assert a[..0] == b[..0];
    }
  }
}
