/** The line diff shown to the approvers of a configuration change: a table-driven
    longest-common-subsequence diff and the walk that turns the table into rows. */
module LineDiff {
  import opened Texts

  datatype Kind = Same | Added | Removed

  datatype Row = Row(oldText: string, newText: string, kind: Kind) {
    ghost predicate WellFormed() {
      match kind
      case Same => oldText == newText
      case Added => oldText == ""
      case Removed => newText == ""
    }
  }

  // ---------- From text to lines ----------

  function TrimFinalNewline(text: string): string {
    if text != "" && text[|text| - 1] == '\n' then text[..|text| - 1] else text
  }

  /** The lines of a configuration; the empty text has none. */
  function Lines(content: string): seq<string> {
    if content == "" then [] else Split(TrimFinalNewline(content), '\n')
  }

  function Join(lines: seq<string>): string {
    if lines == [] then ""
    else if |lines| == 1 then lines[0]
    else lines[0] + "\n" + Join(lines[1..])
  }

  lemma {:induction false} JoinSplit(text: string)
    ensures Join(Split(text, '\n')) == text
    ensures forall i :: 0 <= i < |Split(text, '\n')| ==> '\n' !in Split(text, '\n')[i]
  {
    if text != "" {
      JoinSplit(text[1..]);
      var rest := Split(text[1..], '\n');
      if text[0] == '\n' {
        assert ([""] + rest)[1..] == rest;
      } else {
        var all := [[text[0]] + rest[0]] + rest[1..];
        assert all[1..] == rest[1..];
        assert text == [text[0]] + text[1..];
      }
    }
  }

  /** The lines determine the text up to one trailing newline. */
  lemma LinesKeepContent(content: string)
    ensures Join(Lines(content)) == TrimFinalNewline(content)
    ensures content == TrimFinalNewline(content) || content == TrimFinalNewline(content) + "\n"
  {
    if content != "" {
      JoinSplit(TrimFinalNewline(content));
    }
  }

  // ---------- Longest common subsequences ----------

  ghost predicate Subsequence(c: seq<string>, a: seq<string>) {
    c == [] ||
    (a != [] && (Subsequence(c, a[1..]) || (c[0] == a[0] && Subsequence(c[1..], a[1..]))))
  }

  ghost predicate CommonSubsequence(c: seq<string>, a: seq<string>, b: seq<string>) {
    Subsequence(c, a) && Subsequence(c, b)
  }

  /** The recurrence behind the table: the entry for the suffixes from i and j. */
  ghost function Lcs(a: seq<string>, b: seq<string>, i: nat, j: nat): nat
    requires i <= |a| && j <= |b|
    decreases |a| - i + |b| - j
  {
    if i == |a| || j == |b| then 0
    else if a[i] == b[j] then Lcs(a, b, i + 1, j + 1) + 1
    else if Lcs(a, b, i + 1, j) >= Lcs(a, b, i, j + 1) then Lcs(a, b, i + 1, j)
    else Lcs(a, b, i, j + 1)
  }

  lemma {:induction false} SubsequenceTail(c: seq<string>, a: seq<string>)
    requires c != [] && Subsequence(c, a)
    ensures Subsequence(c[1..], a)
    ensures a != [] && Subsequence(c[1..], a[1..])
    decreases |a|
  {
    if Subsequence(c, a[1..]) {
      SubsequenceTail(c, a[1..]);
    }
    if c[1..] != [] {
      assert Subsequence(c[1..], a[1..]);
    }
  }

  /** No common subsequence of the two suffixes is longer than the table entry. */
  lemma {:induction false} LcsBoundsCommon(a: seq<string>, b: seq<string>, i: nat, j: nat, c: seq<string>)
    requires i <= |a| && j <= |b|
    requires CommonSubsequence(c, a[i..], b[j..])
    ensures |c| <= Lcs(a, b, i, j)
    decreases |a| - i + |b| - j
  {
    if c != [] && i < |a| && j < |b| {
      assert a[i..][1..] == a[i + 1..] && b[j..][1..] == b[j + 1..];
      if a[i] == b[j] {
        SubsequenceTail(c, a[i..]);
        SubsequenceTail(c, b[j..]);
        LcsBoundsCommon(a, b, i + 1, j + 1, c[1..]);
      } else if Subsequence(c, a[i + 1..]) {
        LcsBoundsCommon(a, b, i + 1, j, c);
      } else {
        assert Subsequence(c, b[j + 1..]);
        LcsBoundsCommon(a, b, i, j + 1, c);
      }
    }
  }

  /** One of the suffixes' common subsequences are as long as the table entry says. */
  lemma {:induction false} LcsAttained(a: seq<string>, b: seq<string>, i: nat, j: nat) returns (c: seq<string>)
    requires i <= |a| && j <= |b|
    ensures CommonSubsequence(c, a[i..], b[j..]) && |c| == Lcs(a, b, i, j)
    decreases |a| - i + |b| - j
  {
    c := [];
    if i < |a| && j < |b| {
      assert a[i..][1..] == a[i + 1..] && b[j..][1..] == b[j + 1..];
      if a[i] == b[j] {
        var rest := LcsAttained(a, b, i + 1, j + 1);
        c := [a[i]] + rest;
        assert c[1..] == rest;
      } else if Lcs(a, b, i + 1, j) >= Lcs(a, b, i, j + 1) {
        c := LcsAttained(a, b, i + 1, j);
      } else {
        c := LcsAttained(a, b, i, j + 1);
      }
    }
  }

  /** Some common subsequence that leaves out the first new line is longer than all that leave out the
      first old line. */
  ghost predicate AddsMore(a: seq<string>, b: seq<string>)
    requires a != [] && b != []
  {
    exists c :: CommonSubsequence(c, a, b[1..]) && forall d :: CommonSubsequence(d, a[1..], b) ==> |d| < |c|
  }

  lemma AddsMoreIff(a: seq<string>, b: seq<string>, i: nat, j: nat)
    requires i < |a| && j < |b|
    ensures AddsMore(a[i..], b[j..]) <==> Lcs(a, b, i, j + 1) > Lcs(a, b, i + 1, j)
  {
    hide Lcs, Subsequence;
    assert a[i..][1..] == a[i + 1..] && b[j..][1..] == b[j + 1..];
    if c :| CommonSubsequence(c, a[i..], b[j + 1..]) && forall d :: CommonSubsequence(d, a[i + 1..], b[j..]) ==> |d| < |c| {
      LcsBoundsCommon(a, b, i, j + 1, c);
      var d := LcsAttained(a, b, i + 1, j);
    }
    if Lcs(a, b, i, j + 1) > Lcs(a, b, i + 1, j) {
      var c := LcsAttained(a, b, i, j + 1);
      forall d | CommonSubsequence(d, a[i + 1..], b[j..]) ensures |d| < |c| { LcsBoundsCommon(a, b, i + 1, j, d); }
    }
  }

  // ---------- What a list of rows says ----------

  function OldSide(rows: seq<Row>): seq<string> {
    if rows == [] then []
    else OldSide(rows[..|rows| - 1]) + (if rows[|rows| - 1].kind == Added then [] else [rows[|rows| - 1].oldText])
  }

  function NewSide(rows: seq<Row>): seq<string> {
    if rows == [] then []
    else NewSide(rows[..|rows| - 1]) + (if rows[|rows| - 1].kind == Removed then [] else [rows[|rows| - 1].newText])
  }

  function Kept(rows: seq<Row>): seq<string> {
    if rows == [] then []
    else Kept(rows[..|rows| - 1]) + (if rows[|rows| - 1].kind == Same then [rows[|rows| - 1].oldText] else [])
  }

  ghost predicate WellFormedRows(rows: seq<Row>) {
    forall i :: 0 <= i < |rows| ==> rows[i].WellFormed()
  }

  /** The rows explain how one text becomes the other. */
  ghost predicate Explains(rows: seq<Row>, a: seq<string>, b: seq<string>) {
    WellFormedRows(rows) && OldSide(rows) == a && NewSide(rows) == b
  }

  lemma {:induction false} SubsequenceSnoc(c: seq<string>, a: seq<string>, x: string, keep: bool)
    requires Subsequence(c, a)
    ensures Subsequence(if keep then c + [x] else c, a + [x])
    decreases |a|
  {
    if a == [] {
      assert c == [];
      assert (a + [x])[1..] == [];
      assert keep ==> (c + [x])[1..] == [];
    } else {
      assert (a + [x])[1..] == a[1..] + [x];
      if Subsequence(c, a[1..]) {
        SubsequenceSnoc(c, a[1..], x, keep);
      } else if c != [] {
        SubsequenceSnoc(c[1..], a[1..], x, keep);
        assert keep ==> (c + [x])[1..] == c[1..] + [x];
      }
    }
  }

  /** Rows that explain a change keep a common subsequence, and each line is counted once:
      as kept, as removed or as added. */
  lemma {:induction false} RowsKeepCommon(rows: seq<Row>)
    requires WellFormedRows(rows)
    ensures CommonSubsequence(Kept(rows), OldSide(rows), NewSide(rows))
    ensures |rows| + |Kept(rows)| == |OldSide(rows)| + |NewSide(rows)|
  {
    if rows != [] {
      var init, last := rows[..|rows| - 1], rows[|rows| - 1];
      RowsKeepCommon(init);
      assert last.WellFormed();
      SubsequenceSnoc(Kept(init), OldSide(init), last.oldText, last.kind == Same);
      SubsequenceSnoc(Kept(init), NewSide(init), last.newText, last.kind == Same);
      assert Kept(init) + [] == Kept(init) && OldSide(init) + [] == OldSide(init) && NewSide(init) + [] == NewSide(init);
    }
  }

  /** Emitting one more row carries an explanation of two prefixes one line further. */
  lemma AppendRow(rows: seq<Row>, row: Row, a: seq<string>, b: seq<string>, i: nat, j: nat)
    requires i <= |a| && j <= |b| && Explains(rows, a[..i], b[..j]) && row.WellFormed()
    requires row.kind != Added ==> i < |a| && row.oldText == a[i]
    requires row.kind != Removed ==> j < |b| && row.newText == b[j]
    ensures Explains(rows + [row], a[..if row.kind == Added then i else i + 1], b[..if row.kind == Removed then j else j + 1])
    ensures |Kept(rows + [row])| == |Kept(rows)| + (if row.kind == Same then 1 else 0)
  {
    var all := rows + [row];
    assert all[..|all| - 1] == rows && all[|all| - 1] == row;
    assert OldSide(rows) + [] == OldSide(rows) && NewSide(rows) + [] == NewSide(rows);
    if row.kind != Added {
      assert a[..i + 1] == a[..i] + [a[i]];
    }
    if row.kind != Removed {
      assert b[..j + 1] == b[..j] + [b[j]];
    }
  }

  // ---------- The one diff that is shown ----------

  /** The next row for the lines that are left: equal lines are kept; otherwise the old line is removed
      first, unless adding the new one first keeps more. */
  ghost predicate Chooses(kind: Kind, a: seq<string>, b: seq<string>) {
    if a != [] && b != [] then kind == (if a[0] == b[0] then Same else if AddsMore(a, b) then Added else Removed)
    else (a != [] && kind == Removed) || (b != [] && kind == Added)
  }

  ghost predicate Follows(rows: seq<Row>, a: seq<string>, b: seq<string>) {
    rows == [] ||
    var before := rows[..|rows| - 1];
    && |OldSide(before)| <= |a| && |NewSide(before)| <= |b| && Follows(before, a, b)
    && Chooses(rows[|rows| - 1].kind, a[|OldSide(before)|..], b[|NewSide(before)|..])
  }

  lemma FollowRow(rows: seq<Row>, row: Row, a: seq<string>, b: seq<string>, i: nat, j: nat)
    requires i <= |a| && j <= |b| && Explains(rows, a[..i], b[..j]) && Follows(rows, a, b)
    requires if i < |a| && j < |b| then row.kind == (if a[i] == b[j] then Same else if Lcs(a, b, i, j + 1) > Lcs(a, b, i + 1, j) then Added else Removed)
             else if j < |b| then row.kind == Added else i < |a| && row.kind == Removed
    ensures Follows(rows + [row], a, b)
  {
    hide Lcs, AddsMore;
    if i < |a| && j < |b| { AddsMoreIff(a, b, i, j); }
    assert (rows + [row])[..|rows|] == rows;
    assert a[i..] != [] <==> i < |a|;
    assert b[j..] != [] <==> j < |b|;
  }

  lemma {:induction false} FollowsPart(rows: seq<Row>, a: seq<string>, b: seq<string>, k: nat)
    requires Follows(rows, a, b) && k <= |rows|
    ensures Follows(rows[..k], a, b) && OldSide(rows[..k]) <= OldSide(rows) && NewSide(rows[..k]) <= NewSide(rows)
  {
    if k < |rows| {
      FollowsPart(rows[..|rows| - 1], a, b, k);
      assert rows[..|rows| - 1][..k] == rows[..k];
    } else {
      assert rows[..k] == rows;
    }
  }

  /** The k-th row is settled by the rows before it and the two texts. */
  lemma RowSettled(rows: seq<Row>, a: seq<string>, b: seq<string>, k: nat)
    requires Explains(rows, a, b) && Follows(rows, a, b) && k < |rows|
    ensures var i, j := |OldSide(rows[..k])|, |NewSide(rows[..k])|;
      && i <= |a| && j <= |b| && Chooses(rows[k].kind, a[i..], b[j..])
      && rows[k].oldText == (if rows[k].kind == Added then "" else a[i])
      && rows[k].newText == (if rows[k].kind == Removed then "" else b[j])
  {
    hide Chooses;
    var i, j := |OldSide(rows[..k])|, |NewSide(rows[..k])|;
    FollowsPart(rows, a, b, k + 1);
    assert rows[..k + 1][..k] == rows[..k] && rows[..k + 1][k] == rows[k];
    assert rows[k].WellFormed();
    if rows[k].kind != Added { assert OldSide(rows[..k + 1])[i] == rows[k].oldText; }
    if rows[k].kind != Removed { assert NewSide(rows[..k + 1])[j] == rows[k].newText; }
  }

  lemma ChoosesOne(kind: Kind, other: Kind, a: seq<string>, b: seq<string>)
    requires Chooses(kind, a, b) && Chooses(other, a, b)
    ensures kind == other
  {
    hide AddsMore;
  }

  lemma {:induction false} SameStart(rows: seq<Row>, other: seq<Row>, a: seq<string>, b: seq<string>, k: nat)
    requires Explains(rows, a, b) && Explains(other, a, b) && Follows(rows, a, b) && Follows(other, a, b)
    requires k <= |rows| && k <= |other|
    ensures rows[..k] == other[..k]
  {
    hide *;
    if k > 0 {
      SameStart(rows, other, a, b, k - 1);
      RowSettled(rows, a, b, k - 1);
      RowSettled(other, a, b, k - 1);
      ChoosesOne(rows[k - 1].kind, other[k - 1].kind, a[|OldSide(rows[..k - 1])|..], b[|NewSide(rows[..k - 1])|..]);
      assert rows[k - 1] == other[k - 1];
      assert rows[..k] == rows[..k - 1] + [rows[k - 1]] && other[..k] == other[..k - 1] + [other[k - 1]];
    }
  }

  /** Nothing follows once both texts are used up. */
  lemma NoLonger(rows: seq<Row>, other: seq<Row>, a: seq<string>, b: seq<string>)
    requires Explains(rows, a, b) && Explains(other, a, b) && Follows(rows, a, b) && Follows(other, a, b)
    ensures |other| <= |rows|
  {
    if |rows| < |other| {
      SameStart(rows, other, a, b, |rows|);
      assert rows[..|rows|] == rows;
      RowSettled(other, a, b, |rows|);
      assert false;
    }
  }

  /** Two texts have one diff that follows the rule. */
  lemma OnlyOneDiff(rows: seq<Row>, other: seq<Row>, a: seq<string>, b: seq<string>)
    requires Explains(rows, a, b) && Explains(other, a, b) && Follows(rows, a, b) && Follows(other, a, b)
    ensures rows == other
  {
    NoLonger(rows, other, a, b);
    NoLonger(other, rows, a, b);
    SameStart(rows, other, a, b, |rows|);
    assert rows[..|rows|] == rows && other[..|other|] == other;
  }

  // ---------- The algorithm ----------

  /** Fills row i of the table from the row below it. */
  method FillRow(a: seq<string>, b: seq<string>, lcs: array2<int>, i: nat)
    requires lcs.Length0 == |a| + 1 && lcs.Length1 == |b| + 1 && i < |a|
    requires forall p, q :: i < p <= |a| && 0 <= q <= |b| ==> lcs[p, q] == Lcs(a, b, p, q)
    requires lcs[i, |b|] == 0
    modifies lcs
    ensures forall q :: 0 <= q <= |b| ==> lcs[i, q] == Lcs(a, b, i, q)
    ensures forall p, q :: 0 <= p <= |a| && p != i && 0 <= q <= |b| ==> lcs[p, q] == old(lcs[p, q])
  {
    assert Lcs(a, b, i, |b|) == 0;
    hide Lcs;
    var j := |b| - 1;
    while j >= 0
      invariant -1 <= j < |b|
      invariant forall q :: j < q <= |b| ==> lcs[i, q] == Lcs(a, b, i, q)
      invariant forall p, q :: 0 <= p <= |a| && p != i && 0 <= q <= |b| ==> lcs[p, q] == old(lcs[p, q])
    {
      LcsStep(a, b, i, j);
      if a[i] == b[j] {
        lcs[i, j] := lcs[i + 1, j + 1] + 1;
      } else if lcs[i + 1, j] >= lcs[i, j + 1] {
        lcs[i, j] := lcs[i + 1, j];
      } else {
        lcs[i, j] := lcs[i, j + 1];
      }
      j := j - 1;
    }
  }

  method FillTable(a: seq<string>, b: seq<string>) returns (lcs: array2<int>)
    ensures fresh(lcs) && lcs.Length0 == |a| + 1 && lcs.Length1 == |b| + 1
    ensures forall p, q :: 0 <= p <= |a| && 0 <= q <= |b| ==> lcs[p, q] == Lcs(a, b, p, q)
  {
    lcs := new int[|a| + 1, |b| + 1]((_, _) => 0);
    var i := |a| - 1;
    while i >= 0
      invariant -1 <= i < |a|
      invariant forall p, q :: i < p <= |a| && 0 <= q <= |b| ==> lcs[p, q] == Lcs(a, b, p, q)
      invariant forall p :: 0 <= p <= i ==> lcs[p, |b|] == 0
    {
      FillRow(a, b, lcs, i);
      i := i - 1;
    }
  }

  /** A row can be emitted without losing optimality whenever the walk's guards choose it. */
  lemma LcsStep(a: seq<string>, b: seq<string>, i: nat, j: nat)
    requires i <= |a| && j <= |b|
    ensures i < |a| && j < |b| && a[i] == b[j] ==> Lcs(a, b, i, j) == Lcs(a, b, i + 1, j + 1) + 1
    ensures i == |a| && j < |b| ==> Lcs(a, b, i, j) == Lcs(a, b, i, j + 1)
    ensures i < |a| && j == |b| ==> Lcs(a, b, i, j) == Lcs(a, b, i + 1, j)
    ensures i < |a| && j < |b| && a[i] != b[j] ==>
      Lcs(a, b, i, j) == if Lcs(a, b, i, j + 1) > Lcs(a, b, i + 1, j) then Lcs(a, b, i, j + 1) else Lcs(a, b, i + 1, j)
  {
  }

  method EmitRows(a: seq<string>, b: seq<string>, lcs: array2<int>) returns (rows: seq<Row>)
    requires lcs.Length0 == |a| + 1 && lcs.Length1 == |b| + 1
    requires forall p, q :: 0 <= p <= |a| && 0 <= q <= |b| ==> lcs[p, q] == Lcs(a, b, p, q)
    ensures Explains(rows, a, b) && Follows(rows, a, b)
    ensures |Kept(rows)| == Lcs(a, b, 0, 0)
  {
    rows := [];
    var i, j := 0, 0;
    while i < |a| || j < |b|
      invariant 0 <= i <= |a| && 0 <= j <= |b|
      invariant Explains(rows, a[..i], b[..j]) && Follows(rows, a, b)
      invariant |Kept(rows)| + Lcs(a, b, i, j) == Lcs(a, b, 0, 0)
      decreases |a| - i + |b| - j
    {
      LcsStep(a, b, i, j);
      hide Lcs, OldSide, NewSide, Kept, Follows, Explains;
      if i < |a| && j < |b| && a[i] == b[j] {
        AppendRow(rows, Row(a[i], b[j], Same), a, b, i, j);
        FollowRow(rows, Row(a[i], b[j], Same), a, b, i, j);
        rows := rows + [Row(a[i], b[j], Same)];
        i, j := i + 1, j + 1;
      } else if j < |b| && (i == |a| || lcs[i, j + 1] > lcs[i + 1, j]) {
        AppendRow(rows, Row("", b[j], Added), a, b, i, j);
        FollowRow(rows, Row("", b[j], Added), a, b, i, j);
        rows := rows + [Row("", b[j], Added)];
        j := j + 1;
      } else {
        AppendRow(rows, Row(a[i], "", Removed), a, b, i, j);
        FollowRow(rows, Row(a[i], "", Removed), a, b, i, j);
        rows := rows + [Row(a[i], "", Removed)];
        i := i + 1;
      }
    }
    assert a[..i] == a && b[..j] == b;
  }

  /** The diff loses nothing and is optimal: its rows rebuild both texts in order, and the
      lines it keeps are a longest common subsequence. */
  method ConfigurationLineDiff(oldContent: string, newContent: string) returns (rows: seq<Row>)
    ensures Explains(rows, Lines(oldContent), Lines(newContent)) && Follows(rows, Lines(oldContent), Lines(newContent))
    ensures |rows| + |Kept(rows)| == |Lines(oldContent)| + |Lines(newContent)|
    ensures CommonSubsequence(Kept(rows), Lines(oldContent), Lines(newContent))
    ensures forall c :: CommonSubsequence(c, Lines(oldContent), Lines(newContent)) ==> |c| <= |Kept(rows)|
  {
    var a, b := Lines(oldContent), Lines(newContent);
    var lcs := FillTable(a, b);
    rows := EmitRows(a, b, lcs);
    RowsKeepCommon(rows);
    forall c | CommonSubsequence(c, a, b) ensures |c| <= |Kept(rows)| {
      assert a[0..] == a && b[0..] == b;
      LcsBoundsCommon(a, b, 0, 0, c);
    }
  }

  /** A diff with a longest kept part is the shortest explanation there is, and none keeps more lines. */
  lemma NoShorterExplanation(rows: seq<Row>, other: seq<Row>, a: seq<string>, b: seq<string>)
    requires Explains(rows, a, b) && Explains(other, a, b)
    requires forall c :: CommonSubsequence(c, a, b) ==> |c| <= |Kept(rows)|
    ensures |rows| <= |other| && |Kept(other)| <= |Kept(rows)|
  {
    RowsKeepCommon(rows);
    RowsKeepCommon(other);
  }

  /** Without removed or added rows, the two texts are the same up to one trailing newline. */
  lemma {:induction false} OnlySameRows(rows: seq<Row>)
    requires WellFormedRows(rows)
    ensures (forall i :: 0 <= i < |rows| ==> rows[i].kind == Same) ==> OldSide(rows) == NewSide(rows)
  {
    if rows != [] {
      OnlySameRows(rows[..|rows| - 1]);
      assert rows[|rows| - 1].WellFormed();
    }
  }

  lemma CleanDiffMeansSameText(rows: seq<Row>, oldContent: string, newContent: string)
    requires Explains(rows, Lines(oldContent), Lines(newContent))
    requires forall i :: 0 <= i < |rows| ==> rows[i].kind == Same
    ensures TrimFinalNewline(oldContent) == TrimFinalNewline(newContent)
  {
    OnlySameRows(rows);
    LinesKeepContent(oldContent);
    LinesKeepContent(newContent);
  }
}
