/** User names are compared without regard to letter case. */
module Names {
  function FoldChar(c: char): char {
    if 'A' <= c <= 'Z' then ((c as int) - ('A' as int) + ('a' as int)) as char else c
  }

  function Fold(name: string): string {
    seq(|name|, i requires 0 <= i < |name| => FoldChar(name[i]))
  }

  predicate SameName(a: string, b: string) {
    Fold(a) == Fold(b)
  }

  /** The same letter, in upper or lower case. */
  predicate SameLetter(a: char, b: char) {
    a == b || ('A' <= a <= 'Z' && b as int == a as int + 32) || ('A' <= b <= 'Z' && a as int == b as int + 32)
  }

  /** Names are the same exactly when they agree letter by letter. */
  lemma SameNameExactly(a: string, b: string)
    ensures SameName(a, b) <==> |a| == |b| && forall i | 0 <= i < |a| :: SameLetter(a[i], b[i])
  {
    if SameName(a, b) {
      assert |Fold(a)| == |a| && |Fold(b)| == |b|;
      forall i | 0 <= i < |a| ensures SameLetter(a[i], b[i]) { assert Fold(a)[i] == Fold(b)[i]; }
    }
  }
}
