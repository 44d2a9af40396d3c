/** Splitting and trimming text. */
module Texts {
  function Split(text: string, separator: char): (pieces: seq<string>)
    ensures |pieces| > 0
  {
    if text == "" then [""]
    else
      var rest := Split(text[1..], separator);
      if text[0] == separator then [""] + rest
      else [[text[0]] + rest[0]] + rest[1..]
  }

  lemma {:induction false} SplitWhole(text: string, separator: char)
    requires separator !in text
    ensures Split(text, separator) == [text]
  {
    if text != "" {
      SplitWhole(text[1..], separator);
      assert text == [text[0]] + text[1..];
    }
  }

  /** Every carriage return in front of a line feed is dropped. */
  function LineFeeds(text: string): string {
    if text == "" then ""
    else if |text| > 1 && text[0] == '\r' && text[1] == '\n' then LineFeeds(text[1..])
    else [text[0]] + LineFeeds(text[1..])
  }

  /** White space, as the runtime's text functions understand it. */
  predicate Blank(c: char) {
    var code := c as int;
    9 <= code <= 13 || 0x2000 <= code <= 0x200A || code in [0x20, 0x85, 0xA0, 0x1680, 0x2028, 0x2029, 0x202F, 0x205F, 0x3000]
  }

  function TrimLeft(text: string): string {
    if text != "" && Blank(text[0]) then TrimLeft(text[1..]) else text
  }

  function TrimRight(text: string): string {
    if text != "" && Blank(text[|text| - 1]) then TrimRight(text[..|text| - 1]) else text
  }

  function Trim(text: string): string {
    TrimRight(TrimLeft(text))
  }

  lemma {:induction false} PiecesHaveNoSeparator(text: string, separator: char)
    ensures forall piece | piece in Split(text, separator) :: separator !in piece
  {
    if text != "" {
      PiecesHaveNoSeparator(text[1..], separator);
      var rest := Split(text[1..], separator);
      assert rest[0] in rest;
    }
  }

  lemma {:induction false} TrimLeftEnds(text: string)
    ensures TrimLeft(text) != "" ==> !Blank(TrimLeft(text)[0])
    ensures forall c | c in TrimLeft(text) :: c in text
  {
    if text != "" && Blank(text[0]) { TrimLeftEnds(text[1..]); }
  }

  lemma {:induction false} TrimRightEnds(text: string)
    ensures TrimRight(text) <= text
    ensures TrimRight(text) != "" ==> !Blank(TrimRight(text)[|TrimRight(text)| - 1])
  {
    if text != "" && Blank(text[|text| - 1]) { TrimRightEnds(text[..|text| - 1]); }
  }

  lemma TrimEnds(text: string)
    ensures Trim(text) != "" ==> !Blank(Trim(text)[0]) && !Blank(Trim(text)[|Trim(text)| - 1])
    ensures forall c | c in Trim(text) :: c in text
  {
    TrimLeftEnds(text);
    TrimRightEnds(TrimLeft(text));
  }

  lemma TrimKeeps(text: string)
    requires text != "" && !Blank(text[0]) && !Blank(text[|text| - 1])
    ensures Trim(text) == text
  {
  }

  lemma TrimTwice(text: string)
    ensures Trim(Trim(text)) == Trim(text)
  {
    TrimEnds(text);
    if Trim(text) != "" { TrimKeeps(Trim(text)); }
  }

  predicate AllBlank(text: string) {
    forall i | 0 <= i < |text| :: Blank(text[i])
  }

  lemma {:induction false} TrimLeftParts(text: string) returns (front: string)
    ensures text == front + TrimLeft(text) && AllBlank(front)
  {
    front := "";
    if text != "" && Blank(text[0]) {
      var rest := TrimLeftParts(text[1..]);
      front := [text[0]] + rest;
    }
  }

  lemma {:induction false} TrimRightParts(text: string) returns (back: string)
    ensures text == TrimRight(text) + back && AllBlank(back)
  {
    back := "";
    if text != "" && Blank(text[|text| - 1]) {
      var rest := TrimRightParts(text[..|text| - 1]);
      back := rest + [text[|text| - 1]];
    }
  }

  /** Trimming takes blanks from both ends and nothing else, and leaves none there. */
  lemma TrimExactly(text: string) returns (front: string, back: string)
    ensures text == front + Trim(text) + back && AllBlank(front) && AllBlank(back)
    ensures Trim(text) != "" ==> !Blank(Trim(text)[0]) && !Blank(Trim(text)[|Trim(text)| - 1])
  {
    front := TrimLeftParts(text);
    back := TrimRightParts(TrimLeft(text));
    TrimEnds(text);
  }

  /** Without a carriage return nothing is dropped; one in front of a line feed is. */
  lemma {:induction false} LineFeedsExactly(a: string, b: string)
    requires '\r' !in a
    ensures LineFeeds(a) == a && LineFeeds(a + "\r\n" + b) == a + "\n" + LineFeeds(b)
  {
    var text := a + "\r\n" + b;
    if a == "" {
      assert text[1..] == "\n" + b && text[1..][1..] == b;
      assert LineFeeds(text[1..]) == "\n" + LineFeeds(b);
    } else {
      LineFeedsExactly(a[1..], b);
      assert text[1..] == a[1..] + "\r\n" + b && text[0] == a[0];
      assert a == [a[0]] + a[1..];
      assert LineFeeds(text) == [a[0]] + LineFeeds(text[1..]);
    }
  }
}
