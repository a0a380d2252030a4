/** The syntax of patterns, as a relation between a pattern and its elements that says nothing of how it is split. */
module PatternSyntax {
  import opened PatternLanguage
  import opened PatternMatchers
  import opened PatternRendering

  /** Two numbers, either of which may be missing, with two dots between them. */
  ghost predicate Bounds(s: string, from: int, to: int) {
    exists a, b :: Digits(a) && Digits(b) && s == a + ".." + b && from == BoundOf(a) && to == BoundOf(b)
  }

  /** The text goes on with the bounds of a numeric range and what closes it. */
  ghost predicate RangeFollows(s: string, i: nat, closing: char) {
    exists j, from, to :: i <= j < |s| && Bounds(s[i..j], from, to) && s[j] == closing
  }

  /** Every character of the text is written as it is, if it does not mean anything, or behind a backslash. */
  predicate LiteralText(s: string, text: string)
    decreases |s|
  {
    if s == "" then text == ""
    else if s[0] == '\\' then |s| > 1 && text != "" && text[0] == s[1] && LiteralText(s[2..], text[1..])
    else s[0] !in {'?', '{', '*'} && text != "" && text[0] == s[0] && LiteralText(s[1..], text[1..])
  }

  /** A literal goes on up to the end, a character that means something, or a bracket that begins a numeric range; the
      bracket is its last character then, be it behind a backslash or not. */
  ghost predicate LiteralPiece(s: string, i: nat, j: nat, text: string) {
    i < j <= |s| && LiteralText(s[i..j], text) &&
    (forall m :: i <= m < j - 1 && s[m] == '[' ==> !RangeFollows(s, m + 1, ']')) &&
    (j == |s| || s[j] in {'?', '{', '*'} || (s[j - 1] == '[' && RangeFollows(s, j, ']')))
  }

  /** The ranges of a set: two characters with "-" between them, or one alone, which is a range of its own. A "-" that
      comes second makes a range if a third character follows. */
  predicate SetText(s: string, chars: string)
    decreases |s|
  {
    if s == "" then chars == ""
    else if |s| > 2 && s[1] == '-' then |chars| > 1 && chars[0] == s[0] && chars[1] == s[2] &&
      SetText(s[3..], chars[2..])
    else |chars| > 1 && chars[0] == chars[1] == s[0] && SetText(s[1..], chars[2..])
  }

  /** A closing brace is part of a set only if it comes first. */
  ghost predicate SetBody(s: string, chars: string) {
    s != "" && (forall m :: 0 < m < |s| ==> s[m] != '}') && SetText(s, chars)
  }

  /** The text from i to j writes the element. A numeric range in brackets has the first of them in the literal before
      it, and the second one in the next. */
  ghost predicate Piece(s: string, i: nat, j: nat, e: Elem, afterLiteral: bool, dotted: bool) {
    i < j <= |s| &&
    match e
    case AnyChar => !dotted && s[i..j] == "?"
    case CommonChar => dotted && s[i..j] == "?"
    case AnySeq => s[i..j] == "**" || (!dotted && s[i..j] == "*" && !CharIs(s, j, '*'))
    case CommonSeq => dotted && s[i..j] == "*" && !CharIs(s, j, '*')
    case Literal(text) => !afterLiteral && LiteralPiece(s, i, j, text)
    case NumRange(from, to) =>
      (j - i > 1 && s[i] == '{' && s[j - 1] == '}' && Bounds(s[i + 1..j - 1], from, to)) ||
      (afterLiteral && i > 0 && s[i - 1] == '[' && Bounds(s[i..j], from, to) && CharIs(s, j, ']'))
    case Set(chars) =>
      j - i > 2 && s[i] == '{' && s[j - 1] == '}' && s[i + 1] != '^' && SetBody(s[i + 1..j - 1], chars) &&
      !RangeFollows(s, i + 1, '}')
    case NegSet(chars) =>
      j - i > 3 && s[i] == '{' && s[j - 1] == '}' && s[i + 1] == '^' && SetBody(s[i + 2..j - 1], chars)
    case End => false
  }

  /** From i on, the pattern is cut into pieces that write the elements. */
  ghost predicate Writes(s: string, i: nat, p: seq<Elem>, afterLiteral: bool, dotted: bool)
    decreases |p|
  {
    if p == [] then i == |s|
    else
      exists j :: Piece(s, i, j, p[0], afterLiteral, dotted) && Writes(s, j, p[1..], p[0].Literal?, dotted)
  }

  ghost predicate WritesLiteral(s: string) { exists text :: LiteralText(s, text) }

  ghost predicate BrokenLiteral(s: string, i: nat) {
    i < |s| && s[|s| - 1] == '\\' && WritesLiteral(s[i..|s| - 1]) &&
    forall m :: i <= m < |s| && s[m] == '[' ==> !RangeFollows(s, m + 1, ']')
  }

  /** What begins at i is not written to its end: a set without the brace that closes it, or a literal that ends with a
      backslash for the next character. */
  ghost predicate Broken(s: string, i: nat, afterLiteral: bool, e: Error) {
    i < |s| &&
    match e
    case UnmatchedBrace =>
      s[i] == '{' && var k := if CharIs(s, i + 1, '^') then i + 3 else i + 2; forall m :: k <= m < |s| ==> s[m] != '}'
    case LoneBackslash =>
      !afterLiteral && BrokenLiteral(s, i)
  }

  /** After pieces that write the elements comes something broken. */
  ghost predicate Breaks(s: string, i: nat, p: seq<Elem>, afterLiteral: bool, dotted: bool, e: Error)
    decreases |p|
  {
    if p == [] then Broken(s, i, afterLiteral, e)
    else
      exists j :: Piece(s, i, j, p[0], afterLiteral, dotted) && Breaks(s, j, p[1..], p[0].Literal?, dotted, e)
  }

  // ----- Numeric ranges -----------------------------------------------------------------------------------

  lemma BoundsPlaces(a: string, b: string)
    ensures var x, m := a + ".." + b, |a|;
      |x| == m + 2 + |b| && x[0..m] == a && x[m] == '.' && x[m + 1] == '.' && x[m + 2..m + 2 + |b|] == b
  {
    assert a + ".." + b == "" + a + (".." + b) == (a + "..") + b + "";
    PartOf("", a, ".." + b);
    PartOf(a + "..", b, "");
    assert (".." + b)[0] == '.' == (".." + b)[1];
  }

  lemma PlacesOf(s: string, i: nat, j: nat, x: string)
    requires i <= j <= |s| && s[i..j] == x
    ensures i + |x| == j && forall k :: 0 <= k < |x| ==> s[i + k] == x[k]
  {
    forall k | 0 <= k < |x| ensures s[i + k] == x[k] {
      assert s[i..j][k] == s[i + k];
    }
  }

  lemma RangeOfTexts(s: string, i: nat, j: nat, a: string, b: string, closing: char)
    requires i < |s| && i + 1 <= j < |s| && Digits(a) && Digits(b) && s[i + 1..j] == a + ".." + b && s[j] == closing
    requires closing in {']', '}'}
    ensures NumRangeAt(s, i, closing) == Range(j, BoundOf(a), BoundOf(b))
  {
    hide *;
    var x, m := a + ".." + b, |a|;
    PlacesOf(s, i + 1, j, x);
    BoundsPlaces(a, b);
    Placed(s, i + 1, x, 0, a, i + 1);
    Placed(s, i + 1, x, m + 2, b, i + 1 + m + 2);
    assert s[i + 1 + m] == x[m] && s[i + 1 + (m + 1)] == x[m + 1];
    NotDigits();
    DigitsInside(s, i + 1, a);
    DigitsInside(s, i + 1 + m + 2, b);
    RangeBetween(s, i, i + 1 + m, j, closing);
  }

  lemma RangeIsFound(s: string, i: nat, j: nat, from: int, to: int, closing: char)
    requires i < |s| && i + 1 <= j < |s| && Bounds(s[i + 1..j], from, to) && s[j] == closing && closing in {']', '}'}
    ensures NumRangeAt(s, i, closing) == Range(j, from, to)
  {
    hide NumRangeAt, BoundOf, Digits;
    var a, b :| Digits(a) && Digits(b) && s[i + 1..j] == a + ".." + b && from == BoundOf(a) && to == BoundOf(b);
    RangeOfTexts(s, i, j, a, b, closing);
  }

  lemma BoundIs(s: string, i: nat)
    requires i <= |s|
    ensures var a := s[i..DigitsEnd(s, i)]; Digits(a) && Bound(s, i) == BoundOf(a)
  {
    NumberOfPart(s, i, DigitsEnd(s, i), 0);
  }

  lemma FoundIsRange(s: string, i: nat, closing: char)
    requires i < |s| && NumRangeAt(s, i, closing).Range?
    ensures var r := NumRangeAt(s, i, closing);
      i + 1 <= r.end < |s| && Bounds(s[i + 1..r.end], r.from, r.to) && s[r.end] == closing
  {
    var r, m := NumRangeAt(s, i, closing), DigitsEnd(s, i + 1);
    var a, b := s[i + 1..m], s[m + 2..r.end];
    BoundIs(s, i + 1);
    BoundIs(s, m + 2);
    hide Bound, BoundOf, Digits, DigitsEnd;
    assert s[i + 1..r.end] == a + ".." + b;
  }

  /** A bracket is taken for the beginning of a numeric range exactly if the text goes on with one. */
  lemma RangeExactly(s: string, i: nat, closing: char)
    requires i < |s| && closing in {']', '}'}
    ensures NumRangeAt(s, i, closing).Range? <==> RangeFollows(s, i + 1, closing)
  {
    if NumRangeAt(s, i, closing).Range? {
      FoundIsRange(s, i, closing);
    }
    if RangeFollows(s, i + 1, closing) {
      var j, from, to :| i + 1 <= j < |s| && Bounds(s[i + 1..j], from, to) && s[j] == closing;
      RangeIsFound(s, i, j, from, to, closing);
    }
  }

  /** The bounds of a range begin and end with a digit or a dot. */
  lemma BoundsEnds(s: string, from: int, to: int)
    requires Bounds(s, from, to)
    ensures |s| > 1 && (IsDigit(s[0]) || s[0] == '.') && (IsDigit(s[|s| - 1]) || s[|s| - 1] == '.')
  {
    var a, b :| Digits(a) && Digits(b) && s == a + ".." + b && from == BoundOf(a) && to == BoundOf(b);
    hide BoundOf;
    assert if a == "" then s[0] == '.' else s[0] == a[0];
    assert if b == "" then s[|s| - 1] == '.' else s[|s| - 1] == b[|b| - 1];
  }

  lemma RangeBegins(s: string, i: nat, closing: char)
    requires RangeFollows(s, i, closing)
    ensures i < |s| && (IsDigit(s[i]) || s[i] == '.')
  {
    var j, from, to :| i <= j < |s| && Bounds(s[i..j], from, to) && s[j] == closing;
    BoundsEnds(s[i..j], from, to);
  }

  // ----- Literals -------------------------------------------------------------------------------------------

  /** The piece ends with a bracket that begins a numeric range. */
  ghost predicate AtRange(s: string, i: nat) { 0 < i <= |s| && s[i - 1] == '[' && RangeFollows(s, i, ']') }

  /** A bracket that begins a numeric range is looked at once more. */
  ghost function ReadUpTo(s: string, i: nat): nat { if AtRange(s, i) then i - 1 else i }

  function CharAt(s: string, i: nat): nat
    requires i < |s|
  {
    if s[i] == '\\' then i + 1 else i
  }

  lemma LiteralTextStep(s: string, i: nat, j: nat, text: string)
    requires i < j <= |s| && s[i] !in {'?', '{', '*'}
    ensures var k := CharAt(s, i);
      LiteralText(s[i..j], text) <==> k < j && text != "" && text[0] == s[k] && LiteralText(s[k + 1..j], text[1..])
  {
    var x := s[i..j];
    assert x[0] == s[i] && x[1..] == s[i + 1..j];
    if |x| > 1 {
      assert x[1] == s[i + 1] && x[2..] == s[i + 2..j];
    }
  }

  lemma LiteralPieceStep(s: string, i: nat, j: nat, text: string)
    requires i < |s| && s[i] !in {'?', '{', '*'}
    ensures var k := CharAt(s, i);
      k + 1 < j ==>
        (LiteralPiece(s, i, j, text) <==>
          text != "" && k < |s| && text[0] == s[k] && LiteralPiece(s, k + 1, j, text[1..]) && !AtRange(s, k + 1))
  {
    hide RangeFollows, LiteralText;
    if i < j <= |s| {
      LiteralTextStep(s, i, j, text);
    }
  }

  lemma LiteralPieceLast(s: string, i: nat, text: string)
    requires i < |s| && s[i] !in {'?', '{', '*'}
    ensures var k := CharAt(s, i);
      LiteralPiece(s, i, k + 1, text) <==>
        k < |s| && text == [s[k]] && (k + 1 == |s| || s[k + 1] in {'?', '{', '*'} || AtRange(s, k + 1))
  {
    hide RangeFollows;
    var k := CharAt(s, i);
    if k < |s| {
      LiteralTextStep(s, i, k + 1, text);
      assert s[k + 1..k + 1] == "";
      if text != "" {
        assert text == [text[0]] + text[1..];
      }
    }
  }

  /** What is read as a literal is one. */
  lemma {:induction false} ReadIsLiteral(s: string, i: nat) returns (j: nat)
    requires i < |s| && s[i] !in {'?', '{', '*'} && LiteralFrom(s, i).Ok?
    ensures LiteralPiece(s, i, j, LiteralFrom(s, i).value.value) && LiteralFrom(s, i).value.end == ReadUpTo(s, j)
    decreases |s| - i
  {
    hide RangeFollows, NumRangeAt, LiteralPiece;
    var k := CharAt(s, i);
    var text := LiteralFrom(s, i).value.value;
    RangeExactly(s, k, ']');
    if AtRange(s, k + 1) || k + 1 == |s| || s[k + 1] in {'?', '{', '*'} {
      j := k + 1;
      LiteralPieceLast(s, i, text);
    } else {
      j := ReadIsLiteral(s, k + 1);
      LiteralPieceBeyond(s, k + 1, j, text[1..]);
      LiteralPieceStep(s, i, j, text);
    }
  }

  lemma LiteralPieceBeyond(s: string, i: nat, j: nat, text: string)
    requires LiteralPiece(s, i, j, text)
    ensures i < j <= |s| && s[i] !in {'?', '{', '*'} && CharAt(s, i) < j
  {
    assert s[i..j][0] == s[i];
    hide RangeFollows;
  }

  /** What is written as a literal is read as one. */
  lemma {:induction false} LiteralIsRead(s: string, i: nat, j: nat, text: string)
    requires LiteralPiece(s, i, j, text)
    ensures i < |s| && LiteralFrom(s, i) == Ok(Token(ReadUpTo(s, j), text))
    decreases |s| - i
  {
    hide RangeFollows, NumRangeAt, LiteralPiece;
    LiteralPieceBeyond(s, i, j, text);
    var k := CharAt(s, i);
    RangeExactly(s, k, ']');
    if k + 1 == j {
      LiteralPieceLast(s, i, text);
      assert [s[k]] + "" == [s[k]];
    } else {
      LiteralPieceStep(s, i, j, text);
      LiteralIsRead(s, k + 1, j, text[1..]);
      assert [s[k]] + text[1..] == text;
    }
  }

  // ----- Sets -------------------------------------------------------------------------------------------------

  /** The first closing brace from i on, but for one that comes first. */
  predicate FirstBrace(s: string, i: nat, first: bool, e: nat) {
    i <= e < |s| && s[e] == '}' && (first ==> i < e) && forall m :: (if first then i + 1 else i) <= m < e ==>
      s[m] != '}'
  }

  predicate Wide(s: string, i: nat) { CharIs(s, i + 1, '-') && i + 2 < |s| && s[i + 2] != '}' }

  lemma SetTextStep(s: string, i: nat, first: bool, e: nat, chars: string)
    requires FirstBrace(s, i, first, e) && i < e
    ensures var j := if Wide(s, i) then i + 3 else i + 1;
      FirstBrace(s, j, false, e) &&
      (SetText(s[i..e], chars) <==>
        |chars| > 1 && chars[0] == s[i] && chars[1] == (if Wide(s, i) then s[i + 2] else s[i]) &&
        SetText(s[j..e], chars[2..]))
  {
    var x := s[i..e];
    assert x[0] == s[i] && x[1..] == s[i + 1..e];
    if |x| > 1 {
      assert x[1] == s[i + 1];
    }
    if |x| > 2 {
      assert x[2] == s[i + 2] && x[3..] == s[i + 3..e];
    }
  }

  /** The ranges of a set are read up to the first closing brace. */
  lemma {:induction false} SetIsRead(s: string, i: nat, first: bool, e: nat, chars: string)
    requires FirstBrace(s, i, first, e) && SetText(s[i..e], chars)
    ensures SetFrom(s, i, first) == Ok(Token(e, chars))
    decreases e - i
  {
    if i == e {
      assert s[i..e] == "";
    } else {
      hide SetText;
      SetTextStep(s, i, first, e, chars);
      SetIsRead(s, if Wide(s, i) then i + 3 else i + 1, false, e, chars[2..]);
      assert [chars[0], chars[1]] + chars[2..] == chars;
    }
  }

  lemma {:induction false} ReadIsSet(s: string, i: nat, first: bool)
    requires i <= |s| && SetFrom(s, i, first).Ok?
    ensures var t := SetFrom(s, i, first).value; FirstBrace(s, i, first, t.end) && SetText(s[i..t.end], t.value)
    decreases |s| - i
  {
    var t := SetFrom(s, i, first).value;
    if s[i] == '}' && !first {
      assert s[i..t.end] == "";
    } else {
      hide SetText;
      ReadIsSet(s, if Wide(s, i) then i + 3 else i + 1, false);
      assert t.value[2..] == SetFrom(s, if Wide(s, i) then i + 3 else i + 1, false).value.value;
      SetTextStep(s, i, first, t.end, t.value);
    }
  }

  lemma SetBodyIs(s: string, i: nat, e: nat, chars: string)
    requires i <= e < |s| && s[e] == '}'
    ensures i < e && SetBody(s[i..e], chars) <==> FirstBrace(s, i, true, e) && SetText(s[i..e], chars)
  {
    var x := s[i..e];
    assert forall m :: 0 <= m < |x| ==> x[m] == s[i + m];
    if i < e && SetBody(x, chars) {
      forall m | i + 1 <= m < e ensures s[m] != '}' {
        assert x[m - i] == s[m];
      }
    }
  }

  // ----- Elements -----------------------------------------------------------------------------------------------

  /** The elements p are written up to i. */
  ghost predicate ReadTo(s: string, i: nat, p: seq<Elem>) {
    i <= |s| && (AtRange(s, i) ==> EndsInLiteralElem(p)) &&
    (EndsInLiteralElem(p) ==> AtRange(s, i) || i == |s| || s[i] in {'?', '{', '*'})
  }

  lemma NotAtRange(s: string, i: nat)
    requires i < |s| && s[i] in {'?', '{', '*'}
    ensures !AtRange(s, i)
  {
    if AtRange(s, i) {
      RangeBegins(s, i, ']');
    }
  }

  lemma LiteralToken(s: string, i: nat, j: nat, text: string, dotted: bool, p: seq<Elem>)
    requires ReadTo(s, i, p) && !EndsInLiteralElem(p) && LiteralPiece(s, i, j, text)
    ensures i < |s| && ElemAt(s, i, dotted, p) == Ok(Token(ReadUpTo(s, j), Literal(text)))
    ensures ReadTo(s, j, p + [Literal(text)])
  {
    hide RangeFollows, NumRangeAt, LiteralFrom;
    LiteralIsRead(s, i, j, text);
    LiteralPieceBeyond(s, i, j, text);
  }

  lemma TokenLiteral(s: string, i: nat, dotted: bool, p: seq<Elem>) returns (j: nat)
    requires ReadTo(s, i, p) && i < |s| && s[i] !in {'?', '{', '*'} && !EndsInLiteralElem(p)
    requires ElemAt(s, i, dotted, p).Ok?
    ensures var t := ElemAt(s, i, dotted, p).value;
      t.value.Literal? && LiteralPiece(s, i, j, t.value.text) && t.end == ReadUpTo(s, j) && ReadTo(s, j, p + [t.value])
  {
    hide RangeFollows, NumRangeAt, LiteralFrom;
    j := ReadIsLiteral(s, i);
  }

  lemma BracketRangeToken(s: string, i: nat, j: nat, from: int, to: int, dotted: bool, p: seq<Elem>)
    requires ReadTo(s, i, p) && EndsInLiteralElem(p) && 0 < i < j < |s| && s[i - 1] == '['
    requires Bounds(s[i..j], from, to) && s[j] == ']'
    ensures AtRange(s, i) && ElemAt(s, i - 1, dotted, p) == Ok(Token(j, NumRange(from, to)))
    ensures !AtRange(s, j)
  {
    hide NumRangeAt, Bounds;
    RangeIsFound(s, i - 1, j, from, to, ']');
    BoundsEnds(s[i..j], from, to);
    assert s[i..j][|s[i..j]| - 1] == s[j - 1];
  }

  lemma TokenBracketRange(s: string, i: nat, dotted: bool, p: seq<Elem>) returns (j: nat)
    requires ReadTo(s, i, p) && AtRange(s, i)
    ensures ElemAt(s, i - 1, dotted, p).Ok?
    ensures var t := ElemAt(s, i - 1, dotted, p).value;
      t.value.NumRange? && i < j < |s| && Bounds(s[i..j], t.value.from, t.value.to) && s[j] == ']' && t.end == j
    ensures !AtRange(s, j)
  {
    hide NumRangeAt, Bounds;
    RangeExactly(s, i - 1, ']');
    FoundIsRange(s, i - 1, ']');
    var r := NumRangeAt(s, i - 1, ']');
    j := r.end;
    BoundsEnds(s[i..j], r.from, r.to);
    assert s[i..j][|s[i..j]| - 1] == s[j - 1];
  }

  /** What braces write: a numeric range, a set or the complement of one. */
  predicate BracePiece(e: Elem) { e.NumRange? || e.Set? || e.NegSet? }

  lemma BraceToken(s: string, i: nat, j: nat, e: Elem, dotted: bool, p: seq<Elem>)
    requires i < |s| && s[i] == '{' && BracePiece(e) && Piece(s, i, j, e, EndsInLiteralElem(p), dotted)
    ensures ElemAt(s, i, dotted, p) == Ok(Token(j, e)) && s[j - 1] == '}'
  {
    hide NumRangeAt, Bounds, SetFrom, SetBody, SetText, RangeFollows;
    RangeExactly(s, i, '}');
    match e
    case NumRange(from, to) =>
      if !(j - i > 1 && s[j - 1] == '}' && Bounds(s[i + 1..j - 1], from, to)) {
        assert s[i..j] != "" ==> s[i..j][0] == '{';
        BoundsEnds(s[i..j], from, to);
      }
      RangeIsFound(s, i, j - 1, from, to, '}');
    case Set(chars) =>
      SetBodyIs(s, i + 1, j - 1, chars);
      SetIsRead(s, i + 1, true, j - 1, chars);
    case NegSet(chars) =>
      SetBodyIs(s, i + 2, j - 1, chars);
      SetIsRead(s, i + 2, true, j - 1, chars);
      if RangeFollows(s, i + 1, '}') {
        RangeBegins(s, i + 1, '}');
      }
  }

  lemma TokenBrace(s: string, i: nat, dotted: bool, p: seq<Elem>)
    requires i < |s| && s[i] == '{' && ElemAt(s, i, dotted, p).Ok?
    ensures var t := ElemAt(s, i, dotted, p).value;
      BracePiece(t.value) && Piece(s, i, t.end, t.value, EndsInLiteralElem(p), dotted) && s[t.end - 1] == '}'
  {
    hide NumRangeAt, Bounds, SetFrom, SetBody, SetText, RangeFollows;
    RangeExactly(s, i, '}');
    var t := ElemAt(s, i, dotted, p).value;
    match t.value
    case NumRange(from, to) => FoundIsRange(s, i, '}');
    case Set(chars) =>
      ReadIsSet(s, i + 1, true);
      SetBodyIs(s, i + 1, t.end - 1, chars);
    case NegSet(chars) =>
      ReadIsSet(s, i + 2, true);
      SetBodyIs(s, i + 2, t.end - 1, chars);
  }

  /** What stars and question marks write. */
  predicate WildPiece(e: Elem) { e.AnyChar? || e.CommonChar? || e.AnySeq? || e.CommonSeq? }

  lemma WildToken(s: string, i: nat, j: nat, e: Elem, after: bool, dotted: bool, p: seq<Elem>)
    requires WildPiece(e) && i < j <= |s|
    ensures s[i] in {'?', '*'} && ElemAt(s, i, dotted, p) == Ok(Token(j, e)) <==> Piece(s, i, j, e, after, dotted)
    ensures Piece(s, i, j, e, after, dotted) ==> s[j - 1] in {'?', '*'}
  {
    hide NumRangeAt, SetFrom, LiteralFrom;
    var x := s[i..j];
    assert x[0] == s[i];
    if |x| == 1 {
      assert x == [s[i]];
    } else {
      assert x[1] == s[i + 1] && (|x| == 2 ==> x == [s[i], s[i + 1]]);
    }
  }

  /** What is written is read. */
  lemma PieceIsRead(s: string, i: nat, j: nat, e: Elem, dotted: bool, p: seq<Elem>)
    requires ReadTo(s, i, p) && Piece(s, i, j, e, EndsInLiteralElem(p), dotted)
    ensures ReadUpTo(s, i) < |s| && ElemAt(s, ReadUpTo(s, i), dotted, p) == Ok(Token(ReadUpTo(s, j), e))
    ensures ReadTo(s, j, p + [e])
  {
    hide ElemAt, RangeFollows, Bounds, SetBody, LiteralPiece;
    if e.Literal? {
      LiteralToken(s, i, j, e.text, dotted, p);
    } else if WildPiece(e) {
      WildToken(s, i, j, e, EndsInLiteralElem(p), dotted, p);
      NotAtRange(s, i);
    } else if s[i] == '{' {
      BraceToken(s, i, j, e, dotted, p);
      NotAtRange(s, i);
    } else {
      BracketRangeToken(s, i, j, e.from, e.to, dotted, p);
    }
  }

  /** And what is read was written. */
  lemma ReadIsPiece(s: string, i: nat, dotted: bool, p: seq<Elem>) returns (j: nat)
    requires ReadTo(s, i, p) && ReadUpTo(s, i) < |s| && ElemAt(s, ReadUpTo(s, i), dotted, p).Ok?
    ensures var t := ElemAt(s, ReadUpTo(s, i), dotted, p).value;
      Piece(s, i, j, t.value, EndsInLiteralElem(p), dotted) && t.end == ReadUpTo(s, j) && ReadTo(s, j, p + [t.value])
  {
    hide RangeFollows, Bounds, SetBody, LiteralPiece, NumRangeAt, SetAt, LiteralAt;
    if AtRange(s, i) {
      j := TokenBracketRange(s, i, dotted, p);
    } else if s[i] == '{' {
      TokenBrace(s, i, dotted, p);
      j := ElemAt(s, i, dotted, p).value.end;
    } else if s[i] in {'?', '*'} {
      var t := ElemAt(s, i, dotted, p).value;
      j := t.end;
      WildToken(s, i, j, t.value, EndsInLiteralElem(p), dotted, p);
    } else {
      j := TokenLiteral(s, i, dotted, p);
    }
  }

  // ----- Patterns -----------------------------------------------------------------------------------------------

  lemma {:induction false} ElemsKeep(s: string, i: nat, dotted: bool, p: seq<Elem>)
    requires i <= |s| && ElemsFrom(s, i, dotted, p).Ok?
    ensures p <= ElemsFrom(s, i, dotted, p).value
    decreases |s| - i, if EndsInLiteralElem(p) then 0 else 1
  {
    if i < |s| {
      var t := ElemAt(s, i, dotted, p).value;
      hide ElemAt;
      ElemsKeep(s, t.end, dotted, p + [t.value]);
    }
  }

  lemma {:induction false} WrittenIsSplit(s: string, i: nat, dotted: bool, p: seq<Elem>, q: seq<Elem>)
    requires ReadTo(s, i, p) && Writes(s, i, q, EndsInLiteralElem(p), dotted)
    ensures ElemsFrom(s, ReadUpTo(s, i), dotted, p) == Ok(p + q)
    decreases |q|
  {
    hide ElemAt, Piece, RangeFollows, ReadTo;
    if q == [] {
      assert p + q == p && !AtRange(s, |s|) by {
        NothingFollows(s);
      }
    } else {
      var e := q[0];
      var j: nat :| Piece(s, i, j, e, EndsInLiteralElem(p), dotted) && Writes(s, j, q[1..], e.Literal?, dotted);
      PieceIsRead(s, i, j, e, dotted, p);
      WrittenIsSplit(s, j, dotted, p + [e], q[1..]);
      assert p + [e] + q[1..] == p + q;
    }
  }

  lemma NothingFollows(s: string)
    ensures !AtRange(s, |s|)
  {
  }

  lemma {:induction false} SplitIsWritten(s: string, i: nat, dotted: bool, p: seq<Elem>, q: seq<Elem>)
    requires ReadTo(s, i, p) && ElemsFrom(s, ReadUpTo(s, i), dotted, p) == Ok(p + q)
    ensures Writes(s, i, q, EndsInLiteralElem(p), dotted)
    decreases |q|
  {
    hide ElemAt, Piece, RangeFollows;
    NothingFollows(s);
    if i < |s| {
      var j := ReadIsPiece(s, i, dotted, p);
      var t := ElemAt(s, ReadUpTo(s, i), dotted, p).value;
      ElemsKeep(s, t.end, dotted, p + [t.value]);
      assert p + [t.value] <= p + q;
      assert (p + q)[|p|] == t.value == q[0];
      assert p + [t.value] + q[1..] == p + q;
      SplitIsWritten(s, j, dotted, p + [t.value], q[1..]);
    } else {
      assert |p + q| == |p|;
    }
  }

  /** A pattern is split into just the elements that it writes; so it is refused exactly if it writes no list at all. */
  lemma SplitExactlyIfWritten(s: string, p: seq<Elem>, dotted: bool)
    ensures ElemsFrom(s, 0, dotted, []) == Ok(p) <==> Writes(s, 0, p, false, dotted)
  {
    hide ElemsFrom, Writes;
    assert [] + p == p;
    if ElemsFrom(s, 0, dotted, []) == Ok(p) {
      SplitIsWritten(s, 0, dotted, [], p);
    }
    if Writes(s, 0, p, false, dotted) {
      WrittenIsSplit(s, 0, dotted, [], p);
    }
  }

  // ----- What is refused ----------------------------------------------------------------------------------------

  lemma BrokenLiteralLast(s: string, i: nat)
    requires i < |s| && s[i] == '\\' && i + 1 == |s|
    ensures BrokenLiteral(s, i)
  {
    assert s[i..|s| - 1] == "" && LiteralText("", "");
  }

  lemma BrokenLiteralStep(s: string, i: nat)
    requires i < |s| && s[i] !in {'?', '{', '*'} && CharAt(s, i) < |s|
    ensures var k := CharAt(s, i);
      BrokenLiteral(s, i) <==> !AtRange(s, k + 1) && BrokenLiteral(s, k + 1)
  {
    hide RangeFollows, LiteralText;
    var k, n := CharAt(s, i), |s| - 1;
    if BrokenLiteral(s, i) {
      var text :| LiteralText(s[i..n], text);
      LiteralTextStep(s, i, n, text);
      assert LiteralText(s[k + 1..n], text[1..]);
    }
    if BrokenLiteral(s, k + 1) {
      var text :| LiteralText(s[k + 1..n], text);
      LiteralTextStep(s, i, n, [s[k]] + text);
      assert ([s[k]] + text)[1..] == text;
    }
  }

  lemma BrokenLiteralBegins(s: string, i: nat)
    requires BrokenLiteral(s, i)
    ensures s[i] !in {'?', '{', '*'}
  {
    if i < |s| - 1 {
      assert s[i..|s| - 1][0] == s[i];
    }
  }

  lemma {:induction false} LiteralIsRefused(s: string, i: nat)
    requires i < |s| && s[i] !in {'?', '{', '*'}
    ensures LiteralFrom(s, i).Err? <==> BrokenLiteral(s, i)
    ensures LiteralFrom(s, i).Err? ==> LiteralFrom(s, i) == Err(LoneBackslash)
    decreases |s| - i
  {
    hide RangeFollows, NumRangeAt, BrokenLiteral;
    var k := CharAt(s, i);
    if k == |s| {
      BrokenLiteralLast(s, i);
    } else {
      RangeExactly(s, k, ']');
      BrokenLiteralStep(s, i);
      if k + 1 < |s| && s[k + 1] !in {'?', '{', '*'} {
        LiteralIsRefused(s, k + 1);
      } else if BrokenLiteral(s, k + 1) {
        NotBroken(s, k + 1);
      }
    }
  }

  lemma NotBroken(s: string, i: nat)
    requires i >= |s| || s[i] in {'?', '{', '*'}
    ensures !BrokenLiteral(s, i)
  {
    if BrokenLiteral(s, i) {
      BrokenLiteralBegins(s, i);
    }
  }

  lemma {:induction false} SetIsRefused(s: string, i: nat, first: bool)
    requires i <= |s|
    ensures SetFrom(s, i, first).Err? <==> forall m :: (if first then i + 1 else i) <= m < |s| ==> s[m] != '}'
    ensures SetFrom(s, i, first).Err? ==> SetFrom(s, i, first) == Err(UnmatchedBrace)
    decreases |s| - i
  {
    if SetFrom(s, i, first).Ok? {
      ReadIsSet(s, i, first);
    } else if i < |s| && !(s[i] == '}' && !first) {
      SetIsRefused(s, if Wide(s, i) then i + 3 else i + 1, false);
    }
  }

  /** What is refused is broken, and the error says how. */
  lemma BrokenIsRefused(s: string, i: nat, dotted: bool, p: seq<Elem>, e: Error)
    requires ReadTo(s, i, p) && ReadUpTo(s, i) < |s|
    ensures ElemAt(s, ReadUpTo(s, i), dotted, p) == Err(e) <==> Broken(s, i, EndsInLiteralElem(p), e)
  {
    hide RangeFollows, NumRangeAt, BrokenLiteral, SetFrom, LiteralFrom;
    if AtRange(s, i) {
      RangeExactly(s, i - 1, ']');
      RangeBegins(s, i, ']');
    } else if s[i] == '{' {
      RangeExactly(s, i, '}');
      NotBroken(s, i);
      BraceIsRefused(s, i, dotted, p);
    } else if s[i] in {'?', '*'} {
      NotBroken(s, i);
    } else {
      LiteralIsRefused(s, i);
    }
  }

  lemma BraceIsRefused(s: string, i: nat, dotted: bool, p: seq<Elem>)
    requires i < |s| && s[i] == '{'
    ensures ElemAt(s, i, dotted, p).Err? <==> Broken(s, i, EndsInLiteralElem(p), UnmatchedBrace)
    ensures ElemAt(s, i, dotted, p).Err? ==> ElemAt(s, i, dotted, p) == Err(UnmatchedBrace)
  {
    hide RangeFollows, NumRangeAt, SetFrom;
    RangeExactly(s, i, '}');
    var k := if CharIs(s, i + 1, '^') then i + 2 else i + 1;
    SetIsRefused(s, k, true);
    if NumRangeAt(s, i, '}').Range? {
      FoundIsRange(s, i, '}');
      RangeBegins(s, i + 1, '}');
      BoundsEnds(s[i + 1..NumRangeAt(s, i, '}').end], NumRangeAt(s, i, '}').from, NumRangeAt(s, i, '}').to);
    }
  }

  lemma {:induction false} RefusedIsBroken(s: string, i: nat, dotted: bool, p: seq<Elem>, e: Error)
    returns (q: seq<Elem>)
    requires ReadTo(s, i, p) && ElemsFrom(s, ReadUpTo(s, i), dotted, p) == Err(e)
    ensures Breaks(s, i, q, EndsInLiteralElem(p), dotted, e)
    decreases |s| - ReadUpTo(s, i), if EndsInLiteralElem(p) then 0 else 1
  {
    hide ElemAt, Piece, RangeFollows, Broken;
    BrokenIsRefused(s, i, dotted, p, e);
    if Broken(s, i, EndsInLiteralElem(p), e) {
      q := [];
    } else {
      var j := ReadIsPiece(s, i, dotted, p);
      var t := ElemAt(s, ReadUpTo(s, i), dotted, p).value;
      var rest := RefusedIsBroken(s, j, dotted, p + [t.value], e);
      q := [t.value] + rest;
      assert q[1..] == rest;
    }
  }

  lemma {:induction false} BrokenPatternIsRefused(s: string, i: nat, dotted: bool, p: seq<Elem>, e: Error, q: seq<Elem>)
    requires ReadTo(s, i, p) && Breaks(s, i, q, EndsInLiteralElem(p), dotted, e)
    ensures ElemsFrom(s, ReadUpTo(s, i), dotted, p) == Err(e)
    decreases |q|
  {
    hide ElemAt, Piece, RangeFollows, ReadTo;
    if q == [] {
      BrokenIsRefused(s, i, dotted, p, e);
    } else {
      var j: nat :| Piece(s, i, j, q[0], EndsInLiteralElem(p), dotted) &&
        Breaks(s, j, q[1..], q[0].Literal?, dotted, e);
      PieceIsRead(s, i, j, q[0], dotted, p);
      BrokenPatternIsRefused(s, j, dotted, p + [q[0]], e, q[1..]);
    }
  }

  /** A pattern is refused exactly if after some elements it goes on with a set without a closing brace or with a
      literal whose last backslash nothing follows; the error says which. */
  lemma RefusedExactlyIfBroken(s: string, dotted: bool, e: Error)
    ensures ElemsFrom(s, 0, dotted, []) == Err(e) <==> exists p :: Breaks(s, 0, p, false, dotted, e)
  {
    hide ElemsFrom, Breaks;
    if ElemsFrom(s, 0, dotted, []) == Err(e) {
      var p := RefusedIsBroken(s, 0, dotted, [], e);
    }
    if p :| Breaks(s, 0, p, false, dotted, e) {
      BrokenPatternIsRefused(s, 0, dotted, [], e, p);
    }
  }

  // ----- Ranges in brackets ---------------------------------------------------------------------------------------

  predicate NothingSpecial(u: string) { forall k :: 0 <= k < |u| ==> u[k] !in {'?', '{', '*', '\\'} }

  lemma {:induction false} PlainLiteralText(u: string)
    requires NothingSpecial(u)
    ensures LiteralText(u, u)
  {
    if u != "" {
      PlainLiteralText(u[1..]);
    }
  }

  function BareRange(u: string, a: string, b: string): string { u + "[" + a + ".." + b + "]" }

  lemma BareRangePlaces(u: string, a: string, b: string)
    ensures var s, i, j := BareRange(u, a, b), |u| + 1, |u| + 3 + |a| + |b|;
      |s| == j + 1 && s[..|u|] == u && s[0..i] == u + "[" && s[i..j] == a + ".." + b && s[j..|s|] == "]"
  {
    var x, r, s := u + "[", a + ".." + b, BareRange(u, a, b);
    assert s == x + r + "]";
    PartOf(x, r, "]");
    assert s[0..|x|] == x && s[|x| + |r|..|s|] == "]";
  }

  lemma WritesNext(s: string, i: nat, j: nat, e: Elem, p: seq<Elem>, after: bool, dotted: bool)
    requires Piece(s, i, j, e, after, dotted) && Writes(s, j, p, e.Literal?, dotted)
    ensures Writes(s, i, [e] + p, after, dotted)
  {
    hide Piece;
    var q := [e] + p;
    assert q != [] && q[0] == e && q[1..] == p;
    assert Piece(s, i, j, q[0], after, dotted) && Writes(s, j, q[1..], q[0].Literal?, dotted);
  }

  lemma BareRangePieces(u: string, a: string, b: string, dotted: bool)
    requires Digits(a) && Digits(b) && NothingSpecial(u) && '[' !in u
    ensures var s, i, j := BareRange(u, a, b), |u| + 1, |u| + 3 + |a| + |b|;
      Piece(s, 0, i, Literal(u + "["), false, dotted) && Piece(s, i, j, NumRange(BoundOf(a), BoundOf(b)), true,
        dotted) &&
      Piece(s, j, |s|, Literal("]"), false, dotted) && |s| == j + 1
  {
    hide BoundOf, BareRange, LiteralText;
    var s, i, j := BareRange(u, a, b), |u| + 1, |u| + 3 + |a| + |b|;
    BareRangePlaces(u, a, b);
    assert s[|u|] == s[0..i][|u|] == '[' && s[j] == s[j..|s|][0] == ']';
    PlainLiteralText(u + "[");
    PlainLiteralText("]");
    assert Bounds(s[i..j], BoundOf(a), BoundOf(b));
    assert RangeFollows(s, i, ']');
    assert forall m :: 0 <= m < |u| ==> s[m] == s[..|u|][m] == u[m] && u[m] in u;
  }

  lemma BareRangeIsWritten(u: string, a: string, b: string, dotted: bool)
    requires Digits(a) && Digits(b) && NothingSpecial(u) && '[' !in u
    ensures Writes(BareRange(u, a, b), 0, [Literal(u + "["), NumRange(BoundOf(a), BoundOf(b)), Literal("]")], false,
      dotted)
  {
    hide Piece, BoundOf, BareRange;
    var s, i, j := BareRange(u, a, b), |u| + 1, |u| + 3 + |a| + |b|;
    var first, range, last := Literal(u + "["), NumRange(BoundOf(a), BoundOf(b)), Literal("]");
    BareRangePieces(u, a, b, dotted);
    assert [last] + [] == [last] && [range] + [last] == [range, last] &&
      [first] + [range, last] == [first, range, last];
    WritesNext(s, j, |s|, last, [], false, dotted);
    WritesNext(s, i, j, range, [last], true, dotted);
    WritesNext(s, 0, i, first, [range, last], false, dotted);
  }

  /** A bracket with a numeric range needs no backslash: the pattern matches the text before it and the numbers of the
      range between brackets. */
  lemma BareRangeMatchesNumbers(u: string, a: string, b: string, dotted: bool, line: string)
    requires Digits(a) && Digits(b) && NothingSpecial(u) && '[' !in u
    ensures var c := Compiled(BareRange(u, a, b), dotted, true);
      c.Ok? &&
      (Accepts(c.value, line) <==> u + "[" <= line && NumberAndBracket(line, |u| + 1, BoundOf(a), BoundOf(b)))
  {
    hide ElemsFrom, Writes, Accepts, NumberAndBracket, BareRange, BoundOf;
    var p := [Literal(u + "["), NumRange(BoundOf(a), BoundOf(b)), Literal("]")];
    BareRangeIsWritten(u, a, b, dotted);
    SplitExactlyIfWritten(BareRange(u, a, b), p, dotted);
    assert p + [End] == [Literal(u + "["), NumRange(BoundOf(a), BoundOf(b)), Literal("]"), End];
    BracketedRange(u + "[", BoundOf(a), BoundOf(b), line);
  }
}
