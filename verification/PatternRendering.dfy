/** How lists of elements are written as patterns, and which lists patterns can be split into. */
module PatternRendering {
  import opened PatternLanguage
  import opened PatternMatchers

  // ----- What can be written -----------------------------------------------------------------------

  /** The ranges of a set from some place on. A brace ends the set unless it comes first, so no other range has it as an
      end; a brace alone comes before "-" only if nothing else follows. */
  predicate GoodPairs(chars: string, first: bool) {
    if chars == "" then !first
    else
      |chars| > 1 && GoodPairs(chars[2..], false) &&
      if chars[1] == '}' then first && chars[0] == '}' && (|chars| > 2 && chars[2] == '-' ==> chars == "}}--")
      else chars[0] == '}' ==> first
  }

  predicate Renderable(e: Elem, dotted: bool) {
    match e
    case Literal(text) => text != ""
    case AnyChar => !dotted
    case CommonChar => dotted
    case Set(chars) => GoodPairs(chars, true) && chars[0] != '^'
    case NegSet(chars) => GoodPairs(chars, true)
    case NumRange(from, to) => from >= -1 && to >= -1
    case AnySeq => true
    case CommonSeq => dotted
    case End => false
  }

  /** What would be read as one element is not two. */
  predicate Separate(e: Elem, f: Elem) {
    !(e.Literal? && f.Literal?) && !(e.CommonSeq? && f in {AnySeq, CommonSeq})
  }

  predicate Normal(p: seq<Elem>, dotted: bool) {
    (forall k :: 0 <= k < |p| ==> Renderable(p[k], dotted)) && forall k :: 0 < k < |p| ==> Separate(p[k - 1], p[k])
  }

  // ----- How it is written ---------------------------------------------------------------------------

  function PairsText(chars: string): string {
    if |chars| < 2 then ""
    else if chars == "}}--" then "}-"
    else if chars[1] == '}' then "}" + PairsText(chars[2..])
    else [chars[0], '-', chars[1]] + PairsText(chars[2..])
  }

  function Numeral(n: nat): string {
    if n < 10 then ['0' + n as char] else Numeral(n / 10) + ['0' + (n % 10) as char]
  }

  function BoundText(n: int): string { if n < 0 then "" else Numeral(n) }

  function RenderElem(e: Elem): string {
    match e
    case Literal(text) => Escaped(text)
    case AnyChar => "?"
    case CommonChar => "?"
    case Set(chars) => "{" + PairsText(chars) + "}"
    case NegSet(chars) => "{^" + PairsText(chars) + "}"
    case NumRange(from, to) => "{" + BoundText(from) + ".." + BoundText(to) + "}"
    case AnySeq => "**"
    case CommonSeq => "*"
    case End => ""
  }

  function Render(p: seq<Elem>): string { if p == [] then "" else RenderElem(p[0]) + Render(p[1..]) }

  // ----- What is written is read ---------------------------------------------------------------------

  lemma PairsBegin(chars: string)
    requires GoodPairs(chars, true)
    ensures PairsText(chars) != "" && PairsText(chars)[0] == chars[0]
    ensures chars[1] != '}' ==> |PairsText(chars)| > 2 && PairsText(chars)[1] == '-'
  {
  }

  lemma SetEnds(s: string, i: nat, rest: string)
    requires i <= |s| && s[i..] == "}" + rest
    ensures i < |s| && s[i] == '}' && SetFrom(s, i, false) == Ok(Token(i, ""))
  {
    assert s[i..][0] == s[i];
  }

  /** A range with two ends, or a single character that no "-" follows, and what comes after it. */
  lemma WidePair(s: string, i: nat, first: bool, a: char, b: char)
    requires i + 2 < |s| && s[i] == a && s[i + 1] == '-' && s[i + 2] == b && b != '}' && (a == '}' ==> first)
    requires SetFrom(s, i + 3, false).Ok?
    ensures var t := SetFrom(s, i + 3, false).value; SetFrom(s, i, first) == Ok(Token(t.end, [a, b] + t.value))
  {
  }

  lemma NarrowPair(s: string, i: nat, first: bool, a: char)
    requires i + 1 < |s| && s[i] == a && (a == '}' ==> first) && SetFrom(s, i + 1, false).Ok?
    requires s[i + 1] != '-' || i + 2 == |s| || s[i + 2] == '}'
    ensures var t := SetFrom(s, i + 1, false).value; SetFrom(s, i, first) == Ok(Token(t.end, [a, a] + t.value))
  {
  }

  lemma BraceAndMinus(s: string, i: nat, rest: string)
    requires i <= |s| && s[i..] == "}-" + ("}" + rest)
    ensures SetFrom(s, i, true) == Ok(Token(i + 2, "}}--"))
  {
    Ahead(s, i, "}-", "}" + rest);
    SetEnds(s, i + 2, rest);
    assert s[i] == "}-"[0] && s[i + 1] == "}-"[1];
    NarrowPair(s, i + 1, false, '-');
    NarrowPair(s, i, true, '}');
    assert ['-', '-'] + "" == "--" && ['}', '}'] + "--" == "}}--";
  }

  lemma PairsTextBegins(chars: string)
    requires GoodPairs(chars, false)
    ensures if chars == "" then PairsText(chars) == "" else PairsText(chars) != "" && PairsText(chars)[0] == chars[0]
  {
  }

  lemma WideAhead(s: string, i: nat, first: bool, chars: string, rest: string)
    requires i <= |s| && s[i..] == PairsText(chars) + ("}" + rest) && GoodPairs(chars, first) && chars != "" &&
      chars[1] != '}'
    ensures i + 3 <= |s| && s[i + 3..] == PairsText(chars[2..]) + ("}" + rest) && s[i + 3..] != ""
    ensures s[i] == chars[0] && s[i + 1] == '-' && s[i + 2] == chars[1] && (chars[0] == '}' ==> first)
    ensures |PairsText(chars)| == 3 + |PairsText(chars[2..])| && GoodPairs(chars[2..], false)
    ensures [chars[0], chars[1]] + chars[2..] == chars
  {
    var t, x := PairsText(chars[2..]), [chars[0], '-', chars[1]];
    assert PairsText(chars) + ("}" + rest) == x + (t + ("}" + rest));
    Ahead(s, i, x, t + ("}" + rest));
    assert s[i] == x[0] && s[i + 1] == x[1] && s[i + 2] == x[2];
  }

  lemma BraceAhead(s: string, i: nat, first: bool, chars: string, rest: string)
    requires i <= |s| && s[i..] == PairsText(chars) + ("}" + rest) && GoodPairs(chars, first) && chars != ""
    requires chars[1] == '}' && chars != "}}--"
    ensures first && i + 1 <= |s| && s[i + 1..] == PairsText(chars[2..]) + ("}" + rest) && s[i + 1..] != ""
    ensures s[i] == '}' && s[i + 1] != '-'
    ensures |PairsText(chars)| == 1 + |PairsText(chars[2..])| && GoodPairs(chars[2..], false)
    ensures ['}', '}'] + chars[2..] == chars
  {
    var t := PairsText(chars[2..]);
    assert PairsText(chars) + ("}" + rest) == "}" + (t + ("}" + rest));
    Ahead(s, i, "}", t + ("}" + rest));
    assert s[i] == "}"[0];
    PairsTextBegins(chars[2..]);
    assert s[i + 1] == (t + ("}" + rest))[0];
  }

  lemma NothingAhead(s: string, i: nat, first: bool, rest: string)
    requires i <= |s| && s[i..] == PairsText("") + ("}" + rest) && GoodPairs("", first)
    ensures PairsText("") == "" && SetFrom(s, i, first) == Ok(Token(i, ""))
  {
    assert s[i..] == "}" + rest;
    SetEnds(s, i, rest);
  }

  /** The ranges of a set are read up to the brace that ends it. */
  lemma {:induction false} PairsAhead(s: string, i: nat, first: bool, chars: string, rest: string)
    requires i <= |s| && s[i..] == PairsText(chars) + ("}" + rest) && GoodPairs(chars, first)
    ensures SetFrom(s, i, first) == Ok(Token(i + |PairsText(chars)|, chars))
    decreases |chars|
  {
    if chars == "" {
      NothingAhead(s, i, first, rest);
    } else if chars == "}}--" {
      BraceAndMinus(s, i, rest);
    } else {
      hide SetFrom, PairsText;
      if chars[1] == '}' {
        BraceAhead(s, i, first, chars, rest);
        PairsAhead(s, i + 1, false, chars[2..], rest);
        NarrowPair(s, i, first, '}');
      } else {
        WideAhead(s, i, first, chars, rest);
        PairsAhead(s, i + 3, false, chars[2..], rest);
        WidePair(s, i, first, chars[0], chars[1]);
      }
    }
  }

  // ----- Numbers -------------------------------------------------------------------------------------

  lemma {:induction false} LastDigit(s: string, a: nat, b: nat, n: nat)
    requires a < b <= |s| && forall j :: a <= j < b ==> IsDigit(s[j])
    ensures NumberFrom(s, a, b, n) == 10 * NumberFrom(s, a, b - 1, n) + (s[b - 1] as int - '0' as int)
    decreases b - a
  {
    assert IsDigit(s[a]);
    if a + 1 < b {
      LastDigit(s, a + 1, b, 10 * n + (s[a] as int - '0' as int));
    }
  }

  lemma {:induction false} NumeralIsRead(n: nat)
    ensures Digits(Numeral(n)) && Numeral(n) != "" && Number(Numeral(n), 0, |Numeral(n)|) == n
  {
    var s := Numeral(n);
    if n >= 10 {
      var t := Numeral(n / 10);
      NumeralIsRead(n / 10);
      LastDigit(s, 0, |s|, 0);
      NumberOfPart(s, 0, |t|, 0);
      assert s[0..|t|] == t;
    } else {
      assert NumberFrom(s, 1, 1, n) == n;
    }
  }

  lemma BoundIsRead(n: int)
    requires n >= -1
    ensures Digits(BoundText(n)) && BoundOf(BoundText(n)) == n
  {
    if n >= 0 {
      NumeralIsRead(n);
    }
  }

  function RangeText(a: string, b: string): string { "{" + a + ".." + b + "}" }

  lemma RangeTextAhead(s: string, i: nat, a: string, b: string, rest: string)
    requires Digits(a) && Digits(b) && i <= |s| && s[i..] == RangeText(a, b) + rest
    ensures |RangeText(a, b)| == 4 + |a| + |b|
    ensures i < |s| && s[i] == '{' && NumRangeAt(s, i, '}') == Range(i + 3 + |a| + |b|, BoundOf(a), BoundOf(b))
  {
    hide *;
    var x, m, e := RangeText(a, b), 1 + |a|, 3 + |a| + |b|;
    RangeTextPlaces(a, b);
    Ahead(s, i, x, rest);
    Placed(s, i, x, 1, a, i + 1);
    Placed(s, i, x, m + 2, b, i + m + 2);
    assert s[i + 0] == x[0] && s[i + m] == x[m] && s[i + (m + 1)] == x[m + 1] && s[i + e] == x[e];
    NotDigits();
    DigitsInside(s, i + 1, a);
    DigitsInside(s, i + m + 2, b);
    RangeBetween(s, i, i + m, i + e, '}');
  }

  lemma NumRangeAhead(s: string, i: nat, from: int, to: int, rest: string)
    requires from >= -1 && to >= -1 && i <= |s| && s[i..] == RenderElem(NumRange(from, to)) + rest
    ensures i < |s| && s[i] == '{' && NumRangeAt(s, i, '}') == Range(i + |RenderElem(NumRange(from, to))| - 1, from, to)
  {
    var a, b := BoundText(from), BoundText(to);
    assert RenderElem(NumRange(from, to)) == RangeText(a, b);
    BoundIsRead(from);
    BoundIsRead(to);
    hide NumRangeAt, BoundOf, BoundText;
    RangeTextAhead(s, i, a, b, rest);
  }

  lemma RangeTextPlaces(a: string, b: string)
    ensures var x, m, e := RangeText(a, b), 1 + |a|, 3 + |a| + |b|;
      |x| == e + 1 && x[0] == '{' && x[1..m] == a && x[m] == '.' && x[m + 1] == '.' && x[m + 2..e] == b && x[e] == '}'
  {
    var y, z := ".." + b + "}", "{" + a + "..";
    assert RangeText(a, b) == "{" + a + y == z + b + "}";
    PartOf("{", a, y);
    PartOf(z, b, "}");
    assert y[0] == '.' == y[1];
  }

  lemma Placed(s: string, i: nat, x: string, k: nat, a: string, p: nat)
    requires p == i + k
    requires i + |x| <= |s| && (forall j :: 0 <= j < |x| ==> s[i + j] == x[j]) && k + |a| <= |x| && x[k..k + |a|] == a
    ensures p + |a| <= |s| && s[p..p + |a|] == a
  {
    forall j | 0 <= j < |a| ensures s[p..p + |a|][j] == a[j] {
      assert x[k..k + |a|][j] == x[k + j] == s[i + (k + j)];
    }
  }

  // ----- Elements ------------------------------------------------------------------------------------

  /** A set is not taken for a numeric range. */
  lemma NoRangeInSet(s: string, i: nat, chars: string, rest: string)
    requires i < |s| && s[i + 1..] == PairsText(chars) + ("}" + rest) && GoodPairs(chars, true)
    ensures NumRangeAt(s, i, '}') == NoRange && i + 1 < |s| && chars != "" && s[i + 1] == chars[0]
  {
    PairsBegin(chars);
    Ahead(s, i + 1, PairsText(chars), "}" + rest);
    assert s[i + 1 + 0] == chars[0];
    if chars[1] != '}' {
      assert s[i + 1 + 1] == '-';
      if IsDigit(chars[0]) {
        DigitsEndAt(s, i + 1, i + 2);
      } else {
        DigitsEndAt(s, i + 1, i + 1);
      }
    } else {
      DigitsEndAt(s, i + 1, i + 1);
    }
  }

  lemma SetIsAt(s: string, i: nat, chars: string, e: nat)
    requires i < |s| && !CharIs(s, i + 1, '^') && SetFrom(s, i + 1, true) == Ok(Token(e, chars))
    ensures SetAt(s, i) == Ok(Token(e + 1, Set(chars)))
  {
    hide SetFrom;
  }

  lemma NegSetIsAt(s: string, i: nat, chars: string, e: nat)
    requires i < |s| && CharIs(s, i + 1, '^') && SetFrom(s, i + 2, true) == Ok(Token(e, chars))
    ensures SetAt(s, i) == Ok(Token(e + 1, NegSet(chars)))
  {
    hide SetFrom;
  }

  lemma SetBegins(s: string, i: nat, chars: string, rest: string)
    requires i <= |s| && s[i..] == RenderElem(Set(chars)) + rest
    ensures i < |s| && s[i] == '{' && s[i + 1..] == PairsText(chars) + ("}" + rest)
    ensures |RenderElem(Set(chars))| == 2 + |PairsText(chars)|
  {
    var t := PairsText(chars);
    assert RenderElem(Set(chars)) + rest == "{" + (t + ("}" + rest));
    Ahead(s, i, "{", t + ("}" + rest));
    assert s[i + 0] == "{"[0];
  }

  lemma OtherFirst(s: string, i: nat, chars: string)
    requires i + 1 < |s| && chars != "" && s[i + 1] == chars[0] != '^'
    ensures !CharIs(s, i + 1, '^')
  {
  }

  lemma SetAhead(s: string, i: nat, chars: string, rest: string)
    requires i <= |s| && s[i..] == RenderElem(Set(chars)) + rest && GoodPairs(chars, true) && chars[0] != '^'
    ensures i < |s| && s[i] == '{' && NumRangeAt(s, i, '}') == NoRange
    ensures SetAt(s, i) == Ok(Token(i + |RenderElem(Set(chars))|, Set(chars)))
  {
    hide *;
    SetBegins(s, i, chars, rest);
    NoRangeInSet(s, i, chars, rest);
    PairsAhead(s, i + 1, true, chars, rest);
    OtherFirst(s, i, chars);
    SetIsAt(s, i, chars, i + 1 + |PairsText(chars)|);
  }

  lemma NegSetAhead(s: string, i: nat, chars: string, rest: string)
    requires i <= |s| && s[i..] == RenderElem(NegSet(chars)) + rest && GoodPairs(chars, true)
    ensures i < |s| && s[i] == '{' && NumRangeAt(s, i, '}') == NoRange
    ensures SetAt(s, i) == Ok(Token(i + |RenderElem(NegSet(chars))|, NegSet(chars)))
  {
    hide SetFrom, SetAt, GoodPairs, PairsText, NumRangeAt;
    var t := PairsText(chars);
    assert RenderElem(NegSet(chars)) + rest == "{^" + (t + ("}" + rest));
    Ahead(s, i, "{^", t + ("}" + rest));
    assert s[i + 0] == "{^"[0] && s[i + 1] == "{^"[1];
    NoRangeBefore(s, i);
    PairsAhead(s, i + 2, true, chars, rest);
    NegSetIsAt(s, i, chars, i + 2 + |t|);
  }

  lemma NoRangeBefore(s: string, i: nat)
    requires i + 1 < |s| && s[i + 1] == '^'
    ensures NumRangeAt(s, i, '}') == NoRange
  {
    DigitsEndAt(s, i + 1, i + 1);
  }

  /** What may come after an element, so that it is not read on. */
  predicate Follows(e: Elem, rest: string) {
    rest == "" || ((e.Literal? ==> rest[0] in {'?', '{', '*'}) && (e.CommonSeq? ==> rest[0] != '*'))
  }

  lemma EscapedBegins(text: string, rest: string)
    requires text != ""
    ensures Escaped(text) != "" && (Escaped(text) + rest)[0] == '\\'
  {
  }

  /** An element that is written is read. */
  lemma ElemAhead(s: string, i: nat, e: Elem, rest: string, dotted: bool, p: seq<Elem>)
    requires i <= |s| && s[i..] == RenderElem(e) + rest && Renderable(e, dotted) && Follows(e, rest)
    ensures i < |s| && ElemAt(s, i, dotted, p) == Ok(Token(i + |RenderElem(e)|, e)) && RenderElem(e) != ""
  {
    hide SetFrom, SetAt, GoodPairs, PairsText, NumRangeAt, LiteralFrom;
    Ahead(s, i, RenderElem(e), rest);
    match e
    case Literal(text) =>
      EscapedBegins(text, rest);
      assert s[i] == s[i..][0];
      EscapedAhead(s, i, text, rest);
    case AnyChar => assert s[i + 0] == '?';
    case CommonChar => assert s[i + 0] == '?';
    case Set(chars) => SetAhead(s, i, chars, rest);
    case NegSet(chars) => NegSetAhead(s, i, chars, rest);
    case NumRange(from, to) => NumRangeAhead(s, i, from, to, rest);
    case AnySeq => assert s[i + 0] == "**"[0] && s[i + 1] == "**"[1];
    case CommonSeq => assert s[i + 0] == '*';
  }

  // ----- Lists ---------------------------------------------------------------------------------------

  function FirstCharacter(e: Elem): char {
    match e
    case Literal(_) => '\\'
    case AnyChar => '?'
    case CommonChar => '?'
    case AnySeq => '*'
    case CommonSeq => '*'
    case _ => '{'
  }

  lemma RenderBegins(e: Elem, dotted: bool)
    requires Renderable(e, dotted)
    ensures RenderElem(e) != ""
    ensures RenderElem(e)[0] == FirstCharacter(e)
  {
  }

  lemma NextFollows(p: seq<Elem>, k: nat, dotted: bool)
    requires Normal(p, dotted) && k < |p|
    ensures Follows(p[k], Render(p[k + 1..]))
  {
    if k + 1 < |p| {
      RenderBegins(p[k + 1], dotted);
      assert p[k + 1..][0] == p[k + 1];
      assert Separate(p[k + 1 - 1], p[k + 1]);
    }
  }

  lemma RenderStep(p: seq<Elem>, k: nat)
    requires k < |p|
    ensures Render(p[k..]) == RenderElem(p[k]) + Render(p[k + 1..]) && p[..k] + [p[k]] == p[..k + 1]
  {
    assert p[k..][0] == p[k] && p[k..][1..] == p[k + 1..];
  }

  lemma SplitStep(s: string, i: nat, dotted: bool, p: seq<Elem>, t: Token<Elem>)
    requires i < |s| && ElemAt(s, i, dotted, p) == Ok(t)
    ensures t.end <= |s| && ElemsFrom(s, i, dotted, p) == ElemsFrom(s, t.end, dotted, p + [t.value])
  {
    hide ElemAt;
  }

  lemma SplitDone(s: string, i: nat, dotted: bool, p: seq<Elem>)
    requires i <= |s| && s[i..] == Render(p[|p|..])
    ensures ElemsFrom(s, i, dotted, p) == Ok(p)
  {
  }

  /** A list that is written element by element is what is read. */
  lemma {:induction false} RenderedAhead(s: string, i: nat, p: seq<Elem>, k: nat, dotted: bool)
    requires Normal(p, dotted) && k <= |p| && i <= |s| && s[i..] == Render(p[k..])
    ensures ElemsFrom(s, i, dotted, p[..k]) == Ok(p)
    decreases |p| - k
  {
    hide *;
    if k == |p| {
      assert p[..k] == p;
      SplitDone(s, i, dotted, p);
    } else {
      var e, rest := p[k], Render(p[k + 1..]);
      RenderStep(p, k);
      RenderableAt(p, k, dotted);
      NextFollows(p, k, dotted);
      ElemAhead(s, i, e, rest, dotted, p[..k]);
      Ahead(s, i, RenderElem(e), rest);
      SplitStep(s, i, dotted, p[..k], Token(i + |RenderElem(e)|, e));
      RenderedAhead(s, i + |RenderElem(e)|, p, k + 1, dotted);
    }
  }

  lemma RenderableAt(p: seq<Elem>, k: nat, dotted: bool)
    requires Normal(p, dotted) && k < |p|
    ensures Renderable(p[k], dotted)
  {
  }

  /** Every list in normal form is written as a pattern that is split into just these elements. */
  lemma RenderedIsRead(p: seq<Elem>, dotted: bool)
    requires Normal(p, dotted)
    ensures ElemsFrom(Render(p), 0, dotted, []) == Ok(p)
    ensures forall fullString :: Compiled(Render(p), dotted, fullString) == Ok(Finished(p, fullString))
  {
    assert Render(p)[0..] == Render(p) && p[0..] == p && p[..0] == [];
    RenderedAhead(Render(p), 0, p, 0, dotted);
  }

  // ----- What is read can be written ---------------------------------------------------------------

  /** Where an element can end. */
  predicate EndsAt(e: Elem, s: string, i: nat) {
    (e.Literal? ==> i >= |s| || s[i] in {'?', '{', '*'} || (s[i] == '[' && NumRangeAt(s, i, ']').Range?)) &&
    (e.CommonSeq? ==> !CharIs(s, i, '*'))
  }

  lemma {:induction false} LiteralStops(s: string, i: nat)
    requires i <= |s| && LiteralFrom(s, i).Ok?
    ensures EndsAt(Literal(""), s, LiteralFrom(s, i).value.end)
    ensures i < |s| && s[i] !in {'?', '{', '*'} ==> LiteralFrom(s, i).value.value != ""
    decreases |s| - i
  {
    hide NumRangeAt;
    if i < |s| && s[i] !in {'?', '{', '*'} {
      var j := if s[i] == '\\' then i + 1 else i;
      if !(s[j] == '[' && NumRangeAt(s, j, ']').Range?) {
        LiteralStops(s, j + 1);
      }
    }
  }

  lemma {:induction false} SetIsGood(s: string, i: nat, first: bool)
    requires i <= |s| && SetFrom(s, i, first).Ok?
    ensures var chars := SetFrom(s, i, first).value.value;
      GoodPairs(chars, first) && (chars != "" ==> chars[0] == s[i]) && (chars == "" ==> s[i] == '}')
    decreases |s| - i
  {
    if s[i] == '}' && !first {
    } else {
      var wide := CharIs(s, i + 1, '-') && i + 2 < |s| && s[i + 2] != '}';
      var j := if wide then i + 3 else i + 1;
      SetIsGood(s, j, false);
      var chars, rest := SetFrom(s, i, first).value.value, SetFrom(s, j, false).value.value;
      assert chars[2..] == rest && chars[0] == s[i];
      if !wide && s[i] == '}' && rest != "" && rest[0] == '-' {
        MinusAlone(s, i);
      }
    }
  }

  /** A "-" after a brace that comes first is alone only at the end. */
  lemma MinusAlone(s: string, i: nat)
    requires i + 1 < |s| && s[i + 1] == '-' && (i + 2 >= |s| || s[i + 2] == '}') && SetFrom(s, i + 1, false).Ok?
    ensures SetFrom(s, i + 1, false).value.value == "--"
  {
    assert SetFrom(s, i + 2, false) == Ok(Token(i + 2, ""));
  }

  lemma ElemIsNormal(s: string, i: nat, dotted: bool, p: seq<Elem>)
    requires i < |s| && ElemAt(s, i, dotted, p).Ok? && (p != [] ==> EndsAt(p[|p| - 1], s, i))
    ensures var t := ElemAt(s, i, dotted, p).value;
      Renderable(t.value, dotted) && (p != [] ==> Separate(p[|p| - 1], t.value)) && EndsAt(t.value, s, t.end)
  {
    hide NumRangeAt, GoodPairs, SetFrom, LiteralFrom;
    var t := ElemAt(s, i, dotted, p).value;
    match t.value
    case Literal(_) => LiteralStops(s, i);
    case Set(_) => SetIsGood(s, i + 1, true);
    case NegSet(_) => SetIsGood(s, i + 2, true);
    case NumRange(_, _) =>
      BoundsAreBounds(s, i, ']');
      BoundsAreBounds(s, i, '}');
    case _ =>
  }

  lemma BoundsAreBounds(s: string, i: nat, closing: char)
    requires i < |s|
    ensures var r := NumRangeAt(s, i, closing); r.Range? ==> r.from >= -1 && r.to >= -1
  {
  }

  lemma {:induction false} SplitIsNormal(s: string, i: nat, dotted: bool, p: seq<Elem>)
    requires i <= |s| && ElemsFrom(s, i, dotted, p).Ok? && Normal(p, dotted) && (p != [] ==> EndsAt(p[|p| - 1], s, i))
    ensures Normal(ElemsFrom(s, i, dotted, p).value, dotted)
    decreases |s| - i, if EndsInLiteralElem(p) then 0 else 1
  {
    if i < |s| {
      hide ElemAt, EndsAt, Renderable, Separate;
      ElemIsNormal(s, i, dotted, p);
      var t := ElemAt(s, i, dotted, p).value;
      SplitIsNormal(s, t.end, dotted, p + [t.value]);
    }
  }

  /** A list of elements is what some pattern is split into if and only if it is in normal form. */
  lemma SplitExactly(p: seq<Elem>, dotted: bool)
    ensures (exists s :: ElemsFrom(s, 0, dotted, []) == Ok(p)) <==> Normal(p, dotted)
  {
    if s :| ElemsFrom(s, 0, dotted, []) == Ok(p) {
      SplitIsNormal(s, 0, dotted, []);
    }
    if Normal(p, dotted) {
      RenderedIsRead(p, dotted);
    }
  }
}
