/** The pattern matcher: splitting a pattern into elements, and matching lines against them with shortcuts. */
module PatternMatchers {
  import opened PatternLanguage

  datatype Error = UnmatchedBrace | LoneBackslash

  datatype Result<T> = Ok(value: T) | Err(error: Error)

  datatype Range = Range(end: nat, from: int, to: int) | NoRange

  /** An element and where it ends. */
  datatype Token<T> = Token(end: nat, value: T)

  predicate CharIs(s: string, i: nat, c: char) { i < |s| && s[i] == c }

  // ----- What the tokenizer makes of a pattern, as functions ------------------------------------

  function Bound(s: string, i: nat): int
    requires i <= |s|
  {
    if i < DigitsEnd(s, i) then Number(s, i, DigitsEnd(s, i)) else -1
  }

  /** A numeric range after the bracket at i, up to the closing character. */
  function NumRangeAt(s: string, i: nat, closing: char): (r: Range)
    requires i < |s|
    ensures r.Range? ==> i + 2 < r.end < |s|
  {
    var a := DigitsEnd(s, i + 1);
    if !(CharIs(s, a, '.') && CharIs(s, a + 1, '.')) then NoRange
    else
      var b := DigitsEnd(s, a + 2);
      if CharIs(s, b, closing) then Range(b, Bound(s, i + 1), Bound(s, a + 2)) else NoRange
  }

  /** The ranges of a set from i on, up to the brace that ends it; a brace that comes first does not. */
  function SetFrom(s: string, i: nat, first: bool): (r: Result<Token<string>>)
    requires i <= |s|
    ensures r.Ok? ==> i <= r.value.end < |s| && |r.value.value| % 2 == 0
    decreases |s| - i
  {
    if i == |s| then Err(UnmatchedBrace)
    else if s[i] == '}' && !first then Ok(Token(i, ""))
    else
      var wide := CharIs(s, i + 1, '-') && i + 2 < |s| && s[i + 2] != '}';
      match SetFrom(s, if wide then i + 3 else i + 1, false)
      case Err(e) => Err(e)
      case Ok(t) => Ok(Token(t.end, [s[i], if wide then s[i + 2] else s[i]] + t.value))
  }

  /** The set that the brace at i begins. */
  function SetAt(s: string, i: nat): (r: Result<Token<Elem>>)
    requires i < |s|
    ensures r.Ok? ==> i < r.value.end <= |s|
  {
    var negated := CharIs(s, i + 1, '^');
    match SetFrom(s, if negated then i + 2 else i + 1, true)
    case Err(e) => Err(e)
    case Ok(t) => Ok(Token(t.end + 1, if negated then NegSet(t.value) else Set(t.value)))
  }

  /** A literal from i on: up to a special character, or up to a bracket that begins a numeric range, which it
      includes. */
  function LiteralFrom(s: string, i: nat): (r: Result<Token<string>>)
    requires i <= |s|
    ensures r.Ok? ==> i <= r.value.end <= |s|
    ensures r.Ok? && r.value.end == i && i < |s| && s[i] !in {'?', '{', '*'} ==>
      s[i] == '[' &&
      NumRangeAt(s, i, ']').Range?
    decreases |s| - i
  {
    if i == |s| || s[i] in {'?', '{', '*'} then Ok(Token(i, ""))
    else
      var j := if s[i] == '\\' then i + 1 else i;
      if j == |s| then Err(LoneBackslash)
      else if s[j] == '[' && NumRangeAt(s, j, ']').Range? then Ok(Token(j, [s[j]]))
      else
        match LiteralFrom(s, j + 1)
        case Err(e) => Err(e)
        case Ok(t) => Ok(Token(t.end, [s[j]] + t.value))
  }

  predicate EndsInLiteralElem(p: seq<Elem>) { p != [] && p[|p| - 1].Literal? }

  function LiteralAt(s: string, i: nat): (r: Result<Token<Elem>>)
    requires i <= |s|
    ensures r.Ok? ==> i <= r.value.end <= |s| && r.value.value.Literal?
    ensures r.Ok? && r.value.end == i && i < |s| && s[i] !in {'?', '{', '*'} ==>
      s[i] == '[' &&
      NumRangeAt(s, i, ']').Range?
  {
    match LiteralFrom(s, i)
    case Err(e) => Err(e)
    case Ok(t) => Ok(Token(t.end, Literal(t.value)))
  }

  /** The next element of the pattern, from i on, after the elements p. */
  function ElemAt(s: string, i: nat, dotted: bool, p: seq<Elem>): (r: Result<Token<Elem>>)
    requires i < |s|
    ensures r.Ok? ==> i <= r.value.end <= |s| && r.value.value != End
    ensures r.Ok? && r.value.end == i ==> r.value.value.Literal? && !EndsInLiteralElem(p)
  {
    match s[i]
    case '?' => Ok(Token(i + 1, if dotted then CommonChar else AnyChar))
    case '[' =>
      if EndsInLiteralElem(p) && NumRangeAt(s, i, ']').Range? then
        var r := NumRangeAt(s, i, ']');
        Ok(Token(r.end, NumRange(r.from, r.to)))
      else LiteralAt(s, i)
    case '{' =>
      var r := NumRangeAt(s, i, '}');
      if r.Range? then Ok(Token(r.end + 1, NumRange(r.from, r.to))) else SetAt(s, i)
    case '*' => if CharIs(s, i + 1, '*') then Ok(Token(i + 2, AnySeq))
      else Ok(Token(i + 1, if dotted then CommonSeq else AnySeq))
    case _ => LiteralAt(s, i)
  }

  function ElemsFrom(s: string, i: nat, dotted: bool, p: seq<Elem>): Result<seq<Elem>>
    requires i <= |s|
    decreases |s| - i, if EndsInLiteralElem(p) then 0 else 1
  {
    if i == |s| then Ok(p)
    else
      match ElemAt(s, i, dotted, p)
      case Err(e) => Err(e)
      case Ok(t) => ElemsFrom(s, t.end, dotted, p + [t.value])
  }

  /** For a match of a part of the line the pattern gets "**" at both ends, unless it has them. */
  function Finished(p: seq<Elem>, fullString: bool): seq<Elem> {
    if fullString then p + [End]
    else
      var q := if p == [] || p[|p| - 1] != AnySeq then p + [AnySeq] else p;
      (if q[0] != AnySeq then [AnySeq] + q else q) + [End]
  }

  function Compiled(s: string, dotted: bool, fullString: bool): Result<seq<Elem>> {
    match ElemsFrom(s, 0, dotted, [])
    case Err(e) => Err(e)
    case Ok(p) => Ok(Finished(p, fullString))
  }

  lemma {:induction false} ElemsHaveNoEnd(s: string, i: nat, dotted: bool, p: seq<Elem>)
    requires i <= |s| && ElemsFrom(s, i, dotted, p).Ok? && End !in p
    ensures End !in ElemsFrom(s, i, dotted, p).value
    decreases |s| - i, if EndsInLiteralElem(p) then 0 else 1
  {
    if i < |s| {
      var t := ElemAt(s, i, dotted, p).value;
      ElemsHaveNoEnd(s, t.end, dotted, p + [t.value]);
    }
  }

  lemma CompiledIsEnded(s: string, dotted: bool, fullString: bool)
    requires Compiled(s, dotted, fullString).Ok?
    ensures Ended(Compiled(s, dotted, fullString).value)
  {
    ElemsHaveNoEnd(s, 0, dotted, []);
    var p := ElemsFrom(s, 0, dotted, []).value;
    assert forall k :: 0 <= k < |p| ==> p[k] in p;
  }

  /** The elements stand for consecutive pieces of the line. */
  ghost predicate Spans(p: seq<Elem>, s: string, cuts: seq<nat>) {
    |cuts| == |p| + 1 && cuts[|p|] <= |s| && forall k :: 0 <= k < |p| ==> StandsFor(p[k], s, cuts[k], cuts[k + 1])
  }

  ghost predicate Between(p: seq<Elem>, s: string, a: nat, b: nat) {
    exists cuts :: Spans(p, s, cuts) && cuts[0] == a && cuts[|p|] == b
  }

  lemma WholeLine(p: seq<Elem>, s: string)
    ensures Accepts(p + [End], s) <==> Between(p, s, 0, |s|)
  {
    var q := p + [End];
    hide StandsFor;
    if Accepts(q, s) {
      var cuts: seq<nat> :| Pieces(q, 0, s, 0, cuts);
      assert forall k :: 0 <= k < |q| ==> StandsFor(q[0 + k], s, cuts[k], cuts[k + 1]);
      EndIsAtEnd(s, cuts[|p|], cuts[|p| + 1]);
      SpansFirst(q, s, cuts, p);
    }
    if Between(p, s, 0, |s|) {
      var cuts: seq<nat> :| Spans(p, s, cuts) && cuts[0] == 0 && cuts[|p|] == |s|;
      EndIsAtEnd(s, |s|, |s|);
      SpansLast(p, s, cuts, End, |s|);
      assert Pieces(q, 0, s, 0, cuts + [|s|]);
    }
  }

  lemma EndIsAtEnd(s: string, a: nat, b: nat)
    ensures StandsFor(End, s, a, b) <==> a == b == |s|
    ensures StandsFor(AnySeq, s, a, b) <==> a <= b <= |s|
  {
  }

  lemma SpansFirst(q: seq<Elem>, s: string, cuts: seq<nat>, p: seq<Elem>)
    requires |cuts| == |q| + 1 && |q| == |p| + 1 && p == q[..|p|] && cuts[|p|] <= |s|
    requires forall k :: 0 <= k < |q| ==> StandsFor(q[k], s, cuts[k], cuts[k + 1])
    ensures Spans(p, s, cuts[..|q|])
  {
    hide StandsFor;
  }

  lemma SpansLast(p: seq<Elem>, s: string, cuts: seq<nat>, e: Elem, b: nat)
    requires Spans(p, s, cuts) && StandsFor(e, s, cuts[|p|], b) && b <= |s|
    ensures Spans(p + [e], s, cuts + [b])
  {
    hide StandsFor;
  }

  lemma SpansBehind(p: seq<Elem>, s: string, cuts: seq<nat>, e: Elem, a: nat)
    requires Spans(p, s, cuts) && StandsFor(e, s, a, cuts[0])
    ensures Spans([e] + p, s, [a] + cuts)
  {
    hide StandsFor;
    var q, c := [e] + p, [a] + cuts;
    forall k | 0 <= k < |q| ensures StandsFor(q[k], s, c[k], c[k + 1]) {
      if k > 0 {
        assert q[k] == p[k - 1] && c[k] == cuts[k - 1] && c[k + 1] == cuts[k];
        assert StandsFor(p[k - 1], s, cuts[k - 1], cuts[k - 1 + 1]);
      }
    }
  }

  lemma SpansRest(q: seq<Elem>, s: string, cuts: seq<nat>)
    requires q != [] && Spans(q, s, cuts)
    ensures Spans(q[1..], s, cuts[1..])
  {
    hide StandsFor;
    forall k | 0 <= k < |q| - 1 ensures StandsFor(q[1..][k], s, cuts[1..][k], cuts[1..][k + 1]) {
      assert StandsFor(q[k + 1], s, cuts[k + 1], cuts[k + 1 + 1]);
    }
  }

  /** With "**" at the end of the pattern the last piece may end anywhere. */
  lemma OpenEnd(p: seq<Elem>, s: string, a: nat)
    ensures Between(p + [AnySeq], s, a, |s|) <==> exists b :: Between(p, s, a, b)
  {
    hide StandsFor;
    var q := p + [AnySeq];
    if Between(q, s, a, |s|) {
      var cuts: seq<nat> :| Spans(q, s, cuts) && cuts[0] == a && cuts[|q|] == |s|;
      SpansAre(q, s, cuts);
      EndIsAtEnd(s, cuts[|p|], cuts[|q|]);
      SpansFirst(q, s, cuts, p);
      assert Between(p, s, a, cuts[|p|]);
    }
    if b :| Between(p, s, a, b) {
      var cuts: seq<nat> :| Spans(p, s, cuts) && cuts[0] == a && cuts[|p|] == b;
      SpansAre(p, s, cuts);
      EndIsAtEnd(s, b, |s|);
      SpansLast(p, s, cuts, AnySeq, |s|);
      assert (cuts + [|s|])[0] == a && (cuts + [|s|])[|q|] == |s|;
    }
  }

  lemma SpansAre(p: seq<Elem>, s: string, cuts: seq<nat>)
    requires Spans(p, s, cuts)
    ensures |cuts| == |p| + 1 && cuts[|p|] <= |s|
    ensures forall k :: 0 <= k < |p| ==> StandsFor(p[k], s, cuts[k], cuts[k + 1])
  {
    hide StandsFor;
  }

  /** With "**" at its beginning the first piece may begin anywhere. */
  lemma OpenBeginning(p: seq<Elem>, s: string, b: nat)
    ensures Between([AnySeq] + p, s, 0, b) <==> exists a :: Between(p, s, a, b)
  {
    hide StandsFor;
    var q := [AnySeq] + p;
    if Between(q, s, 0, b) {
      var cuts: seq<nat> :| Spans(q, s, cuts) && cuts[0] == 0 && cuts[|q|] == b;
      SpansRest(q, s, cuts);
      SpansAre(q, s, cuts);
      assert q[1..] == p && cuts[1..][0] == cuts[1] && cuts[1..][|p|] == b;
      assert Between(p, s, cuts[1], b);
    }
    if a :| Between(p, s, a, b) {
      var cuts: seq<nat> :| Spans(p, s, cuts) && cuts[0] == a && cuts[|p|] == b;
      SpansAre(p, s, cuts);
      SpansGrow(p, s, cuts, 0);
      EndIsAtEnd(s, 0, a);
      SpansBehind(p, s, cuts, AnySeq, 0);
      assert ([0] + cuts)[0] == 0 && ([0] + cuts)[|q|] == b;
    }
  }

  lemma {:induction false} SpansGrow(p: seq<Elem>, s: string, cuts: seq<nat>, k: nat)
    requires Spans(p, s, cuts) && k <= |p|
    ensures cuts[k] <= |s|
    decreases |p| - k
  {
    if k < |p| {
      assert StandsFor(p[k], s, cuts[k], cuts[k + 1]);
    }
  }

  /** A first or last "**" need not be doubled. */
  lemma OpenAlready(p: seq<Elem>, s: string, a: nat, b: nat)
    requires p != [] && Between(p, s, a, b)
    ensures p[0] == AnySeq ==> Between(p, s, 0, b)
    ensures p[|p| - 1] == AnySeq ==> Between(p, s, a, |s|)
  {
    hide StandsFor;
    var cuts: seq<nat> :| Spans(p, s, cuts) && cuts[0] == a && cuts[|p|] == b;
    SpansAre(p, s, cuts);
    var n := |p| - 1;
    if p[0] == AnySeq {
      EndIsAtEnd(s, a, cuts[1]);
      EndIsAtEnd(s, 0, cuts[1]);
      SpansRest(p, s, cuts);
      SpansBehind(p[1..], s, cuts[1..], AnySeq, 0);
      var c := [0] + cuts[1..];
      assert [AnySeq] + p[1..] == p && c[0] == 0 && c[|p|] == b;
    }
    if p[n] == AnySeq {
      EndIsAtEnd(s, cuts[n], b);
      EndIsAtEnd(s, cuts[n], |s|);
      SpansFirst(p, s, cuts, p[..n]);
      SpansLast(p[..n], s, cuts[..n + 1], AnySeq, |s|);
      var c := cuts[..n + 1] + [|s|];
      assert p[..n] + [AnySeq] == p && c[0] == a && c[|p|] == |s|;
    }
  }

  /** What a list of elements is finished to: a pattern for the whole line, or for any part of it. */
  lemma FinishedMatches(p: seq<Elem>, fullString: bool, s: string)
    ensures Accepts(Finished(p, fullString), s) <==>
      if fullString then Between(p, s, 0, |s|) else exists a, b :: Between(p, s, a, b)
  {
    hide Accepts, Between, Spans;
    if fullString {
      WholeLine(p, s);
    } else {
      var q := if p == [] || p[|p| - 1] != AnySeq then p + [AnySeq] else p;
      var r := if q[0] != AnySeq then [AnySeq] + q else q;
      WholeLine(r, s);
      OpenBeginning(q, s, |s|);
      forall a: nat, b: nat ensures Between(p, s, a, b) ==> Between(q, s, a, |s|) {
        OpenEnd(p, s, a);
        if Between(p, s, a, b) && q == p {
          OpenAlready(p, s, a, b);
        }
      }
      forall a: nat ensures Between(q, s, a, |s|) ==> Between(r, s, 0, |s|) && exists b :: Between(p, s, a, b) {
        OpenEnd(p, s, a);
        if Between(q, s, a, |s|) && r == q {
          OpenAlready(q, s, a, |s|);
        }
      }
    }
  }

  /** The ranges of every set come in pairs of ends. */
  predicate SetsArePairs(p: seq<Elem>) {
    forall k :: 0 <= k < |p| ==> (p[k].Set? ==> |p[k].chars| % 2 == 0) && (p[k].NegSet? ==> |p[k].chars| % 2 == 0)
  }

  lemma {:induction false} ElemsSetsArePairs(s: string, i: nat, dotted: bool, p: seq<Elem>)
    requires i <= |s| && ElemsFrom(s, i, dotted, p).Ok? && SetsArePairs(p)
    ensures SetsArePairs(ElemsFrom(s, i, dotted, p).value)
    decreases |s| - i, if EndsInLiteralElem(p) then 0 else 1
  {
    if i < |s| {
      var t := ElemAt(s, i, dotted, p).value;
      ElemsSetsArePairs(s, t.end, dotted, p + [t.value]);
    }
  }

  lemma CompiledSetsArePairs(s: string, dotted: bool, fullString: bool)
    requires Compiled(s, dotted, fullString).Ok?
    ensures SetsArePairs(Compiled(s, dotted, fullString).value)
  {
    ElemsSetsArePairs(s, 0, dotted, []);
  }

  lemma LastCharacters(line: string, text: string)
    requires EndsWith(line, 0, text) && |text| >= 2
    ensures |line| >= 2 && line[|line| - 1] == text[|text| - 1] && line[|line| - 2] == text[|text| - 2]
  {
    var tail := line[|line| - |text|..];
    assert tail[|text| - 1] == line[|line| - 1] && tail[|text| - 2] == line[|line| - 2];
  }

  // ----- The matcher object ---------------------------------------------------------------------

  class PatternMatcher {
    var pattern: seq<Elem>

    constructor ()
      ensures pattern == []
    {
      pattern := [];
    }

    static method SkipDigits(s: string, i: nat) returns (j: nat)
      requires i <= |s|
      ensures j == DigitsEnd(s, i)
    {
      j := i;
      while j < |s| && IsDigit(s[j])
        invariant i <= j <= |s| && DigitsEnd(s, j) == DigitsEnd(s, i)
      {
        j := j + 1;
      }
    }

    /** The number is read digit by digit. */
    static method ReadNumber(s: string, a: nat, b: nat) returns (n: nat)
      requires a <= b <= |s| && forall k :: a <= k < b ==> IsDigit(s[k])
      ensures n == Number(s, a, b)
    {
      n := 0;
      var j := a;
      while j < b
        invariant a <= j <= b && NumberFrom(s, j, b, n) == Number(s, a, b)
      {
        assert IsDigit(s[j]);
        n := 10 * n + (s[j] as int - '0' as int);
        j := j + 1;
      }
    }

    static method ParseNumRange(str: string, i: nat, closing: char) returns (r: Range)
      requires i < |str|
      ensures r == NumRangeAt(str, i, closing)
    {
      var lo: int, up: int := -1, -1;
      var s := i + 1;
      if s < |str| && IsDigit(str[s]) {
        var e := SkipDigits(str, s);
        lo := ReadNumber(str, s, e);
        s := e;
      }
      if !CharIs(str, s, '.') || !CharIs(str, s + 1, '.') {
        return NoRange;
      }
      s := s + 2;
      if s < |str| && IsDigit(str[s]) {
        var e := SkipDigits(str, s);
        up := ReadNumber(str, s, e);
        s := e;
      }
      if !CharIs(str, s, closing) {
        return NoRange;
      }
      return Range(s, lo, up);
    }

    static method ParseSet(str: string, i: nat) returns (r: Result<Token<Elem>>)
      requires i < |str|
      ensures r == SetAt(str, i)
    {
      var s := i + 1;
      var negated := false;
      if CharIs(str, s, '^') {
        negated := true;
        s := s + 1;
      }
      var begin, chars := s, "";
      PrependedNothing(SetFrom(str, s, true));
      while s < |str| && (str[s] != '}' || s == begin)
        invariant begin <= s <= |str| && Prepended(chars, SetFrom(str, s, s == begin)) == SetFrom(str, begin, true)
      {
        ghost var before, first := s, chars;
        var range: string;
        if CharIs(str, s + 1, '-') && s + 2 < |str| && str[s + 2] != '}' {
          range := [str[s], str[s + 2]];
          s := s + 3;
        } else {
          range := [str[s], str[s]];
          s := s + 1;
        }
        chars := chars + range;
        PrependedTwice(first, range, SetFrom(str, s, false));
      }
      if s == |str| {
        return Err(UnmatchedBrace);
      }
      assert chars + "" == chars;
      return Ok(Token(s + 1, if negated then NegSet(chars) else Set(chars)));
    }

    static method ParseLiteralString(str: string, i: nat) returns (r: Result<Token<Elem>>)
      requires i <= |str|
      ensures r == LiteralAt(str, i)
    {
      hide NumRangeAt;
      var s, text := i, "";
      PrependedNothing(LiteralFrom(str, s));
      while s < |str| && str[s] != '?' && str[s] != '{' && str[s] != '*'
        invariant i <= s <= |str| && Prepended(text, LiteralFrom(str, s)) == LiteralFrom(str, i)
      {
        ghost var first := text;
        if str[s] == '\\' {
          s := s + 1;
          if s == |str| {
            return Err(LoneBackslash);
          }
        }
        text := text + [str[s]];
        if str[s] == '[' {
          var range := ParseNumRange(str, s, ']');
          if range.Range? {
            return Ok(Token(s, Literal(text)));
          }
        }
        s := s + 1;
        PrependedTwice(first, [str[s - 1]], LiteralFrom(str, s));
      }
      assert text + "" == text;
      return Ok(Token(s, Literal(text)));
    }

    /** Splits the pattern; a set that is not closed and a backslash at the end are errors. */
    method SetPattern(patt: string, dottedPath: bool, fullString: bool) returns (error: Result<bool>)
      modifies this
      ensures match Compiled(patt, dottedPath, fullString)
              case Ok(p) => error.Ok? && pattern == p && Ended(pattern) && SetsArePairs(pattern)
              case Err(e) => error == Err(e)
    {
      pattern := [];
      var s := 0;
      while s < |patt|
        invariant s <= |patt| && ElemsFrom(patt, s, dottedPath, pattern) == ElemsFrom(patt, 0, dottedPath, [])
        decreases |patt| - s, if EndsInLiteralElem(pattern) then 0 else 1
      {
        var r := NextElem(patt, s, dottedPath);
        if r.Err? {
          return Err(r.error);
        }
        pattern := pattern + [r.value.value];
        s := r.value.end;
      }
      if Compiled(patt, dottedPath, fullString).Ok? {
        CompiledIsEnded(patt, dottedPath, fullString);
        CompiledSetsArePairs(patt, dottedPath, fullString);
      }
      if !fullString {
        if pattern == [] || pattern[|pattern| - 1] != AnySeq {
          pattern := pattern + [AnySeq];
        }
        if pattern[0] != AnySeq {
          pattern := [AnySeq] + pattern;
        }
      }
      pattern := pattern + [End];
      error := Ok(true);
    }

    method NextElem(patt: string, s: nat, dottedPath: bool) returns (r: Result<Token<Elem>>)
      requires s < |patt|
      ensures r == ElemAt(patt, s, dottedPath, pattern)
    {
      match patt[s] {
        case '?' =>
          r := Ok(Token(s + 1, if dottedPath then CommonChar else AnyChar));
        case '[' =>
          var range := NoRange;
          if pattern != [] && pattern[|pattern| - 1].Literal? {
            range := ParseNumRange(patt, s, ']');
          }
          if range.Range? {
            r := Ok(Token(range.end, NumRange(range.from, range.to)));
          } else {
            r := ParseLiteralString(patt, s);
          }
        case '{' =>
          var range := ParseNumRange(patt, s, '}');
          if range.Range? {
            r := Ok(Token(range.end + 1, NumRange(range.from, range.to)));
          } else {
            r := ParseSet(patt, s);
          }
        case '*' =>
          if CharIs(patt, s + 1, '*') {
            r := Ok(Token(s + 2, AnySeq));
          } else {
            r := Ok(Token(s + 1, if dottedPath then CommonSeq else AnySeq));
          }
        case _ =>
          r := ParseLiteralString(patt, s);
      }
    }

    static method IsInSet(c: char, set_: string) returns (r: bool)
      requires |set_| % 2 == 0
      ensures r <==> InSet(c, set_)
    {
      var i := 0;
      while i < |set_|
        invariant 0 <= i <= |set_| && i % 2 == 0
        invariant forall j :: 0 <= j < i && j % 2 == 0 && j + 1 < |set_| ==> !(set_[j] <= c <= set_[j + 1])
      {
        if c >= set_[i] && c <= set_[i + 1] {
          return true;
        }
        i := i + 2;
      }
      return false;
    }

    /** Matches the line from start on against the elements from first on, with shortcuts for "**" near the end. */
    method DoMatch(line: string, start: nat, first: nat) returns (r: bool)
      requires start <= |line| && first < |pattern| && Ended(pattern) && SetsArePairs(pattern)
      ensures r <==> InLanguage(pattern, first, line, start)
      decreases |pattern| - first, 1
    {
      var s: nat, k := start, first;
      while true
        invariant s <= |line| && first <= k < |pattern|
        invariant InLanguage(pattern, k, line, s) <==> InLanguage(pattern, first, line, start)
        decreases |pattern| - k
      {
        if pattern[k] == End {
          LastPiece(pattern, line, s);
          return s == |line|;
        }
        if pattern[k] == AnySeq {
          r := MatchAnySeq(line, s, k);
          return;
        }
        if pattern[k] == CommonSeq {
          r := MatchSeq(line, s, k);
          return;
        }
        var next := MatchOne(line, s, k);
        if next < 0 {
          return false;
        }
        s := next;
        k := k + 1;
      }
    }

    /** An element that stands for a piece of fixed extent: where the piece ends, or -1 if the line has none. */
    method MatchOne(line: string, s: nat, k: nat) returns (next: int)
      requires s <= |line| && k + 1 < |pattern| && SetsArePairs(pattern) && pattern[k] !in {End, AnySeq, CommonSeq}
      ensures next < 0 ==> !InLanguage(pattern, k, line, s)
      ensures next >= 0 ==> next <= |line| && (InLanguage(pattern, k, line, s) <==>
        InLanguage(pattern, k + 1, line, next))
    {
      FirstPiece(pattern, k, line, s);
      next := -1;
      match pattern[k] {
        case Literal(text) =>
          if s + |text| <= |line| && line[s..s + |text|] == text {
            next := s + |text|;
          }
        case AnyChar =>
          if s < |line| {
            next := s + 1;
          }
        case CommonChar =>
          if s < |line| && line[s] != '.' {
            next := s + 1;
          }
        case Set(chars) =>
          if s < |line| {
            var inSet := IsInSet(line[s], chars);
            if inSet {
              next := s + 1;
            }
          }
        case NegSet(chars) =>
          if s < |line| {
            var inSet := IsInSet(line[s], chars);
            if !inSet {
              next := s + 1;
            }
          }
        case NumRange(from, to) =>
          forall b: nat | StandsFor(NumRange(from, to), line, s, b) ensures s < |line| && IsDigit(line[s]) &&
            b == DigitsEnd(line, s) {
            NumberPiece(line, s, b, from, to);
          }
          NumberPiece(line, s, DigitsEnd(line, s), from, to);
          if s < |line| && IsDigit(line[s]) {
            var e := SkipDigits(line, s);
            var num := ReadNumber(line, s, e);
            if !((from >= 0 && num < from) || (to >= 0 && num > to)) {
              next := e;
            }
          }
      }
      assert forall b: nat :: StandsFor(pattern[k], line, s, b) <==> next >= 0 && b == next;
      if next >= 0 {
        var end: nat := next;
        assert StandsFor(pattern[k], line, s, end);
      }
    }

    /** "**": whatever is left, if it is last; whatever ends in the literal, if only a literal follows. */
    method MatchAnySeq(line: string, s: nat, k: nat) returns (r: bool)
      requires s <= |line| && k + 1 < |pattern| && Ended(pattern) && SetsArePairs(pattern) && pattern[k] == AnySeq
      ensures r <==> InLanguage(pattern, k, line, s)
      decreases |pattern| - k, 0
    {
      if k == |pattern| - 2 {
        TrailingAnySeq(pattern, line, s);
        return true;
      }
      if k == |pattern| - 3 && pattern[k + 1].Literal? {
        TrailingAnySeqLiteral(pattern, line, s);
        return EndsWith(line, s, pattern[k + 1].text);
      }
      r := MatchSeq(line, s, k);
    }

    /** A sequence element: the rest of the pattern is tried at one place after the other. */
    method MatchSeq(line: string, start: nat, k: nat) returns (r: bool)
      requires start <= |line| && k + 1 < |pattern| && Ended(pattern) && SetsArePairs(pattern) &&
        pattern[k] in {AnySeq, CommonSeq}
      ensures r <==> InLanguage(pattern, k, line, start)
      decreases |pattern| - k - 1, 2
    {
      FirstPiece(pattern, k, line, start);
      var s: nat, rest := start, k + 1;
      while true
        invariant start <= s <= |line|
        invariant pattern[k] == CommonSeq ==> forall j :: start <= j < s ==> line[j] != '.'
        invariant forall j: nat :: start <= j < s ==> !InLanguage(pattern, rest, line, j)
        decreases |line| - s
      {
        r := DoMatch(line, s, rest);
        if r {
          assert StandsFor(pattern[k], line, start, s);
          return;
        }
        if s == |line| || (pattern[k] == CommonSeq && line[s] == '.') {
          assert forall j: nat :: StandsFor(pattern[k], line, start, j) ==> j <= s;
          return;
        }
        s := s + 1;
      }
    }

    /** The line matches exactly if it is in the language of the pattern: comparing the last two characters first, like
        the other shortcuts, changes nothing. */
    method Matches(line: string) returns (r: bool)
      requires Ended(pattern) && SetsArePairs(pattern)
      ensures r <==> Accepts(pattern, line)
    {
      if |pattern| >= 2 && pattern[|pattern| - 2].Literal? {
        var text := pattern[|pattern| - 2].text;
        if |text| >= 2 && |line| >= 2 && (line[|line| - 1] != text[|text| - 1] ||
          line[|line| - 2] != text[|text| - 2]) {
          if Accepts(pattern, line) {
            EndsInLiteral(pattern, line);
            LastCharacters(line, text);
          }
          return false;
        }
      }
      r := DoMatch(line, 0, 0);
    }
  }

  function Prepended(text: string, r: Result<Token<string>>): Result<Token<string>> {
    match r
    case Err(e) => Err(e)
    case Ok(t) => Ok(Token(t.end, text + t.value))
  }

  lemma PrependedNothing(r: Result<Token<string>>)
    ensures Prepended("", r) == r
  {
    if r.Ok? {
      assert "" + r.value.value == r.value.value;
    }
  }

  lemma PrependedTwice(a: string, b: string, r: Result<Token<string>>)
    ensures Prepended(a + b, r) == Prepended(a, Prepended(b, r))
  {
    if r.Ok? {
      assert a + b + r.value.value == a + (b + r.value.value);
    }
  }

  // ----- Patterns without wildcards ----------------------------------------------------------------

  ghost predicate HasDots(s: string) { exists i :: 0 <= i < |s| - 1 && s[i] == '.' && s[i + 1] == '.' }

  ghost predicate ContainsWildcards(s: string) { '?' in s || '*' in s || '\\' in s || '{' in s || HasDots(s) }

  lemma NoDotsNoRange(s: string, i: nat, closing: char)
    requires i < |s| && !HasDots(s)
    ensures NumRangeAt(s, i, closing) == NoRange
  {
  }

  lemma {:induction false} PlainLiteral(s: string, i: nat)
    requires i <= |s| && !ContainsWildcards(s)
    ensures LiteralFrom(s, i) == Ok(Token(|s|, s[i..]))
    decreases |s| - i
  {
    if i < |s| {
      assert s[i] in s;
      NoDotsNoRange(s, i, ']');
      PlainLiteral(s, i + 1);
      assert s[i..] == [s[i]] + s[i + 1..];
    } else {
      assert s[i..] == "";
    }
  }

  /** A pattern without wildcards is one literal. */
  lemma PlainElems(s: string, dotted: bool)
    requires !ContainsWildcards(s)
    ensures ElemsFrom(s, 0, dotted, []) == Ok(if s == "" then [] else [Literal(s)])
  {
    if s != "" {
      assert s[0] in s;
      PlainLiteral(s, 0);
      assert s[0..] == s;
      assert ElemAt(s, 0, dotted, []) == Ok(Token(|s|, Literal(s)));
      assert [] + [Literal(s)] == [Literal(s)];
      assert ElemsFrom(s, |s|, dotted, [Literal(s)]) == Ok([Literal(s)]);
    }
  }

  lemma OneLiteral(text: string, line: string)
    ensures Accepts([Literal(text), End], line) <==> line == text
  {
    TrailingLiteral([Literal(text), End], line, 0);
    assert line[0..] == line;
  }

  ghost predicate Occurs(text: string, line: string) { exists i :: OccursAt(text, line, i) }

  predicate OccursAt(text: string, line: string, i: nat) { i + |text| <= |line| && line[i..i + |text|] == text }

  lemma LiteralInside(text: string, line: string)
    ensures Accepts([AnySeq, Literal(text), AnySeq, End], line) <==> Occurs(text, line)
  {
    var p := [AnySeq, Literal(text), AnySeq, End];
    FirstPiece(p, 0, line, 0);
    if Accepts(p, line) {
      var i: nat :| StandsFor(p[0], line, 0, i) && InLanguage(p, 1, line, i);
      FirstPiece(p, 1, line, i);
      var j: nat :| StandsFor(p[1], line, i, j) && InLanguage(p, 2, line, j);
      assert j == i + |text|;
      assert OccursAt(text, line, i);
    }
    if Occurs(text, line) {
      var i: nat :| OccursAt(text, line, i);
      FirstPiece(p, 1, line, i);
      TrailingAnySeq(p, line, i + |text|);
      assert StandsFor(p[1], line, i, i + |text|);
      assert StandsFor(p[0], line, 0, i);
    }
  }

  /** One literal alone matches itself; or, for a match of a part, the lines it occurs in. */
  lemma OneLiteralMatches(s: string, fullString: bool, line: string)
    ensures Accepts(Finished(if s == "" then [] else [Literal(s)], fullString), line) <==>
      if fullString then line == s else Occurs(s, line)
  {
    if s == "" {
      if fullString {
        LastPiece([End], line, 0);
        assert [] + [End] == [End];
      } else {
        TrailingAnySeq([AnySeq, End], line, 0);
        assert [] + [AnySeq] + [End] == [AnySeq, End];
        assert OccursAt("", line, 0);
      }
    } else if fullString {
      OneLiteral(s, line);
      assert [Literal(s)] + [End] == [Literal(s), End];
    } else {
      LiteralInside(s, line);
      assert [AnySeq] + ([Literal(s)] + [AnySeq]) + [End] == [AnySeq, Literal(s), AnySeq, End];
    }
  }

  /** Without wildcards a line matches if it is the pattern; or, for a match of a part, if the pattern occurs in it. */
  lemma PlainPattern(s: string, dotted: bool, fullString: bool, line: string)
    requires !ContainsWildcards(s)
    ensures var c := Compiled(s, dotted, fullString);
      c.Ok? && (Accepts(c.value, line) <==> if fullString then line == s else Occurs(s, line))
  {
    PlainElems(s, dotted);
    OneLiteralMatches(s, fullString, line);
  }

  // ----- Backslashes --------------------------------------------------------------------------------

  /** The text with a backslash before every character. */
  function Escaped(text: string): (r: string)
    ensures |r| == 2 * |text|
  {
    if text == "" then "" else ['\\', text[0]] + Escaped(text[1..])
  }

  lemma Ahead(s: string, i: nat, x: string, rest: string)
    requires i <= |s| && s[i..] == x + rest
    ensures i + |x| <= |s| && s[i + |x|..] == rest && forall k :: 0 <= k < |x| ==> s[i + k] == x[k]
    ensures rest != "" ==> i + |x| < |s| && s[i + |x|] == rest[0]
  {
    forall k | 0 <= k < |x| ensures s[i + k] == x[k] {
      assert s[i..][k] == s[i + k];
    }
    assert s[i..][|x|..] == s[i + |x|..];
    assert rest != "" ==> s[i..][|x|] == s[i + |x|];
  }

  /** An escaped text is one literal, whatever special character comes next. */
  lemma {:induction false} EscapedAhead(s: string, i: nat, text: string, rest: string)
    requires i <= |s| && s[i..] == Escaped(text) + rest && (rest == "" || rest[0] in {'?', '{', '*'})
    ensures LiteralFrom(s, i) == Ok(Token(i + 2 * |text|, text))
    decreases |text|
  {
    hide NumRangeAt;
    if text == "" {
      Ahead(s, i, "", rest);
    } else {
      var x := ['\\', text[0]];
      assert Escaped(text) + rest == x + (Escaped(text[1..]) + rest);
      Ahead(s, i, x, Escaped(text[1..]) + rest);
      NoRangeAfterBracket(s, i + 1);
      EscapedAhead(s, i + 2, text[1..], rest);
      assert [text[0]] + text[1..] == text;
    }
  }

  lemma NoRangeAfterBracket(s: string, i: nat)
    requires i < |s| && (i + 1 == |s| || s[i + 1] in {'?', '{', '*', '\\'})
    ensures NumRangeAt(s, i, ']') == NoRange
  {
  }

  /** Any text can be matched by escaping every character of it. */
  lemma EscapedMatchesItself(text: string, dotted: bool, line: string)
    ensures var c := Compiled(Escaped(text), dotted, true); c.Ok? && (Accepts(c.value, line) <==> line == text)
  {
    var s := Escaped(text);
    if text == "" {
      LastPiece([End], line, 0);
      assert [] + [End] == [End];
    } else {
      assert s[0] == '\\' && s[0..] == Escaped(text) + "";
      EscapedAhead(s, 0, text, "");
      assert [] + [Literal(text)] == [Literal(text)];
      assert ElemsFrom(s, |s|, dotted, [Literal(text)]) == Ok([Literal(text)]);
      OneLiteral(text, line);
      assert [Literal(text)] + [End] == [Literal(text), End];
    }
  }

  /** What follows the digits that come first. */
  function AfterDigits(s: string): string { if s != "" && IsDigit(s[0]) then AfterDigits(s[1..]) else s }

  /** Two numbers with two dots between them, or less, up to the bracket that closes the range, come first. */
  predicate BoundsAhead(s: string) { ".." <= AfterDigits(s) && "]" <= AfterBounds(s) }

  /** What follows the two numbers. */
  function AfterBounds(s: string): string
    requires ".." <= AfterDigits(s)
  {
    AfterDigits(AfterDigits(s)[2..])
  }

  /** A bracket that begins a numeric range comes first. */
  predicate RangeAhead(s: string) { "[" <= s && BoundsAhead(s[1..]) }

  lemma {:induction false} RestAfterDigits(s: string, i: nat)
    requires i <= |s|
    ensures s[DigitsEnd(s, i)..] == AfterDigits(s[i..])
    decreases |s| - i
  {
    if i < |s| && IsDigit(s[i]) {
      RestAfterDigits(s, i + 1);
      assert s[i..][1..] == s[i + 1..];
    }
  }

  lemma RangeOfRest(s: string, i: nat)
    requires i < |s|
    ensures BoundsAhead(s[i + 1..]) <==> NumRangeAt(s, i, ']').Range?
    ensures BoundsAhead(s[i + 1..]) ==> s[NumRangeAt(s, i, ']').end..] == AfterBounds(s[i + 1..])
    ensures RangeAhead(s[i..]) <==> s[i] == '[' && NumRangeAt(s, i, ']').Range?
  {
    hide DigitsEnd, AfterDigits, Bound;
    var a := DigitsEnd(s, i + 1);
    assert s[i..][1..] == s[i + 1..];
    RestAfterDigits(s, i + 1);
    assert ".." <= s[a..] <==> CharIs(s, a, '.') && CharIs(s, a + 1, '.');
    if CharIs(s, a, '.') && CharIs(s, a + 1, '.') {
      var b := DigitsEnd(s, a + 2);
      RestAfterDigits(s, a + 2);
      assert s[a..][2..] == s[a + 2..];
      assert "]" <= s[b..] <==> CharIs(s, b, ']');
    }
  }

  /** A backslash makes the next character part of the literal, and no more, unless that character is the bracket of a
      numeric range: then the literal ends after it, and the range is still one. */
  lemma EscapedCharacter(s: string, i: nat, dotted: bool, p: seq<Elem>)
    requires i + 1 < |s| && s[i] == '\\' && ElemAt(s, i, dotted, p).Ok?
    ensures var t := ElemAt(s, i, dotted, p).value;
      t.value.Literal? && s[i + 1..i + 2] <= t.value.text && (t.end == i + 1 <==> RangeAhead(s[i + 1..]))
    ensures RangeAhead(s[i + 1..]) ==> ElemAt(s, i, dotted, p) == Ok(Token(i + 1, Literal("[")))
  {
    RangeOfRest(s, i + 1);
  }

  predicate Special(c: char) { c in {'?', '*', '{', '[', '\\'} }

  /** The text with a backslash before every character that means something. */
  function Quoted(text: string): string {
    if text == "" then "" else (if Special(text[0]) then ['\\', text[0]] else [text[0]]) + Quoted(text[1..])
  }

  lemma QuotedFirst(u: string)
    requires u != ""
    ensures var q := Quoted(u);
      if Special(u[0]) then |q| > 1 && q[0] == '\\' && q[1] == u[0] && q[2..] == Quoted(u[1..])
      else q != "" && q[0] == u[0] && q[1..] == Quoted(u[1..])
  {
  }

  /** Quoting leaves digits as they are. */
  lemma {:induction false} QuotedDigits(u: string)
    ensures AfterDigits(Quoted(u)) == Quoted(AfterDigits(u))
  {
    if u != "" {
      QuotedFirst(u);
      if IsDigit(u[0]) {
        QuotedDigits(u[1..]);
      }
    }
  }

  /** So a bracket begins a range in the quoted text if and only if it does in the text. */
  lemma QuotedBounds(u: string)
    ensures BoundsAhead(Quoted(u)) <==> BoundsAhead(u)
    ensures BoundsAhead(u) ==> AfterBounds(Quoted(u)) == Quoted(AfterBounds(u))
  {
    QuotedDigits(u);
    var v := AfterDigits(u);
    if v != "" {
      QuotedFirst(v);
      if |v| > 1 {
        QuotedFirst(v[1..]);
        assert v[1..][1..] == v[2..] && Quoted(v)[1..][1..] == Quoted(v)[2..];
        var w := AfterDigits(v[2..]);
        QuotedDigits(v[2..]);
        if w != "" {
          QuotedFirst(w);
        }
      }
    }
  }

  /** Somewhere in the text a bracket begins a numeric range. */
  predicate HasRange(text: string) { text != "" && (RangeAhead(text) || HasRange(text[1..])) }

  function FirstRange(text: string): (n: nat)
    requires HasRange(text)
    ensures n < |text| && RangeAhead(text[n..])
  {
    if RangeAhead(text) then assert text[0..] == text; 0
    else
      var n := FirstRange(text[1..]);
      assert text[1..][n..] == text[n + 1..];
      n + 1
  }

  lemma RangeAheadOf(u: string)
    requires u != "" && u[0] == '['
    ensures RangeAhead("[" + Quoted(u[1..])) <==> RangeAhead(u)
  {
    var v := "[" + Quoted(u[1..]);
    assert v[1..] == Quoted(u[1..]);
    QuotedBounds(u[1..]);
  }

  /** One character of the text, quoted or not, is read. */
  lemma QuotedStep(s: string, i: nat, u: string)
    requires i < |s| && s[i..] == Quoted(u)
    ensures u != "" && s[i] !in {'?', '{', '*'} && (RangeAhead(u) ==> s[i] == '\\' && u[0] == '[')
    ensures var j := if s[i] == '\\' then i + 1 else i;
      j < |s| && s[j] == u[0] && s[j + 1..] == Quoted(u[1..]) &&
        (s[j] == '[' && NumRangeAt(s, j, ']').Range? <==> RangeAhead(u))
  {
    hide NumRangeAt, BoundsAhead;
    QuotedFirst(u);
    var j := if s[i] == '\\' then i + 1 else i;
    assert s[i] == s[i..][0] && (Special(u[0]) ==> s[i + 1] == s[i..][1]);
    assert s[i..][1..] == s[i + 1..] && (Special(u[0]) ==> s[i..][2..] == s[i + 2..]);
    if s[j] == '[' {
      RangeOfRest(s, j);
      RangeAheadOf(u);
      assert s[j..] == "[" + Quoted(u[1..]);
    }
  }

  /** A quoted text without ranges is read as one literal. */
  lemma {:induction false} QuotedLiteral(s: string, i: nat, u: string)
    requires i <= |s| && s[i..] == Quoted(u) && !HasRange(u)
    ensures LiteralFrom(s, i) == Ok(Token(|s|, u))
    decreases |u|
  {
    hide NumRangeAt, RangeAhead, Special, Quoted;
    if i == |s| {
      QuotedNothing(u);
    } else {
      QuotedStep(s, i, u);
      var j := if s[i] == '\\' then i + 1 else i;
      QuotedLiteral(s, j + 1, u[1..]);
      assert [u[0]] + u[1..] == u;
    }
  }

  /** With a range the literal ends with its bracket. */
  lemma {:induction false} QuotedLiteralEnds(s: string, i: nat, u: string)
    requires i < |s| && s[i..] == Quoted(u) && HasRange(u)
    ensures var r, n := LiteralFrom(s, i), FirstRange(u);
      r.Ok? && i < r.value.end && r.value.value == u[..n + 1] && s[r.value.end..] == "[" + Quoted(u[n + 1..])
    decreases |u|
  {
    hide NumRangeAt, RangeAhead, Special, Quoted;
    QuotedStep(s, i, u);
    var j := if s[i] == '\\' then i + 1 else i;
    if RangeAhead(u) {
      assert u[..1] == [u[0]] && s[j..] == "[" + s[j + 1..];
    } else {
      QuotedSomething(s, j + 1, u[1..]);
      QuotedLiteralEnds(s, j + 1, u[1..]);
      PartsOfRest(u, FirstRange(u[1..]));
    }
  }

  lemma PartsOfRest(u: string, n: nat)
    requires n + 1 < |u|
    ensures [u[0]] + u[1..][..n + 1] == u[..n + 2] && u[1..][n + 1..] == u[n + 2..]
  {
  }

  lemma QuotedSomething(s: string, i: nat, u: string)
    requires i <= |s| && s[i..] == Quoted(u) && u != ""
    ensures i < |s|
  {
    QuotedFirst(u);
  }

  lemma QuotedNothing(u: string)
    requires Quoted(u) == ""
    ensures u == ""
  {
    if u != "" {
      QuotedFirst(u);
    }
  }

  /** The range after such a literal is an element of its own, up to the bracket that closes it. */
  lemma RangeElem(s: string, i: nat, v: string, dotted: bool, p: seq<Elem>)
    requires i <= |s| && s[i..] == "[" + Quoted(v) && BoundsAhead(v) && EndsInLiteralElem(p)
    ensures i < |s| && ElemAt(s, i, dotted, p).Ok?
    ensures var t := ElemAt(s, i, dotted, p).value; t.value.NumRange? && s[t.end..] == Quoted(AfterBounds(v))
  {
    hide NumRangeAt, BoundsAhead, AfterBounds;
    assert s[i] == s[i..][0] && s[i..][1..] == s[i + 1..];
    QuotedBounds(v);
    RangeOfRest(s, i);
  }

  function Brackets(s: string): nat { if s == "" then 0 else (if s[0] == '[' then 1 else 0) + Brackets(s[1..]) }

  lemma {:induction false} BracketsJoined(a: string, b: string)
    ensures Brackets(a + b) == Brackets(a) + Brackets(b)
  {
    if a == "" {
      assert a + b == b;
    } else {
      assert (a + b)[1..] == a[1..] + b;
      BracketsJoined(a[1..], b);
    }
  }

  /** There are no brackets between the two ends of a range. */
  lemma {:induction false} BracketsAfterDigits(s: string)
    ensures Brackets(AfterDigits(s)) == Brackets(s) && |AfterDigits(s)| <= |s|
  {
    if s != "" && IsDigit(s[0]) {
      BracketsAfterDigits(s[1..]);
    }
  }

  lemma BracketsAfterBounds(s: string)
    requires BoundsAhead(s)
    ensures Brackets(AfterBounds(s)) == Brackets(s) && |AfterBounds(s)| < |s|
  {
    var v := AfterDigits(s);
    BracketsAfterDigits(s);
    BracketsAfterDigits(v[2..]);
    assert v[1..][1..] == v[2..];
  }

  function LiteralBrackets(p: seq<Elem>): nat {
    if p == [] then 0 else (if p[0].Literal? then Brackets(p[0].text) else 0) + LiteralBrackets(p[1..])
  }

  lemma {:induction false} LiteralBracketsJoined(p: seq<Elem>, q: seq<Elem>)
    ensures LiteralBrackets(p + q) == LiteralBrackets(p) + LiteralBrackets(q)
  {
    if p == [] {
      assert p + q == q;
    } else {
      assert (p + q)[1..] == p[1..] + q;
      LiteralBracketsJoined(p[1..], q);
    }
  }

  lemma QuotedElem(s: string, i: nat, u: string, dotted: bool, p: seq<Elem>)
    requires i < |s| && s[i..] == Quoted(u)
    ensures u != ""
    ensures !HasRange(u) ==> ElemAt(s, i, dotted, p) == Ok(Token(|s|, Literal(u)))
    ensures HasRange(u) ==>
      var r, n := ElemAt(s, i, dotted, p), FirstRange(u);
      r.Ok? && i < r.value.end && r.value.value == Literal(u[..n + 1]) && s[r.value.end..] == "[" + Quoted(u[n + 1..])
  {
    if HasRange(u) {
      QuotedLiteralEnds(s, i, u);
    } else {
      QuotedLiteral(s, i, u);
    }
    QuotedStep(s, i, u);
    QuotedFirst(u);
    assert s[i] == s[i..][0];
  }

  lemma BoundsBegin(s: string)
    requires BoundsAhead(s)
    ensures ".." <= AfterDigits(s)
  {
  }

  /** Up to its first range a quoted text is read as two elements. */
  lemma QuotedTwoElems(s: string, i: nat, u: string, dotted: bool, p: seq<Elem>) returns (j: nat, range: Elem)
    requires i < |s| && s[i..] == Quoted(u) && HasRange(u)
    ensures var n := FirstRange(u);
      BoundsAhead(u[n + 1..]) && ".." <= AfterDigits(u[n + 1..]) && j <= |s| &&
        s[j..] == Quoted(AfterBounds(u[n + 1..])) && range.NumRange? &&
      ElemsFrom(s, i, dotted, p) == ElemsFrom(s, j, dotted, p + [Literal(u[..n + 1]), range])
  {
    hide ElemAt, Quoted, BoundsAhead, AfterBounds;
    QuotedElem(s, i, u, dotted, p);
    var n := FirstRange(u);
    assert u[n..][1..] == u[n + 1..];
    var t := ElemAt(s, i, dotted, p).value;
    var p1 := p + [t.value];
    BoundsBegin(u[n + 1..]);
    RangeElem(s, t.end, u[n + 1..], dotted, p1);
    var t2 := ElemAt(s, t.end, dotted, p1).value;
    j, range := t2.end, t2.value;
    assert p1 + [range] == p + [t.value, range];
    assert s[t.end..] != "";
  }

  /** The brackets before and after the first range are those of the text. */
  lemma BracketsOfText(u: string)
    requires HasRange(u)
    ensures var n := FirstRange(u); var v := u[n + 1..];
      BoundsAhead(v) && ".." <= AfterDigits(v) && |AfterBounds(v)| < |u| &&
      Brackets(u) == Brackets(u[..n + 1]) + Brackets(AfterBounds(v)) &&
      Brackets(AfterBounds(v)) == Brackets(v) && "]" <= AfterBounds(v)
  {
    hide FirstRange, HasRange, Brackets, AfterBounds, AfterDigits;
    var n := FirstRange(u);
    var v := u[n + 1..];
    assert u[n..][1..] == v;
    BracketsAfterBounds(v);
    assert u[..n + 1] + v == u;
    BracketsJoined(u[..n + 1], v);
  }

  lemma BracketsWithRange(p: seq<Elem>, text: string, range: Elem)
    requires range.NumRange?
    ensures LiteralBrackets(p + [Literal(text), range]) == LiteralBrackets(p) + Brackets(text)
    ensures LiteralBrackets(p + [Literal(text)]) == LiteralBrackets(p) + Brackets(text)
  {
    LiteralBracketsJoined(p, [Literal(text), range]);
    LiteralBracketsJoined(p, [Literal(text)]);
    assert [Literal(text), range][1..] == [range] && [Literal(text)][1..] == [] == [range][1..];
  }

  /** The first range and what comes before it keep the brackets. */
  lemma QuotedRangeHead(s: string, i: nat, u: string, dotted: bool, p: seq<Elem>)
    returns (j: nat, p': seq<Elem>, w: string)
    requires i < |s| && s[i..] == Quoted(u) && HasRange(u)
    ensures j <= |s| && s[j..] == Quoted(w) && |w| < |u| && ElemsFrom(s, i, dotted, p) == ElemsFrom(s, j, dotted, p')
    ensures LiteralBrackets(p') + Brackets(w) == LiteralBrackets(p) + Brackets(u)
    ensures |p'| > |p| && p <= p' && p'[|p|].Literal? && u[..1] <= p'[|p|].text
  {
    hide *;
    var range;
    j, range := QuotedTwoElems(s, i, u, dotted, p);
    BracketsOfText(u);
    var n := FirstRange(u);
    w := AfterBounds(u[n + 1..]);
    p' := p + [Literal(u[..n + 1]), range];
    BracketsWithRange(p, u[..n + 1], range);
    assert u[..n + 1][..1] == u[..1];
  }

  lemma QuotedRest(s: string, i: nat, u: string, dotted: bool, p: seq<Elem>)
    requires i <= |s| && s[i..] == Quoted(u) && !HasRange(u)
    ensures ElemsFrom(s, i, dotted, p) == Ok(if u == "" then p else p + [Literal(u)])
    ensures LiteralBrackets(if u == "" then p else p + [Literal(u)]) == LiteralBrackets(p) + Brackets(u)
  {
    if i == |s| {
      QuotedNothing(u);
    } else {
      hide Quoted, ElemAt, Brackets, LiteralBrackets;
      QuotedElem(s, i, u, dotted, p);
      BracketsWithRange(p, u, NumRange(0, 0));
      assert ElemsFrom(s, |s|, dotted, p + [Literal(u)]) == Ok(p + [Literal(u)]);
    }
  }

  /** Every bracket of a quoted text is in a literal. */
  lemma {:induction false} QuotedElems(s: string, i: nat, u: string, dotted: bool, p: seq<Elem>)
    requires i <= |s| && s[i..] == Quoted(u)
    ensures var r := ElemsFrom(s, i, dotted, p);
      r.Ok? && p <= r.value && LiteralBrackets(r.value) == LiteralBrackets(p) + Brackets(u) &&
      (u != "" ==> |r.value| > |p| && r.value[|p|].Literal? && u[..1] <= r.value[|p|].text)
    decreases |u|
  {
    hide *;
    if HasRange(u) {
      RangeIsThere(s, i, u);
      var j, p', w := QuotedRangeHead(s, i, u, dotted, p);
      QuotedElems(s, j, w, dotted, p');
    } else {
      QuotedRest(s, i, u, dotted, p);
    }
  }

  lemma RangeIsThere(s: string, i: nat, u: string)
    requires i <= |s| && s[i..] == Quoted(u) && HasRange(u)
    ensures i < |s|
  {
    QuotedSomething(s, i, u);
  }

  /** A line has at least the brackets of the literals it is matched with. */
  lemma {:induction false} BracketsMatched(p: seq<Elem>, k: nat, line: string, i: nat)
    requires k <= |p| && i <= |line| && InLanguage(p, k, line, i)
    ensures Brackets(line[i..]) >= LiteralBrackets(p[k..])
    decreases |p| - k
  {
    if k < |p| {
      FirstPiece(p, k, line, i);
      var j: nat :| StandsFor(p[k], line, i, j) && InLanguage(p, k + 1, line, j);
      BracketsMatched(p, k + 1, line, j);
      assert line[i..] == line[i..j] + line[j..];
      BracketsJoined(line[i..j], line[j..]);
      assert p[k..][1..] == p[k + 1..];
    }
  }

  /** Where a literal, a number and a bracket have been matched. */
  lemma LiteralNumberBracket(q: seq<Elem>, o: nat, line: string, a: nat) returns (b: nat)
    requires o + 2 < |q| && a <= |line| && InLanguage(q, o, line, a)
    requires q[o].Literal? && q[o + 1].NumRange? && q[o + 2].Literal? && "]" <= q[o + 2].text
    ensures var m := a + |q[o].text|;
      m < b < |line| && line[a..m] == q[o].text && IsDigit(line[m]) && b == DigitsEnd(line, m) && line[b] == ']' &&
      InLanguage(q, o + 2, line, b)
  {
    hide InLanguage, DigitsEnd;
    FirstPiece(q, o, line, a);
    var m := a + |q[o].text|;
    FirstPiece(q, o + 1, line, m);
    b :| StandsFor(q[o + 1], line, m, b) && InLanguage(q, o + 2, line, b);
    NumberPiece(line, m, b, q[o + 1].from, q[o + 1].to);
    FirstPiece(q, o + 2, line, b);
    var c: nat :| StandsFor(q[o + 2], line, b, c);
    assert line[b] == line[b..c][0];
  }

  /** The first range begins with a bracket, and after the digits behind it comes a dot. */
  lemma FirstRangeIs(text: string)
    requires HasRange(text)
    ensures var n := FirstRange(text);
      text[n] == '[' == text[..n + 1][n] && DigitsEnd(text, n + 1) < |text| && text[DigitsEnd(text, n + 1)] == '.'
  {
    hide FirstRange, HasRange, AfterDigits;
    var n := FirstRange(text);
    assert text[n] == text[n..][0] && text[n..][1..] == text[n + 1..];
    RestAfterDigits(text, n + 1);
    var d := DigitsEnd(text, n + 1);
    assert text[d] == text[d..][0];
  }

  /** The elements of a quoted text up to its first range, and what follows, match the text from a on only if a later
      bracket of it stands for that of the range; but then there are not enough brackets left. */
  lemma RangeMissesItself(q: seq<Elem>, o: nat, text: string, a: nat)
    requires HasRange(text) && a <= |text| && o + 2 < |q|
    requires q[o] == Literal(text[..FirstRange(text) + 1]) && q[o + 1].NumRange? && q[o + 2].Literal? &&
      "]" <= q[o + 2].text
    requires LiteralBrackets(q[o + 2..]) >= Brackets(text[FirstRange(text) + 1..])
    ensures !InLanguage(q, o, text, a)
  {
    hide *;
    var n := FirstRange(text);
    FirstRangeIs(text);
    if InLanguage(q, o, text, a) {
      var b := LiteralNumberBracket(q, o, text, a);
      if a != 0 {
        assert text[a + n] == text[a..a + n + 1][n];
        BracketsMatched(q, o + 2, text, b);
        BracketsAfter(text, n + 1, a + n, b);
      }
      assert false;
    }
  }

  lemma BracketsAfter(s: string, i: nat, j: nat, k: nat)
    requires i <= j < k <= |s| && s[j] == '['
    ensures Brackets(s[i..]) > Brackets(s[k..])
  {
    assert s[i..] == s[i..j] + s[j..] && s[j..][1..] == s[j + 1..] == s[j + 1..k] + s[k..];
    BracketsJoined(s[i..j], s[j..]);
    BracketsJoined(s[j + 1..k], s[k..]);
  }

  /** What a quoted text with a range in it is compiled to begins like this, after "**" for a match of a part. */
  lemma QuotedRangeElems(text: string, dotted: bool, fullString: bool)
    requires HasRange(text)
    ensures var n, c, o := FirstRange(text), Compiled(Quoted(text), dotted, fullString), if fullString then 0 else 1;
      c.Ok? && o + 2 < |c.value| && (!fullString ==> c.value[0] == AnySeq) && c.value[o] == Literal(text[..n + 1]) &&
      c.value[o + 1].NumRange? && c.value[o + 2].Literal? && "]" <= c.value[o + 2].text &&
      LiteralBrackets(c.value[o + 2..]) >= Brackets(text[n + 1..])
  {
    hide Quoted, ElemAt, BoundsAhead, AfterBounds, FirstRange, HasRange, ElemsFrom;
    var s, n := Quoted(text), FirstRange(text);
    assert s[0..] == s;
    if s == "" {
      QuotedNothing(text);
    }
    var j, range := QuotedTwoElems(s, 0, text, dotted, []);
    BracketsOfText(text);
    var p := [Literal(text[..n + 1]), range];
    assert [] + p == p;
    QuotedElems(s, j, AfterBounds(text[n + 1..]), dotted, p);
    var r := ElemsFrom(s, 0, dotted, []).value;
    assert r == p + r[2..] && LiteralBrackets([range]) == 0 && p[1..] == [range];
    LiteralBracketsJoined(p, r[2..]);
    FinishedKeeps(r, fullString);
  }

  lemma FinishedKeeps(r: seq<Elem>, fullString: bool)
    requires |r| > 2 && r[0] != AnySeq
    ensures var c, o := Finished(r, fullString), if fullString then 0 else 1;
      |c| > o + |r| && c[o..o + |r|] == r && (!fullString ==> c[0] == AnySeq) &&
      LiteralBrackets(c[o + 2..]) >= LiteralBrackets(r[2..])
  {
    hide LiteralBrackets;
    var c, o := Finished(r, fullString), if fullString then 0 else 1;
    var tail := c[o + |r|..];
    assert c[o + 2..] == r[2..] + tail;
    LiteralBracketsJoined(r[2..], tail);
  }

  /** So it does not match that text. */
  lemma QuotedRangeFails(text: string, dotted: bool, fullString: bool)
    requires HasRange(text)
    ensures var c := Compiled(Quoted(text), dotted, fullString); c.Ok? && !Accepts(c.value, text)
  {
    hide Quoted, Compiled, FirstRange, HasRange, InLanguage, Brackets, LiteralBrackets;
    QuotedRangeElems(text, dotted, fullString);
    var c := Compiled(Quoted(text), dotted, fullString).value;
    if fullString {
      RangeMissesItself(c, 0, text, 0);
    } else {
      FirstPiece(c, 0, text, 0);
      forall a: nat | StandsFor(c[0], text, 0, a) ensures !InLanguage(c, 1, text, a) {
        RangeMissesItself(c, 1, text, a);
      }
    }
  }

  /** A text with a backslash before every character that means something matches exactly that text, or exactly the
      lines it occurs in, if and only if no bracket in it begins a numeric range. */
  lemma QuotedMatchesItself(text: string, dotted: bool, fullString: bool)
    ensures var c := Compiled(Quoted(text), dotted, fullString);
      c.Ok? &&
      ((forall line :: Accepts(c.value, line) <==> if fullString then line == text else Occurs(text, line)) <==>
        !HasRange(text))
  {
    if HasRange(text) {
      QuotedRangeFails(text, dotted, fullString);
      assert OccursAt(text, text, 0);
      var c := Compiled(Quoted(text), dotted, fullString).value;
      assert !(Accepts(c, text) <==> if fullString then text == text else Occurs(text, text));
    } else {
      var s := Quoted(text);
      assert s[0..] == s;
      if text != "" {
        QuotedElem(s, 0, text, dotted, []);
        assert ElemsFrom(s, |s|, dotted, [Literal(text)]) == Ok([Literal(text)]);
        assert [] + [Literal(text)] == [Literal(text)];
      }
      forall line ensures var c := Compiled(s, dotted, fullString);
        c.Ok? && (Accepts(c.value, line) <==> if fullString then line == text else Occurs(text, line)) {
        OneLiteralMatches(text, fullString, line);
      }
    }
  }

  /** The line ends in a bracket, and the digits from i up to it write a number of the range. */
  predicate NumberAndBracket(line: string, i: nat, from: int, to: int) {
    i + 1 < |line| && line[|line| - 1] == ']' && (forall k :: i <= k < |line| - 1 ==> IsDigit(line[k])) &&
    InRange(Number(line, i, |line| - 1), from, to)
  }

  lemma NumberIsInBracket(p: seq<Elem>, line: string, i: nat, from: int, to: int)
    requires |p| == 4 && p[1] == NumRange(from, to) && p[2] == Literal("]") && p[0] != End == p[3] && i <= |line|
    ensures InLanguage(p, 1, line, i) <==> NumberAndBracket(line, i, from, to)
  {
    hide InLanguage, DigitsEnd, Number;
    FirstPiece(p, 1, line, i);
    var e := DigitsEnd(line, i);
    TrailingLiteral(p, line, e);
    NumberPiece(line, i, e, from, to);
    if InLanguage(p, 1, line, i) {
      var b: nat :| StandsFor(p[1], line, i, b) && InLanguage(p, 2, line, b);
      NumberPiece(line, i, b, from, to);
      assert line[e] == line[e..][0] && |line[e..]| == 1;
    }
    if NumberAndBracket(line, i, from, to) {
      DigitsEndAt(line, i, |line| - 1);
      assert line[e..] == "]" && StandsFor(p[1], line, i, e);
    }
  }

  lemma BracketedRange(text: string, from: int, to: int, line: string)
    ensures Accepts([Literal(text), NumRange(from, to), Literal("]"), End], line) <==>
      text <= line && NumberAndBracket(line, |text|, from, to)
  {
    hide InLanguage, NumberAndBracket;
    var p := [Literal(text), NumRange(from, to), Literal("]"), End];
    FirstPiece(p, 0, line, 0);
    if |text| <= |line| {
      NumberIsInBracket(p, line, |text|, from, to);
      assert text <= line <==> StandsFor(p[0], line, 0, |text|);
    }
  }

  predicate Digits(a: string) { forall k :: 0 <= k < |a| ==> IsDigit(a[k]) }

  function BoundOf(a: string): int
    requires Digits(a)
  {
    if a == "" then -1 else Number(a, 0, |a|)
  }

  lemma DigitsInside(s: string, i: nat, a: string)
    requires i + |a| < |s| && Digits(a) && s[i..i + |a|] == a && !IsDigit(s[i + |a|])
    ensures DigitsEnd(s, i) == i + |a| && Bound(s, i) == BoundOf(a)
  {
    var e := i + |a|;
    forall k | i <= k < e ensures IsDigit(s[k]) {
      assert s[k] == s[i..e][k - i];
    }
    DigitsEndAt(s, i, e);
    NumberOfPart(s, i, e, 0);
  }

  lemma PartOf(x: string, a: string, y: string)
    ensures (x + a + y)[|x|..|x| + |a|] == a && forall k :: 0 <= k < |y| ==> (x + a + y)[|x| + |a| + k] == y[k]
  {
  }

  lemma RangeBetween(s: string, i: nat, m: nat, e: nat, closing: char)
    requires i < m && m + 2 <= e < |s| && DigitsEnd(s, i + 1) == m && DigitsEnd(s, m + 2) == e
    requires s[m] == '.' && s[m + 1] == '.' && s[e] == closing
    ensures NumRangeAt(s, i, closing) == Range(e, Bound(s, i + 1), Bound(s, m + 2))
  {
  }

  /** A numeric range with a backslash before its bracket. */
  function EscapedRange(a: string, b: string): string { "\\[" + a + ".." + b + "]" }

  lemma RangePlaces(a: string, b: string)
    ensures var s, m, e := EscapedRange(a, b), 2 + |a|, 4 + |a| + |b|;
      |s| == e + 1 && s[0] == '\\' && s[1] == '[' && s[2..m] == a && s[m] == '.' && s[m + 1] == '.' &&
        s[m + 2..e] == b &&
      s[e] == ']'
  {
    var x, y, z := "\\[", ".." + b + "]", "\\[" + a + "..";
    assert EscapedRange(a, b) == x + a + y == z + b + "]";
    PartOf(x, a, y);
    PartOf(z, b, "]");
    assert y[0] == '.' == y[1];
  }

  lemma RangeInside(a: string, b: string)
    requires Digits(a) && Digits(b)
    ensures var s := EscapedRange(a, b);
      |s| > 2 && s[0] == '\\' && s[1] == '[' && s[|s| - 1] == ']' &&
      NumRangeAt(s, 1, ']') == Range(|s| - 1, BoundOf(a), BoundOf(b))
  {
    hide *;
    var s := EscapedRange(a, b);
    RangePlaces(a, b);
    NotDigits();
    DigitsInside(s, 2, a);
    DigitsInside(s, 4 + |a|, b);
    RangeBetween(s, 1, 2 + |a|, 4 + |a| + |b|, ']');
  }

  lemma NotDigits()
    ensures !IsDigit('.') && !IsDigit(']') && !IsDigit('}')
  {
  }

  /** One backslash does not take away the meaning of the bracket before any numeric range. */
  lemma EscapedRangeElems(a: string, b: string, dotted: bool)
    requires Digits(a) && Digits(b)
    ensures Compiled(EscapedRange(a, b), dotted, true) == Ok([Literal("["), NumRange(BoundOf(a), BoundOf(b)),
      Literal("]"), End])
  {
    var s := EscapedRange(a, b);
    var n := |s| - 1;
    RangeInside(a, b);
    hide NumRangeAt, BoundOf;
    var range := NumRange(BoundOf(a), BoundOf(b));
    var p := [Literal("[")];
    assert ElemAt(s, 0, dotted, []) == Ok(Token(1, Literal("[")));
    assert ElemAt(s, 1, dotted, p) == Ok(Token(n, range));
    assert LiteralFrom(s, n + 1) == Ok(Token(n + 1, "")) && [']'] + "" == "]";
    assert LiteralFrom(s, n) == Ok(Token(n + 1, "]"));
    var q := p + [range];
    assert ElemAt(s, n, dotted, q) == Ok(Token(n + 1, Literal("]")));
    var r := q + [Literal("]")];
    assert ElemsFrom(s, n + 1, dotted, r) == Ok(r) == ElemsFrom(s, n, dotted, q) == ElemsFrom(s, 1, dotted, p);
    assert [] + [Literal("[")] == p;
    assert r + [End] == [Literal("["), range, Literal("]"), End];
  }

  /** So the pattern matches exactly the numbers of the range between brackets. */
  lemma EscapedRangeMatchesNumbers(a: string, b: string, dotted: bool, line: string)
    requires Digits(a) && Digits(b)
    ensures var c := Compiled(EscapedRange(a, b), dotted, true);
      c.Ok? && (Accepts(c.value, line) <==> "[" <= line && NumberAndBracket(line, 1, BoundOf(a), BoundOf(b)))
  {
    EscapedRangeElems(a, b, dotted);
    BracketedRange("[", BoundOf(a), BoundOf(b), line);
  }

  /** For example. */
  lemma BracketIsNotEscaped()
    ensures Compiled("\\[1..2]", true, true) == Ok([Literal("["), NumRange(1, 2), Literal("]"), End])
  {
    EscapedRangeElems("1", "2", true);
    assert EscapedRange("1", "2") == "\\[1..2]";
    assert Number("1", 0, 1) == 1 && Number("2", 0, 1) == 2;
  }
}
