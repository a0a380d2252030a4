/** Glob patterns as lists of elements, and the lines they stand for. */
module PatternLanguage {

  /** A set lists the ends of its ranges in pairs; an end of a numeric range is -1 if it is not given. */
  datatype Elem =
    | Literal(text: string)
    | AnyChar
    | CommonChar
    | Set(chars: string)
    | NegSet(chars: string)
    | NumRange(from: int, to: int)
    | AnySeq
    | CommonSeq
    | End

  predicate IsDigit(c: char) { '0' <= c <= '9' }

  /** Where the digits that start at i end. */
  function DigitsEnd(s: string, i: nat): (e: nat)
    requires i <= |s|
    ensures i <= e <= |s| && (forall j :: i <= j < e ==> IsDigit(s[j])) && (e < |s| ==> !IsDigit(s[e]))
    decreases |s| - i
  {
    if i < |s| && IsDigit(s[i]) then DigitsEnd(s, i + 1) else i
  }

  lemma {:induction false} DigitsEndAt(s: string, i: nat, e: nat)
    requires i <= e <= |s| && (forall k :: i <= k < e ==> IsDigit(s[k])) && (e < |s| ==> !IsDigit(s[e]))
    ensures DigitsEnd(s, i) == e
    decreases e - i
  {
    if i < e {
      DigitsEndAt(s, i + 1, e);
    }
  }

  /** The number that the characters from a to b write, after the number n. */
  function NumberFrom(s: string, a: nat, b: nat, n: nat): nat
    requires a <= b <= |s| && forall j :: a <= j < b ==> IsDigit(s[j])
    decreases b - a
  {
    if a == b then n
    else
      assert IsDigit(s[a]);
      NumberFrom(s, a + 1, b, 10 * n + (s[a] as int - '0' as int))
  }

  function Number(s: string, a: nat, b: nat): nat
    requires a <= b <= |s| && forall j :: a <= j < b ==> IsDigit(s[j])
  {
    NumberFrom(s, a, b, 0)
  }

  lemma {:induction false} NumberOfPart(s: string, a: nat, b: nat, n: nat)
    requires a <= b <= |s| && forall j :: a <= j < b ==> IsDigit(s[j])
    ensures NumberFrom(s, a, b, n) == NumberFrom(s[a..b], 0, b - a, n)
    decreases b - a
  {
    var t := s[a..b];
    if a < b {
      assert IsDigit(s[a]);
      var n' := 10 * n + (s[a] as int - '0' as int);
      NumberOfPart(s, a + 1, b, n');
      NumberOfPart(t, 1, b - a, n');
      assert t[1..b - a] == s[a + 1..b];
    }
  }

  predicate InRange(n: nat, from: int, to: int) { (from >= 0 ==> n >= from) && (to >= 0 ==> n <= to) }

  ghost predicate InSet(c: char, chars: string) {
    exists i :: 0 <= i < |chars| && i % 2 == 0 && i + 1 < |chars| && chars[i] <= c <= chars[i + 1]
  }

  // ----- The language of a pattern ------------------------------------------------------------

  /** The element stands for the characters of the line from a to b. A number takes all the digits there are. */
  ghost predicate StandsFor(e: Elem, s: string, a: nat, b: nat) {
    a <= b <= |s| &&
    match e
    case Literal(text) => s[a..b] == text
    case AnyChar => b == a + 1
    case CommonChar => b == a + 1 && s[a] != '.'
    case Set(chars) => b == a + 1 && InSet(s[a], chars)
    case NegSet(chars) => b == a + 1 && !InSet(s[a], chars)
    case NumRange(from, to) =>
      a < b && (forall j :: a <= j < b ==> IsDigit(s[j])) && (b < |s| ==> !IsDigit(s[b])) &&
        InRange(Number(s, a, b), from, to)
    case AnySeq => true
    case CommonSeq => forall j :: a <= j < b ==> s[j] != '.'
    case End => a == b == |s|
  }

  /** The elements from k on stand for consecutive pieces of the line from i on, up to its end. */
  ghost predicate Pieces(p: seq<Elem>, k: nat, s: string, i: nat, cuts: seq<nat>) {
    k <= |p| && |cuts| == |p| - k + 1 && cuts[0] == i && cuts[|p| - k] == |s| &&
    forall j :: 0 <= j < |p| - k ==> StandsFor(p[k + j], s, cuts[j], cuts[j + 1])
  }

  ghost predicate InLanguage(p: seq<Elem>, k: nat, s: string, i: nat) { exists cuts :: Pieces(p, k, s, i, cuts) }

  /** The whole line is in the language of the pattern. */
  ghost predicate Accepts(p: seq<Elem>, s: string) { InLanguage(p, 0, s, 0) }

  /** A pattern ends with its only End. */
  predicate Ended(p: seq<Elem>) { p != [] && p[|p| - 1] == End && forall k :: 0 <= k < |p| - 1 ==> p[k] != End }

  /** The first element takes a piece, and the rest of the pattern the rest of the line. */
  lemma FirstPiece(p: seq<Elem>, k: nat, s: string, i: nat)
    requires k < |p|
    ensures InLanguage(p, k, s, i) <==> exists j :: StandsFor(p[k], s, i, j) && InLanguage(p, k + 1, s, j)
  {
    if InLanguage(p, k, s, i) {
      var cuts :| Pieces(p, k, s, i, cuts);
      assert StandsFor(p[k + 0], s, cuts[0], cuts[1]);
      var rest := cuts[1..];
      forall j | 0 <= j < |p| - (k + 1) ensures StandsFor(p[k + 1 + j], s, rest[j], rest[j + 1]) {
        assert StandsFor(p[k + (j + 1)], s, cuts[j + 1], cuts[j + 2]);
      }
      assert Pieces(p, k + 1, s, cuts[1], rest);
    }
    if j :| StandsFor(p[k], s, i, j) && InLanguage(p, k + 1, s, j) {
      var rest :| Pieces(p, k + 1, s, j, rest);
      var cuts := [i] + rest;
      forall m | 0 <= m < |p| - k ensures StandsFor(p[k + m], s, cuts[m], cuts[m + 1]) {
        if m > 0 {
          assert StandsFor(p[k + 1 + (m - 1)], s, rest[m - 1], rest[m]);
        }
      }
      assert Pieces(p, k, s, i, cuts);
    }
  }

  lemma LastPiece(p: seq<Elem>, s: string, i: nat)
    requires Ended(p)
    ensures InLanguage(p, |p| - 1, s, i) <==> i == |s|
  {
    FirstPiece(p, |p| - 1, s, i);
    assert InLanguage(p, |p|, s, |s|) by {
      assert Pieces(p, |p|, s, |s|, [|s|]);
    }
    if i == |s| {
      assert StandsFor(p[|p| - 1], s, i, i);
    }
  }

  /** Wherever a number starts there is only one place where it can end. */
  lemma NumberPiece(s: string, a: nat, b: nat, from: int, to: int)
    requires a <= |s|
    ensures StandsFor(NumRange(from, to), s, a, b) <==>
      a < |s| && IsDigit(s[a]) && b == DigitsEnd(s, a) && InRange(Number(s, a, DigitsEnd(s, a)), from, to)
  {
    var e := DigitsEnd(s, a);
    assert e < |s| ==> !IsDigit(s[e]);
    assert a < e ==> IsDigit(s[a]);
    assert b < |s| && a <= b < e ==> IsDigit(s[b]);
  }

  // ----- The shortcuts of the matcher -------------------------------------------------------------

  /** A pattern that is at its last element but End, "**", takes whatever is left. */
  lemma TrailingAnySeq(p: seq<Elem>, s: string, i: nat)
    requires Ended(p) && |p| >= 2 && p[|p| - 2] == AnySeq && i <= |s|
    ensures InLanguage(p, |p| - 2, s, i)
  {
    FirstPiece(p, |p| - 2, s, i);
    LastPiece(p, s, |s|);
    assert StandsFor(p[|p| - 2], s, i, |s|);
  }

  predicate EndsWith(s: string, i: nat, text: string) { i + |text| <= |s| && s[|s| - |text|..] == text }

  lemma TrailingLiteral(p: seq<Elem>, s: string, i: nat)
    requires Ended(p) && |p| >= 2 && p[|p| - 2].Literal?
    ensures InLanguage(p, |p| - 2, s, i) <==> i <= |s| && s[i..] == p[|p| - 2].text
  {
    FirstPiece(p, |p| - 2, s, i);
    LastPiece(p, s, |s|);
    if InLanguage(p, |p| - 2, s, i) {
      var j: nat :| StandsFor(p[|p| - 2], s, i, j) && InLanguage(p, |p| - 1, s, j);
      LastPiece(p, s, j);
      assert s[i..] == s[i..j];
    }
    if i <= |s| && s[i..] == p[|p| - 2].text {
      assert s[i..] == s[i..|s|];
      assert StandsFor(p[|p| - 2], s, i, |s|);
    }
  }

  /** For "**" and a literal it is enough that the line ends with the literal. */
  lemma TrailingAnySeqLiteral(p: seq<Elem>, s: string, i: nat)
    requires Ended(p) && |p| >= 3 && p[|p| - 3] == AnySeq && p[|p| - 2].Literal? && i <= |s|
    ensures InLanguage(p, |p| - 3, s, i) <==> EndsWith(s, i, p[|p| - 2].text)
  {
    var text := p[|p| - 2].text;
    FirstPiece(p, |p| - 3, s, i);
    if InLanguage(p, |p| - 3, s, i) {
      var j: nat :| StandsFor(p[|p| - 3], s, i, j) && InLanguage(p, |p| - 2, s, j);
      TrailingLiteral(p, s, j);
    }
    if EndsWith(s, i, text) {
      TrailingLiteral(p, s, |s| - |text|);
      assert StandsFor(p[|p| - 3], s, i, |s| - |text|);
    }
  }

  /** A line of a pattern that ends in a literal ends with that literal. */
  lemma EndsInLiteral(p: seq<Elem>, s: string)
    requires Ended(p) && |p| >= 2 && p[|p| - 2].Literal? && Accepts(p, s)
    ensures EndsWith(s, 0, p[|p| - 2].text)
  {
    var cuts :| Pieces(p, 0, s, 0, cuts);
    var n := |p|;
    assert StandsFor(p[0 + (n - 2)], s, cuts[n - 2], cuts[n - 1]);
    assert StandsFor(p[0 + (n - 1)], s, cuts[n - 1], cuts[n]);
    assert s[cuts[n - 2]..] == s[cuts[n - 2]..cuts[n - 1]];
  }
}
