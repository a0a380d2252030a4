/** Numbers as text: what the printer writes and what the parser reads. */
module Int128Text {
  import opened Words

  predicate Printable(radix: nat) { 2 <= radix <= 37 }

  function DigitChar(c: nat): char
    requires c < 37
  {
    if c > 9 then 'A' - 10 as char + c as char else '0' + c as char
  }

  /** The digits of a number, the most significant one first; none for zero. */
  function Digits(n: nat, radix: nat): (s: string)
    requires Printable(radix)
    ensures s == "" <==> n == 0
  {
    if n == 0 then ""
    else
      Smaller(n, radix);
      Digits(n / radix, radix) + [DigitChar(n % radix)]
  }

  lemma Smaller(n: nat, radix: nat)
    requires 2 <= radix && n > 0
    ensures 0 <= n / radix < n && 2 * (n / radix) <= n && 0 <= n % radix < radix && n == (n / radix) * radix + n % radix
  {
    var q, r := DivMod(n, radix);
    if q < 0 {
      MulLeq(q, -1, radix);
    } else {
      MulLeq(2, radix, q);
    }
  }

  lemma DigitsOfZero(radix: nat)
    requires Printable(radix)
    ensures Digits(0, radix) == ""
  {
  }

  function Printed(v: int, radix: nat): string {
    if v == 0 then "0"
    else if !Printable(radix) then "(invalid radix)"
    else if v < 0 then "-" + Digits(-v, radix) else Digits(v, radix)
  }

  // ----- Reading -----------------------------------------------------------------------------

  function CharAt(s: string, i: nat): char { if i < |s| then s[i] else '\0' }

  /** The digit that the parser takes the character for, or -1 if it stops there. */
  function DigitOf(ch: char, radix: nat): int {
    if '0' <= ch <= '9' && ch as int < '0' as int + radix then ch as int - '0' as int
    else if 'a' <= ch && ch as int <= 'a' as int + radix - 10 then ch as int - 'a' as int + 10
    else if 'A' <= ch && ch as int <= 'A' as int + radix - 10 then ch as int - 'A' as int + 10
    else -1
  }

  function Horner(s: string, radix: nat, acc: int): int {
    if s == "" || DigitOf(s[0], radix) < 0 then acc else Horner(s[1..], radix, acc * radix + DigitOf(s[0], radix))
  }

  predicate Minus(s: string) { CharAt(s, 0) == '-' }

  function Prefix(s: string): nat { if Minus(s) then 1 else 0 }

  /** The radix that a leading zero announces, and where the digits begin. */
  function Announced(s: string, i: nat): (nat, nat) {
    if CharAt(s, i) != '0' then (10, i) else if CharAt(s, i + 1) == 'x' then (16, i + 2) else (8, i + 1)
  }

  lemma AnnouncedFits(s: string, i: nat)
    requires i <= |s|
    ensures Announced(s, i).1 <= |s|
  {
  }

  function Parsed(s: string): int {
    if s == "" then 0
    else
      AnnouncedFits(s, Prefix(s));
      var (radix, i) := Announced(s, Prefix(s));
      var n := Horner(s[i..], radix, 0);
      if Minus(s) then -n else n
  }

  // ----- Digits ----------------------------------------------------------------------------------

  const LOWER := "0123456789abcdefghijklmnopqrstuvwxyz"
  const UPPER := "0123456789ABCDEFGHIJKLMNOPQRSTUVWXYZ"

  lemma DigitTables(c: nat)
    requires c < 36
    ensures |LOWER| == |UPPER| == 36
    ensures LOWER[c] as int == if c < 10 then '0' as int + c else 'a' as int + c - 10
    ensures UPPER[c] as int == if c < 10 then '0' as int + c else 'A' as int + c - 10
  {
  }

  /** The letter after the last digit of the radix. */
  predicate ExcessLetter(ch: char, radix: nat) {
    radix >= 10 && (ch as int == 'a' as int + radix - 10 || ch as int == 'A' as int + radix - 10)
  }

  predicate IsDigitFor(ch: char, c: nat) { c < |LOWER| && c < |UPPER| && (ch == LOWER[c] || ch == UPPER[c]) }

  /** Decimal digits and letters, small or capital, stand for the digits below the radix. The letter after them is taken
      for a digit too, and no other character is. */
  lemma DigitOfIs(ch: char, radix: nat, c: nat)
    requires 2 <= radix <= 36
    ensures c < radix ==> (DigitOf(ch, radix) == c <==> IsDigitFor(ch, c))
    ensures DigitOf(ch, radix) == radix <==> ExcessLetter(ch, radix)
    ensures DigitOf(ch, radix) < 0 || 0 <= DigitOf(ch, radix) <= radix
  {
    if c < radix {
      IsDigitForIs(ch, c);
      hide IsDigitFor;
    }
  }

  lemma IsDigitForIs(ch: char, c: nat)
    requires c < 36
    ensures IsDigitFor(ch, c) <==>
      if c < 10 then ch as int == '0' as int + c
      else ch as int == 'a' as int + c - 10 || ch as int == 'A' as int + c - 10
  {
    DigitTables(c);
  }

  /** The printer writes capital letters. */
  lemma DigitCharIs(c: nat)
    requires c < 36
    ensures |UPPER| == 36 && DigitChar(c) == UPPER[c]
  {
    DigitTables(c);
  }

  // ----- Reading what was written ----------------------------------------------------------------

  predicate AllDigits(s: string, radix: nat) { forall i :: 0 <= i < |s| ==> DigitOf(s[i], radix) >= 0 }

  lemma {:induction false} HornerAppend(s: string, t: string, radix: nat, acc: int)
    requires AllDigits(s, radix)
    ensures Horner(s + t, radix, acc) == Horner(t, radix, Horner(s, radix, acc))
    decreases |s|
  {
    if s == "" {
      assert s + t == t;
    } else {
      assert (s + t)[1..] == s[1..] + t;
      HornerAppend(s[1..], t, radix, acc * radix + DigitOf(s[0], radix));
    }
  }

  lemma DigitOfDigitChar(c: nat, radix: nat)
    requires Printable(radix) && c < radix
    ensures DigitOf(DigitChar(c), radix) == c && DigitChar(c) != '-' && DigitChar(c) != 'x' &&
      (DigitChar(c) == '0' <==> c == 0)
  {
  }

  lemma {:induction false} DigitsAreRead(n: nat, radix: nat)
    requires Printable(radix)
    ensures AllDigits(Digits(n, radix), radix) && Horner(Digits(n, radix), radix, 0) == n
    ensures n > 0 ==> Digits(n, radix)[0] != '0' && Digits(n, radix)[0] != '-' && Digits(n, radix)[0] != 'x'
  {
    if n > 0 {
      Smaller(n, radix);
      var c := n % radix;
      var d := Digits(n / radix, radix);
      DigitsAreRead(n / radix, radix);
      DigitOfDigitChar(c, radix);
      HornerAppend(d, [DigitChar(c)], radix, 0);
      assert [DigitChar(c)][1..] == "";
      assert Horner("", radix, n) == n;
    }
  }

  /** Every number is read back from its decimal text; the text of zero is read as an empty octal number. */
  lemma DecimalRoundTrip(v: int)
    ensures Parsed(Printed(v, 10)) == v
  {
    var n := if v < 0 then -v else v;
    DigitsAreRead(n, 10);
    var d := Digits(n, 10);
    if v < 0 {
      assert ("-" + d)[1..] == d && CharAt("-" + d, 1) == d[0];
    } else if v > 0 {
      assert d[0..] == d;
    }
  }

  /** The text of a number with a prefix behind the sign. */
  function Prefixed(v: int, prefix: string, radix: nat): string {
    if v < 0 then "-" + prefix + Printed(-v, radix) else prefix + Printed(v, radix)
  }

  lemma PrefixedDigits(v: nat, radix: nat)
    requires Printable(radix)
    ensures Printed(v, radix) != "" && Printed(v, radix)[0] !in {'x', '-'} && Horner(Printed(v, radix), radix, 0) == v
  {
    if v > 0 {
      DigitsAreRead(v, radix);
    } else {
      assert "0"[1..] == "";
    }
  }

  /** Every number is read back from its hexadecimal text behind "0x", and from its octal text behind "0". */
  lemma PrefixedRoundTrip(v: int)
    ensures Parsed(Prefixed(v, "0x", 16)) == v && Parsed(Prefixed(v, "0", 8)) == v
  {
    var n := if v < 0 then -v else v;
    PrefixedDigits(n, 16);
    PrefixedDigits(n, 8);
    var h, o := Printed(n, 16), Printed(n, 8);
    if v < 0 {
      assert ("-" + "0x" + h)[3..] == h && ("-" + "0" + o)[2..] == o && CharAt("-" + "0" + o, 2) == o[0];
    } else {
      assert ("0x" + h)[2..] == h && ("0" + o)[1..] == o && CharAt("0" + o, 1) == o[0];
    }
  }

  /** The parser takes one letter too many for a digit, and no other character of the kind. */
  lemma OneLetterTooMany(ch: char, radix: nat)
    requires Printable(radix)
    ensures DigitOf(ch, radix) >= radix <==>
      radix >= 10 && (ch as int == 'a' as int + radix - 10 ||
      ch as int == 'A' as int + radix - 10)
  {
  }

  lemma TenIsADecimalDigit()
    ensures Parsed("1a") == 20
  {
    assert "1a"[0..] == "1a" && "1a"[1..] == "a" && "a"[1..] == "";
    assert Horner("", 10, 20) == 20;
    assert Horner("a", 10, 1) == 20;
  }

  // ----- What any text is read as --------------------------------------------------------------------

  function Power(radix: nat, k: nat): nat { if k == 0 then 1 else radix * Power(radix, k - 1) }

  /** Every digit counts as many times as its place says. */
  function Positional(s: string, radix: nat): int {
    if s == "" then 0 else DigitOf(s[0], radix) * Power(radix, |s| - 1) + Positional(s[1..], radix)
  }

  lemma Distributed(a: int, r: int, d: int, p: int)
    ensures (a * r + d) * p == a * (r * p) + d * p
  {
    assert (a * r + d) * p == (a * r) * p + d * p;
    MulAssoc(a, r, p);
  }

  lemma {:induction false} HornerIsPositional(s: string, radix: nat, acc: int)
    requires AllDigits(s, radix)
    ensures Horner(s, radix, acc) == acc * Power(radix, |s|) + Positional(s, radix)
    decreases |s|
  {
    if s != "" {
      var d := DigitOf(s[0], radix);
      hide DigitOf;
      HornerIsPositional(s[1..], radix, acc * radix + d);
      Distributed(acc, radix, d, Power(radix, |s| - 1));
    }
  }

  /** The digits up to the first character that is none. */
  lemma HornerStops(s: string, rest: string, radix: nat)
    requires AllDigits(s, radix) && (rest == "" || DigitOf(rest[0], radix) < 0)
    ensures Horner(s + rest, radix, 0) == Positional(s, radix)
  {
    HornerAppend(s, rest, radix, 0);
    HornerIsPositional(s, radix, 0);
  }

  /** The text is a sign or none, a prefix that announces the radix, digits, and a rest that begins with no digit. */
  predicate Reads(s: string, minus: bool, prefix: string, radix: nat, digits: string, rest: string) {
    s == (if minus then "-" else "") + prefix + digits + rest && AllDigits(digits, radix) &&
    (rest == "" || DigitOf(rest[0], radix) < 0) &&
    (prefix == "" && CharAt(digits + rest, 0) == '-' ==> minus) &&
    match prefix
    case "0x" => radix == 16
    case "0" => radix == 8 && CharAt(digits + rest, 0) != 'x'
    case _ => prefix == "" && radix == 10 && CharAt(digits + rest, 0) != '0'
  }

  lemma SignIs(s: string, minus: bool, t: string)
    requires s == (if minus then "-" else "") + t && (CharAt(t, 0) == '-' ==> minus)
    ensures Minus(s) == minus && s[Prefix(s)..] == t
  {
    if minus {
      assert s[0] == '-' && s[1..] == t;
    } else {
      assert s == t == s[0..];
    }
  }

  lemma PrefixIs(t: string, prefix: string, radix: nat, tail: string)
    requires t == prefix + tail
    requires match prefix
      case "0x" => radix == 16
      case "0" => radix == 8 && CharAt(tail, 0) != 'x'
      case _ => prefix == "" && radix == 10 && CharAt(tail, 0) != '0'
    ensures Announced(t, 0) == (radix, |prefix|) && t[|prefix|..] == tail
    ensures CharAt(t, 0) == if prefix == "" then CharAt(tail, 0) else '0'
  {
    if prefix == "0x" {
      assert t[0] == '0' && t[1] == 'x';
    } else if prefix == "0" {
      assert t[0] == '0' && (tail != "" ==> t[1] == tail[0]);
    }
  }

  lemma AnnouncedBehind(s: string, p: nat, t: string)
    requires p <= |s| && s[p..] == t
    ensures Announced(s, p) == (Announced(t, 0).0, p + Announced(t, 0).1)
  {
    assert CharAt(s, p) == CharAt(t, 0) && CharAt(s, p + 1) == CharAt(t, 1);
  }

  lemma ParsedIs(s: string, p: nat, t: string, radix: nat, i: nat, tail: string)
    requires p == Prefix(s) <= |s| && s[p..] == t && Announced(s, p) == (radix, p + i) && i <= |t| && t[i..] == tail
    ensures Parsed(s) == if Minus(s) then -Horner(tail, radix, 0) else Horner(tail, radix, 0)
  {
    assert s[p..][i..] == s[p + i..];
    if s == "" {
      assert tail == "";
    }
  }

  /** Such a text is read as the positional sum of its digits, with the sign. */
  lemma TextIsRead(s: string, minus: bool, prefix: string, radix: nat, digits: string, rest: string)
    requires Reads(s, minus, prefix, radix, digits, rest)
    ensures Parsed(s) == if minus then -Positional(digits, radix) else Positional(digits, radix)
  {
    var tail := digits + rest;
    var t := prefix + tail;
    assert s == (if minus then "-" else "") + t;
    hide *;
    PrefixIs(t, prefix, radix, tail);
    SignIs(s, minus, t);
    AnnouncedBehind(s, Prefix(s), t);
    ParsedIs(s, Prefix(s), t, radix, |prefix|, tail);
    HornerStops(digits, rest, radix);
  }

  lemma InFour(s: string, i: nat, j: nat, digits: string, rest: string)
    requires i <= j <= |s| && s[j..] == digits + rest
    ensures s == s[..i] + s[i..j] + digits + rest && CharAt(digits + rest, 0) == CharAt(s, j)
  {
    assert s == s[..i] + s[i..j] + s[j..];
  }

  lemma PrefixAt(s: string, i: nat) returns (prefix: string, radix: nat, j: nat)
    requires i <= |s|
    ensures i <= j <= |s| && s[i..j] == prefix
    ensures match prefix
      case "0x" => radix == 16
      case "0" => radix == 8 && CharAt(s, j) != 'x'
      case _ => prefix == "" && radix == 10 && CharAt(s, j) != '0' && j == i
  {
    if CharAt(s, i) != '0' {
      prefix, radix, j := "", 10, i;
    } else if CharAt(s, i + 1) == 'x' {
      prefix, radix, j := "0x", 16, i + 2;
    } else {
      prefix, radix, j := "0", 8, i + 1;
    }
  }

  lemma SignAt(s: string)
    ensures Prefix(s) <= |s| && s[..Prefix(s)] == (if Minus(s) then "-" else "")
    ensures CharAt(s, Prefix(s)) == '-' ==> Minus(s)
  {
  }

  /** And every text is one. */
  lemma EveryTextIsRead(s: string) returns (minus: bool, prefix: string, radix: nat, digits: string, rest: string)
    ensures Reads(s, minus, prefix, radix, digits, rest)
  {
    hide Minus, Prefix, CharAt, DigitOf, AllDigits;
    minus := Minus(s);
    var i, j := Prefix(s), 0;
    SignAt(s);
    prefix, radix, j := PrefixAt(s, i);
    digits, rest := DigitsFirst(s[j..], radix);
    InFour(s, i, j, digits, rest);
  }

  lemma {:induction false} DigitsFirst(s: string, radix: nat) returns (digits: string, rest: string)
    ensures s == digits + rest && AllDigits(digits, radix) && (rest == "" || DigitOf(rest[0], radix) < 0)
    decreases |s|
  {
    if s == "" || DigitOf(s[0], radix) < 0 {
      digits, rest := "", s;
    } else {
      var d;
      d, rest := DigitsFirst(s[1..], radix);
      digits := [s[0]] + d;
    }
  }

  ghost predicate CapitalDigit(ch: char, radix: nat) { exists c :: 0 <= c < radix && c < |UPPER| && ch == UPPER[c] }

  /** A number is printed with capital digits below the radix, without leading zeros, and is their positional sum. Zero
      is printed in every radix, and no other number in one that the letters do not reach. */
  lemma PrintedIsPositional(n: nat, radix: nat)
    ensures 2 <= radix <= 36 && n > 0 ==>
      var s := Printed(n, radix);
      s != "" && s[0] != '0' && Positional(s, radix) == n && Printed(0 - n, radix) == "-" + s &&
      AllCapital(s, radix)
    ensures Printed(0, radix) == "0"
    ensures n > 0 && (radix < 2 || radix > 37) ==> Printed(n, radix) == Printed(0 - n, radix) == "(invalid radix)"
  {
    if 2 <= radix <= 36 && n > 0 {
      DigitsAreRead(n, radix);
      HornerIsPositional(Digits(n, radix), radix, 0);
      DigitsAreCapital(n, radix);
    }
  }

  lemma CapitalDigitIs(c: nat, radix: nat)
    requires c < radix <= 36
    ensures CapitalDigit(DigitChar(c), radix)
  {
    DigitCharIs(c);
    var u := UPPER;
    assert 0 <= c < radix && c < |u| && DigitChar(c) == u[c];
  }

  ghost predicate AllCapital(s: string, radix: nat) { forall k :: 0 <= k < |s| ==> CapitalDigit(s[k], radix) }

  lemma CapitalAppend(s: string, ch: char, radix: nat)
    requires AllCapital(s, radix) && CapitalDigit(ch, radix)
    ensures AllCapital(s + [ch], radix)
  {
    hide CapitalDigit;
  }

  lemma {:induction false} DigitsAreCapital(n: nat, radix: nat)
    requires 2 <= radix <= 36
    ensures AllCapital(Digits(n, radix), radix)
    decreases n
  {
    if n > 0 {
      Smaller(n, radix);
      DigitsAreCapital(n / radix, radix);
      CapitalDigitIs(n % radix, radix);
      CapitalAppend(Digits(n / radix, radix), DigitChar(n % radix), radix);
    }
  }

  /** Writing one digit in front of the text so far. */
  lemma DigitWritten(n: nat, radix: nat, rest: string)
    requires Printable(radix) && n > 0
    ensures 0 <= n / radix < n && 0 <= n % radix < 37
    ensures Digits(n, radix) + rest == Digits(n / radix, radix) + ([DigitChar(n % radix)] + rest)
  {
    Smaller(n, radix);
    var d, c := Digits(n / radix, radix), DigitChar(n % radix);
    assert d + [c] + rest == d + ([c] + rest);
  }

  lemma DigitFits(ch: char, radix: nat)
    requires radix <= 37
    ensures -1 <= DigitOf(ch, radix) <= 37
  {
  }

  lemma HornerStep(s: string, i: nat, radix: nat, acc: int)
    requires i < |s|
    ensures Horner(s[i..], radix, acc) ==
      if DigitOf(s[i], radix) < 0 then acc else Horner(s[i + 1..], radix, acc * radix + DigitOf(s[i], radix))
  {
    assert s[i..][1..] == s[i + 1..];
  }
}
