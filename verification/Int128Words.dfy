/** A signed 128-bit number in two machine words, as values. */
module Int128Words {
  import opened Words

  /** What the machine makes of a number that does not fit its word. */
  function U64(x: int): uint64 { x % TWO64 }

  function S64(x: int): int64 { (x + TWO63) % TWO64 - TWO63 }

  /** And what 128 bits make of it. */
  function Wrap(x: int): int { (x + TWO127) % TWO128 - TWO127 }

  function ValueOf(lo: uint64, hi: int64): (v: int)
    ensures -TWO127 <= v < TWO127
  {
    hi * TWO64 + lo
  }

  const MIN := -TWO127

  lemma WrapIs(x: int, y: int, k: int)
    requires x == y + k * TWO128 && -TWO127 <= y < TWO127
    ensures Wrap(x) == y
  {
    DivIs(x + TWO127, TWO128, k, y + TWO127);
  }

  lemma WrapDiffers(x: int) returns (k: int)
    ensures x == Wrap(x) + k * TWO128 && -TWO127 <= Wrap(x) < TWO127
  {
    var r;
    k, r := DivMod(x + TWO127, TWO128);
  }

  lemma WrapSame(v: int)
    requires -TWO127 <= v < TWO127
    ensures Wrap(v) == v
  {
    WrapIs(v, v, 0);
  }

  lemma WrapSum(x: int, y: int)
    ensures Wrap(Wrap(x) + Wrap(y)) == Wrap(x + y)
  {
    var j := WrapDiffers(x);
    var k := WrapDiffers(y);
    var m := WrapDiffers(x + y);
    WrapIs(Wrap(x) + Wrap(y), Wrap(x + y), m - j - k);
  }

  lemma WrapNegated(x: int)
    ensures Wrap(-Wrap(x)) == Wrap(-x)
  {
    var k := WrapDiffers(x);
    var m := WrapDiffers(-x);
    WrapIs(-Wrap(x), Wrap(-x), m + k);
  }

  lemma WrapMul(x: int, y: int)
    ensures Wrap(Wrap(x) * y) == Wrap(x * y)
  {
    var k := WrapDiffers(x);
    var m := WrapDiffers(x * y);
    assert x * y == Wrap(x) * y + (k * y) * TWO128;
    WrapIs(Wrap(x) * y, Wrap(x * y), m - k * y);
  }

  lemma U64Differs(x: int) returns (k: int)
    ensures x == U64(x) + k * TWO64
  {
    var r;
    k, r := DivMod(x, TWO64);
  }

  lemma S64Differs(x: int) returns (k: int)
    ensures x == S64(x) + k * TWO64
  {
    var r;
    k, r := DivMod(x + TWO63, TWO64);
  }

  // ----- Sums and negation -----------------------------------------------------------------

  lemma AddWords(lo: uint64, hi: int64, blo: uint64, bhi: int64)
    ensures var s := U64(lo + blo);
      ValueOf(s, if s < lo then S64(S64(hi + bhi) + 1) else S64(hi + bhi)) == Wrap(ValueOf(lo, hi) + ValueOf(blo, bhi))
  {
    var s := U64(lo + blo);
    var k := U64Differs(lo + blo);
    assert k == if s < lo then 1 else 0;
    var j := S64Differs(hi + bhi);
    var i := S64Differs(S64(hi + bhi) + 1);
    var h := if s < lo then S64(S64(hi + bhi) + 1) else S64(hi + bhi);
    WrapIs(ValueOf(lo, hi) + ValueOf(blo, bhi), ValueOf(s, h), if s < lo then j + i else j);
  }

  lemma NegateWords(lo: uint64, hi: int64)
    ensures ValueOf(U64(0 - lo), if lo == 0 then S64(0 - hi) else -1 - hi) == Wrap(-ValueOf(lo, hi))
  {
    var k := U64Differs(0 - lo);
    assert k == if lo == 0 then 0 else -1;
    var j := S64Differs(0 - hi);
    WrapIs(-ValueOf(lo, hi), ValueOf(U64(0 - lo), if lo == 0 then S64(0 - hi) else -1 - hi), if lo == 0 then j else 0);
  }

  lemma IncrementWords(lo: uint64, hi: int64)
    ensures var s := U64(lo + 1); ValueOf(s, if s == 0 then S64(hi + 1) else hi) == Wrap(ValueOf(lo, hi) + 1)
  {
    var j := S64Differs(hi + 1);
    var s := U64(lo + 1);
    WrapIs(ValueOf(lo, hi) + 1, ValueOf(s, if s == 0 then S64(hi + 1) else hi), if s == 0 then j else 0);
  }

  lemma DecrementWords(lo: uint64, hi: int64)
    ensures ValueOf(U64(lo - 1), if lo == 0 then S64(hi - 1) else hi) == Wrap(ValueOf(lo, hi) - 1)
  {
    var j := S64Differs(hi - 1);
    WrapIs(ValueOf(lo, hi) - 1, ValueOf(U64(lo - 1), if lo == 0 then S64(hi - 1) else hi), if lo == 0 then j else 0);
  }

  // ----- Order ------------------------------------------------------------------------------

  /** The comparison, which takes the low words for signed numbers if both high words are the same negative one. */
  predicate Less(alo: uint64, ahi: int64, blo: uint64, bhi: int64) {
    if ahi == bhi then if ahi < 0 then S64(alo) < S64(blo) else alo < blo else ahi < bhi
  }

  /** It is the numeric order unless exactly one of the low words has its top bit set in that case. */
  lemma LessIsNumeric(alo: uint64, ahi: int64, blo: uint64, bhi: int64)
    ensures (Less(alo, ahi, blo, bhi) <==> ValueOf(alo, ahi) < ValueOf(blo, bhi)) <==>
      !(ahi == bhi && ahi < 0 && (alo >= TWO63 <==> blo < TWO63))
  {
    SignedWord(alo);
    SignedWord(blo);
  }

  lemma SignedWord(x: uint64)
    ensures S64(x) == if x < TWO63 then x else x - TWO64
  {
    if x < TWO63 {
      DivIs(x + TWO63, TWO64, 0, x + TWO63);
    } else {
      DivIs(x + TWO63, TWO64, 1, x - TWO63);
    }
  }

  /** Minus one is smaller than minus two to the 64th plus one. */
  lemma LessIsWrong()
    ensures var ones: uint64, minus: int64 := 0xFFFF_FFFF_FFFF_FFFF, S64(-1);
      Less(ones, minus, 1, minus) && ValueOf(ones, minus) > ValueOf(1, minus)
  {
    var ones: uint64 := 0xFFFF_FFFF_FFFF_FFFF;
    SignedWord(ones);
    SignedWord(1);
  }

  lemma LessIfNotBothNegative(alo: uint64, ahi: int64, blo: uint64, bhi: int64)
    requires ahi >= 0 || bhi >= 0
    ensures Less(alo, ahi, blo, bhi) <==> ValueOf(alo, ahi) < ValueOf(blo, bhi)
  {
    LessIsNumeric(alo, ahi, blo, bhi);
  }

  // ----- Bits ------------------------------------------------------------------------------------

  /** Bit n of the number, which is the sign from the 128th on. */
  predicate BitAt(lo: uint64, hi: int64, n: nat) {
    if n >= 128 then hi < 0
    else if n < 64 then And(lo, Pow2(n)) != 0
    else And(U64(hi), Pow2(n - 64)) != 0
  }

  lemma BitAtIs(lo: uint64, hi: int64, n: nat)
    ensures BitAt(lo, hi, n) <==> BitOf(ValueOf(lo, hi), n)
  {
    var v := ValueOf(lo, hi);
    if n >= 128 {
      Pow2Words();
      Pow2Monotone(128, n);
      if hi < 0 {
        DivIs(v, Pow2(n), -1, v + Pow2(n));
      } else {
        DivIs(v, Pow2(n), 0, v);
      }
    } else if n < 64 {
      AndBit(lo, n);
      LowBit(lo, hi, n);
    } else {
      AndBit(U64(hi), n - 64);
      HighBit(lo, hi, n);
    }
  }

  lemma SplitWord(n: nat)
    requires n <= 64
    ensures Pow2(64 - n) * Pow2(n) == TWO64
  {
    Pow2Add(64 - n, n);
    Pow2Words();
  }

  /** Multiples of d add to the quotient only. */
  lemma QuotientOfSum(x: int, k: int, q: int, d: int)
    requires d > 0
    ensures (x + k * (q * d)) / d == x / d + k * q && (x + k * (q * d)) % d == x % d
  {
    var y, r := DivMod(x, d);
    MulAssoc(k, q, d);
    assert (y + k * q) * d == y * d + (k * q) * d;
    DivIs(x + k * (q * d), d, y + k * q, r);
  }

  lemma LowQuotient(lo: uint64, hi: int64, n: nat)
    requires n <= 64
    ensures ValueOf(lo, hi) / Pow2(n) == hi * Pow2(64 - n) + lo / Pow2(n)
    ensures ValueOf(lo, hi) % Pow2(n) == lo % Pow2(n)
  {
    SplitWord(n);
    QuotientOfSum(lo, hi, Pow2(64 - n), Pow2(n));
  }

  lemma EvenStays(x: int, k: int, n: nat)
    requires n < 64
    ensures (k * Pow2(64 - n) + x) % 2 == x % 2
  {
    Pow2Next(63 - n);
    MulAssoc(k, 2, Pow2(63 - n));
    QuotientOfSum(x, k, Pow2(63 - n), 2);
  }

  lemma LowBit(lo: uint64, hi: int64, n: nat)
    requires n < 64
    ensures BitOf(lo, n) <==> BitOf(ValueOf(lo, hi), n)
  {
    LowQuotient(lo, hi, n);
    EvenStays(lo / Pow2(n), hi, n);
  }

  lemma HighQuotient(lo: uint64, hi: int64, n: nat)
    requires n >= 64
    ensures ValueOf(lo, hi) / Pow2(n) == hi / Pow2(n - 64)
  {
    Pow2Words();
    Pow2Add(64, n - 64);
    DivIs(ValueOf(lo, hi), TWO64, hi, lo);
    DivDiv(ValueOf(lo, hi), TWO64, Pow2(n - 64));
  }

  lemma UnsignedBit(hi: int64, n: nat)
    requires n < 64
    ensures BitOf(U64(hi), n) <==> BitOf(hi, n)
  {
    var k := U64Differs(hi);
    SplitWord(n);
    QuotientOfSum(U64(hi), k, Pow2(64 - n), Pow2(n));
    EvenStays(U64(hi) / Pow2(n), k, n);
  }

  lemma HighBit(lo: uint64, hi: int64, n: nat)
    requires 64 <= n < 128
    ensures BitOf(U64(hi), n - 64) <==> BitOf(ValueOf(lo, hi), n)
  {
    HighQuotient(lo, hi, n);
    UnsignedBit(hi, n - 64);
  }

  // ----- Shifts ------------------------------------------------------------------------------

  /** To the right by less than a word: the high word lends the low one its lowest bits. */
  function Borrowed(hi: int64, n: nat): (r: uint64)
    requires 0 < n < 64
  {
    U64(And(U64(hi), Pow2(n) - 1) * Pow2(64 - n))
  }

  lemma ShiftRightArith(lo: uint64, hi: int64, p: int, q: int)
    requires p > 0 && q > 0 && q * p == TWO64
    ensures 0 <= lo / p < q && 0 <= hi % p * q <= TWO64 - q
    ensures (hi / p) * TWO64 + hi % p * q == hi * q
  {
    WordQuotient(lo, p, q);
    var h, m := DivMod(hi, p);
    MulLeq(0, m, q);
    MulLeq(m, p - 1, q);
    assert (p - 1) * q == TWO64 - q;
    calc {
      hi * q;
      (h * p + m) * q;
      (h * p) * q + m * q;
      { MulAssoc(h, p, q); }
      h * TWO64 + m * q;
    }
  }

  function LowShifted(lo: uint64, n: nat): (r: nat) {
    DivIsNat(lo, Pow2(n));
    lo / Pow2(n)
  }

  lemma DivIsNat(x: nat, d: int)
    requires d > 0
    ensures 0 <= x / d <= x
  {
    var q, r := DivMod(x, d);
    if q < 0 {
      MulLeq(q, -1, d);
    } else {
      MulLeq(1, d, q);
    }
  }

  function HighShifted(hi: int64, n: nat): int64 {
    SmallQuotient(hi, Pow2(n));
    hi / Pow2(n)
  }

  lemma BorrowedFits(lo: uint64, hi: int64, n: nat)
    requires 0 < n < 64
    ensures Borrowed(hi, n) == hi % Pow2(n) * Pow2(64 - n)
    ensures Or(LowShifted(lo, n), Borrowed(hi, n)) == LowShifted(lo, n) + Borrowed(hi, n) < TWO64
  {
    var p, q := Pow2(n), Pow2(64 - n);
    hide Pow2, Or, And;
    SplitWord(n);
    ShiftRightArith(lo, hi, p, q);
    AndMask(U64(hi), n);
    var k := U64Differs(hi);
    QuotientOfSum(U64(hi), k, q, p);
    var m := hi % p;
    DivIs(m * q, TWO64, 0, m * q);
    DivIs(m * q, q, m, 0);
    OrCommutes(lo / p, m * q);
    OrDisjoint(m * q, lo / p, 64 - n);
  }

  function RightWord(lo: uint64, hi: int64, n: nat): uint64
    requires 0 < n < 64
  {
    BorrowedFits(lo, hi, n);
    Or(LowShifted(lo, n), Borrowed(hi, n))
  }

  lemma ShiftRightWords(lo: uint64, hi: int64, n: nat)
    requires 0 < n < 64
    ensures ValueOf(RightWord(lo, hi, n), HighShifted(hi, n)) == ValueOf(lo, hi) / Pow2(n)
  {
    hide Pow2, Or, And;
    SplitWord(n);
    ShiftRightArith(lo, hi, Pow2(n), Pow2(64 - n));
    BorrowedFits(lo, hi, n);
    LowQuotient(lo, hi, n);
  }

  lemma WordQuotient(x: uint64, p: int, q: int)
    requires p > 0 && q > 0 && q * p == TWO64
    ensures 0 <= x / p < q
  {
    var y, r := DivMod(x, p);
    if y >= q {
      MulLeq(q, y, p);
    }
    if y < 0 {
      MulLeq(y, -1, p);
    }
  }

  lemma SmallQuotient(x: int64, p: int)
    requires p >= 1
    ensures -TWO63 <= x / p < TWO63
  {
    var y, r := DivMod(x, p);
    if y >= 0 {
      MulAssoc(y, 1, p);
      MulLeq(1, p, y);
    } else {
      MulLeq(1, p, 0 - y);
    }
  }

  /** By a word or more: the high word is all that is left. */
  lemma ShiftRightHigh(lo: uint64, hi: int64, n: nat)
    requires 64 <= n < 128
    ensures ValueOf(U64(HighShifted(hi, n - 64)), if hi < 0 then -1 else 0) == ValueOf(lo, hi) / Pow2(n)
  {
    HighQuotient(lo, hi, n);
    SmallQuotient(hi, Pow2(n - 64));
    var y, r := DivMod(hi, Pow2(n - 64));
    if hi < 0 {
      if y >= 0 {
        MulLeq(0, y, Pow2(n - 64));
      }
      DivIs(y, TWO64, -1, y + TWO64);
    } else {
      if y < 0 {
        MulLeq(y, -1, Pow2(n - 64));
      }
      DivIs(y, TWO64, 0, y);
    }
  }

  lemma ShiftRightAll(lo: uint64, hi: int64, n: nat)
    requires n >= 128
    ensures var h: int64 := if hi < 0 then S64(-1) else 0; ValueOf(U64(h), h) == ValueOf(lo, hi) / Pow2(n)
  {
    Pow2Words();
    Pow2Monotone(128, n);
    var v := ValueOf(lo, hi);
    if hi < 0 {
      DivIs(v, Pow2(n), -1, v + Pow2(n));
    } else {
      DivIs(v, Pow2(n), 0, v);
    }
  }

  /** To the left by less than a word: the low word lends the high one its highest bits. */
  function HighBits(k: nat): uint64
    requires 0 < k <= 64
  {
    Pow2Words();
    Pow2Monotone(k, 64);
    TWO64 - Pow2(k)
  }

  lemma ShiftLeftArith(lo: uint64, p: int, q: int)
    requires p > 0 && q > 0 && q * p == TWO64
    ensures 0 <= lo / q < p && lo * p == (lo / q) * TWO64 + (lo % q) * p && 0 <= (lo % q) * p < TWO64
  {
    WordQuotient(lo, q, p);
    var c, r := DivMod(lo, q);
    MulLeq(r, q - 1, p);
    assert (q - 1) * p == TWO64 - p;
    MulLeq(0, r, p);
    calc {
      lo * p;
      (c * q + r) * p;
      (c * q) * p + r * p;
      { MulAssoc(c, q, p); }
      c * TWO64 + r * p;
    }
  }

  lemma ShiftLeftHighWord(x: int, c: int, n: nat)
    requires 0 < n < 64 && 0 <= c < Pow2(n)
    ensures Or(U64(x * Pow2(n)), c) == U64(x * Pow2(n)) + c
  {
    var p, q := Pow2(n), Pow2(64 - n);
    SplitWord(n);
    var k := U64Differs(x * p);
    MulAssoc(k, q, p);
    assert (x - k * q) * p == x * p - (k * q) * p;
    DivIs(U64(x * p), p, x - k * q, 0);
    OrDisjoint(U64(x * p), c, n);
  }

  lemma CarryIs(lo: uint64, n: nat)
    requires 0 < n < 64
    ensures And(lo, HighBits(64 - n)) / Pow2(64 - n) == lo / Pow2(64 - n)
  {
    hide And, Pow2;
    Pow2Words();
    Pow2Monotone(64 - n, 64);
    AndHighMask(lo, 64 - n, 64);
    var c, r := DivMod(lo, Pow2(64 - n));
    DivIs(lo - r, Pow2(64 - n), c, 0);
  }

  lemma ShiftLeftWords(lo: uint64, hi: int64, n: nat)
    requires 0 < n < 64
    ensures var carry := And(lo, HighBits(64 - n)) / Pow2(64 - n);
      carry >= 0 && ValueOf(U64(lo * Pow2(n)), S64(Or(U64(hi * Pow2(n)), carry))) == Wrap(ValueOf(lo, hi) * Pow2(n))
  {
    hide Or, And, Pow2;
    var p, q := Pow2(n), Pow2(64 - n);
    SplitWord(n);
    CarryIs(lo, n);
    var c, r := DivMod(lo, q);
    ShiftLeftArith(lo, p, q);
    ShiftLeftHighWord(hi, c, n);
    DivIs(lo * p, TWO64, c, r * p);
    var k := U64Differs(hi * p);
    var j := S64Differs(U64(hi * p) + c);
    ShiftLeftSum(lo, hi, p, c, r, k, j);
  }

  lemma ShiftLeftSum(lo: uint64, hi: int64, p: int, c: int, r: int, k: int, j: int)
    requires lo * p == c * TWO64 + r * p && U64(lo * p) == r * p
    requires hi * p == U64(hi * p) + k * TWO64 && U64(hi * p) + c == S64(U64(hi * p) + c) + j * TWO64
    ensures ValueOf(U64(lo * p), S64(U64(hi * p) + c)) == Wrap(ValueOf(lo, hi) * p)
  {
    var v := ValueOf(lo, hi);
    assert v * p == (hi * p) * TWO64 + lo * p;
    WrapIs(v * p, ValueOf(U64(lo * p), S64(U64(hi * p) + c)), k + j);
  }

  lemma ShiftLeftHigh(lo: uint64, hi: int64, n: nat)
    requires 64 <= n < 128
    ensures ValueOf(0, S64(lo * Pow2(n - 64))) == Wrap(ValueOf(lo, hi) * Pow2(n))
  {
    Pow2Words();
    Pow2Add(64, n - 64);
    ShiftLeftHighSum(lo, hi, Pow2(n - 64), Pow2(n));
  }

  lemma ShiftLeftHighSum(lo: uint64, hi: int64, p: int, w: int)
    requires w == TWO64 * p
    ensures ValueOf(0, S64(lo * p)) == Wrap(ValueOf(lo, hi) * w)
  {
    var j := S64Differs(lo * p);
    var v := ValueOf(lo, hi);
    assert v * w == (v * p) * TWO64;
    assert v * p == (hi * p) * TWO64 + lo * p;
    WrapIs(v * w, ValueOf(0, S64(lo * p)), hi * p + j);
  }

  lemma ShiftLeftAll(v: int, n: nat)
    requires n >= 128
    ensures Wrap(v * Pow2(n)) == 0
  {
    Pow2Words();
    Pow2Add(n - 128, 128);
    MulAssoc(v, Pow2(n - 128), TWO128);
    WrapIs(v * Pow2(n), 0, v * Pow2(n - 128));
  }

  // ----- Setting a bit ---------------------------------------------------------------------------

  /** A word with one bit set. */
  function WithBit(x: uint64, n: nat): uint64
    requires n < 64
  {
    Pow2Words();
    Pow2Next(n);
    Pow2Monotone(n + 1, 64);
    OrFits(x, Pow2(n), 64);
    Or(x, Pow2(n))
  }

  /** And with one bit cleared. */
  function WithoutBit(x: uint64, n: nat): uint64
    requires n < 64
  {
    Pow2Words();
    Pow2Next(n);
    Pow2Monotone(n + 1, 64);
    AndNotBit(x, n, 64);
    BitIsPart(x, n);
    And(x, TWO64 - 1 - Pow2(n))
  }

  lemma BitIsPart(x: nat, n: nat)
    ensures BitOf(x, n) ==> x >= Pow2(n)
  {
    var q, r := DivMod(x, Pow2(n));
    if BitOf(x, n) {
      DivIsNat(x, Pow2(n));
      MulLeq(1, q, Pow2(n));
    }
  }

  lemma WithBitIs(x: uint64, n: nat)
    requires n < 64
    ensures WithBit(x, n) == if BitOf(x, n) then x else x + Pow2(n)
  {
    OrBit(x, n);
  }

  lemma WithoutBitIs(x: uint64, n: nat)
    requires n < 64
    ensures WithoutBit(x, n) == if BitOf(x, n) then x - Pow2(n) else x
  {
    Pow2Words();
    Pow2Next(n);
    Pow2Monotone(n + 1, 64);
    AndNotBit(x, n, 64);
  }

  /** Setting or clearing a bit of the high word moves the number by a multiple of 2 to the 64th. */
  lemma HighWord(lo: uint64, hi: int64, x: uint64, d: int, n: nat)
    requires 64 <= n < 128 && x == U64(hi) + d * Pow2(n - 64)
    ensures ValueOf(lo, S64(x)) == Wrap(ValueOf(lo, hi) + d * Pow2(n))
  {
    Pow2Words();
    Pow2Add(64, n - 64);
    hide Pow2;
    var k := U64Differs(hi);
    var j := S64Differs(x);
    MovedBy(d, Pow2(n - 64), Pow2(n));
    WrapIs(ValueOf(lo, hi) + d * Pow2(n), ValueOf(lo, S64(x)), k + j);
  }

  lemma MovedBy(d: int, p: int, w: int)
    requires w == TWO64 * p
    ensures d * w == (d * p) * TWO64
  {
  }

  lemma SetBitWords(lo: uint64, hi: int64, n: nat)
    requires n < 128
    ensures var v := ValueOf(lo, hi);
      (if n < 64 then ValueOf(WithBit(lo, n), hi) else ValueOf(lo, S64(WithBit(U64(hi), n - 64)))) ==
        if BitOf(v, n) then v else Wrap(v + Pow2(n))
  {
    var v := ValueOf(lo, hi);
    if n < 64 {
      WithBitIs(lo, n);
      LowBit(lo, hi, n);
      WrapSame(ValueOf(WithBit(lo, n), hi));
    } else {
      WithBitIs(U64(hi), n - 64);
      HighBit(lo, hi, n);
      HighWord(lo, hi, WithBit(U64(hi), n - 64), if BitOf(v, n) then 0 else 1, n);
      WrapSame(v);
    }
  }

  lemma ClearBitWords(lo: uint64, hi: int64, n: nat)
    requires n < 128
    ensures var v := ValueOf(lo, hi);
      (if n < 64 then ValueOf(WithoutBit(lo, n), hi) else ValueOf(lo, S64(WithoutBit(U64(hi), n - 64)))) ==
        if BitOf(v, n) then Wrap(v - Pow2(n)) else v
  {
    var v := ValueOf(lo, hi);
    if n < 64 {
      WithoutBitIs(lo, n);
      LowBit(lo, hi, n);
      WrapSame(ValueOf(WithoutBit(lo, n), hi));
    } else {
      WithoutBitIs(U64(hi), n - 64);
      HighBit(lo, hi, n);
      HighWord(lo, hi, WithoutBit(U64(hi), n - 64), if BitOf(v, n) then -1 else 0, n);
      WrapSame(v);
    }
  }
}
