/** Signed 128-bit numbers as mutable objects: the operators that work in place, division, printing and parsing. */
module Int128s {
  import opened Words
  import opened Int128Words
  import opened Int128Text
  import opened Int128Arithmetic
  import opened Int128Rounds
  import opened Options

  /** The digits of v that have been put from place i on, while n is left; the smallest number is its own magnitude, and
      leaves a zero. */
  predicate Putting(v: int, n: int, radix: nat, i: nat, text: string)
    requires Printable(radix)
  {
    128 <= i <= 255 &&
    if v == MIN then (i == 255 && n == MIN && text == "") || (i == 254 && n == 0 && text == "0")
    else v > 0 && 0 <= n < Pow2(i - 128) && Digits(v, radix) == Digits(n, radix) + text
  }

  lemma PuttingStarts(v: int, radix: nat)
    requires Printable(radix) && (0 < v < TWO127 || v == MIN)
    ensures Putting(v, v, radix, 255, "")
  {
    Pow2Words();
    assert v != MIN ==> Digits(v, radix) + "" == Digits(v, radix);
  }

  /** One digit more. */
  lemma PuttingGoesOn(v: int, n: int, radix: nat, i: nat, text: string, q: int, c: char)
    requires Printable(radix) && Putting(v, n, radix, i, text) && n != 0
    requires n != MIN ==> q == n / radix && 0 <= n % radix < 37 && c == DigitChar(n % radix)
    requires n == MIN ==> q == 0 && c == '0'
    ensures 0 < i && Putting(v, q, radix, i - 1, [c] + text) && Abs(q) < Abs(n)
  {
    assert Pow2(0) == 1;
    if n != MIN {
      hide Digits, DigitChar;
      Smaller(n, radix);
      DigitWritten(n, radix, text);
      Pow2Next(i - 129);
    }
  }

  lemma PuttingEnds(v: int, radix: nat, i: nat, text: string)
    requires Printable(radix) && Putting(v, 0, radix, i, text)
    ensures text == if v == MIN then "0" else Digits(v, radix)
  {
    DigitsOfZero(radix);
    assert "" + text == text;
  }

  lemma PuttingBounds(v: int, n: int, radix: nat, i: nat, text: string)
    requires Printable(radix) && Putting(v, n, radix, i, text)
    ensures 128 <= i <= 255 && (0 < n || n == MIN || n == 0)
  {
  }

  class Int128 {
    var lo: uint64
    var hi: int64

    ghost function Value(): (v: int)
      reads this
      ensures -TWO127 <= v < TWO127
    {
      ValueOf(lo, hi)
    }

    constructor (lo: uint64, hi: int64)
      ensures this.lo == lo && this.hi == hi
    {
      this.lo, this.hi := lo, hi;
    }

    static method Zero() returns (z: Int128)
      ensures fresh(z) && z.Value() == 0
    {
      z := new Int128(0, 0);
    }

    method Copy() returns (c: Int128)
      ensures c.lo == lo && c.hi == hi && fresh(c)
    {
      c := new Int128(lo, hi);
    }

    predicate IsZero()
      reads this
    {
      !(hi != 0 || lo != 0)
    }

    predicate LessThan(b: Int128)
      reads this, b
    {
      Less(lo, hi, b.lo, b.hi)
    }

    predicate Negative()
      reads this
    {
      Less(lo, hi, 0, 0)
    }

    method Negated() returns (r: Int128)
      ensures fresh(r) && r.Value() == Wrap(-Value())
    {
      NegateWords(lo, hi);
      if lo == 0 {
        r := new Int128(0, S64(0 - hi));
      } else {
        r := new Int128(U64(0 - lo), -1 - hi);
      }
    }

    method Increment()
      modifies this
      ensures Value() == Wrap(old(Value()) + 1)
    {
      IncrementWords(lo, hi);
      lo := U64(lo + 1);
      if lo == 0 {
        hi := S64(hi + 1);
      }
    }

    method Decrement()
      modifies this
      ensures Value() == Wrap(old(Value()) - 1)
    {
      DecrementWords(lo, hi);
      if lo == 0 {
        hi := S64(hi - 1);
      }
      lo := U64(lo - 1);
    }

    /** The operand may be the object itself, here and below. */
    method AddAssign(b: Int128)
      modifies this
      ensures Value() == Wrap(old(Value()) + old(b.Value()))
    {
      hide Wrap, U64, S64;
      AddWords(lo, hi, b.lo, b.hi);
      var oldLo := lo;
      lo := U64(lo + b.lo);
      hi := S64(hi + b.hi);
      if lo < oldLo {
        hi := S64(hi + 1);
      }
    }

    method SubAssign(b: Int128)
      modifies this
      ensures Value() == Wrap(old(Value()) - old(b.Value()))
    {
      var n := b.Negated();
      WrapSum(Value(), -b.Value());
      WrapSame(Value());
      AddAssign(n);
    }

    method ShiftRightAssign(n: nat)
      modifies this
      ensures Value() == old(Value()) / Pow2(n)
    {
      if n >= 128 {
        ShiftRightAll(lo, hi, n);
        hi := if hi < 0 then S64(-1) else 0;
        lo := U64(hi);
        return;
      }
      if n >= 64 {
        ShiftRightHigh(lo, hi, n);
        lo := U64(HighShifted(hi, n - 64));
        hi := if hi < 0 then -1 else 0;
        return;
      }
      if n != 0 {
        ShiftRightWords(lo, hi, n);
        lo := RightWord(lo, hi, n);
        hi := HighShifted(hi, n);
      }
    }

    method ShiftLeftAssign(n: nat)
      modifies this
      ensures Value() == Wrap(old(Value()) * Pow2(n))
    {
      if n >= 128 {
        ShiftLeftAll(Value(), n);
        hi := 0;
        lo := 0;
        return;
      }
      if n >= 64 {
        ShiftLeftHigh(lo, hi, n);
        hi := S64(lo * Pow2(n - 64));
        lo := 0;
        return;
      }
      if n != 0 {
        ShiftLeftWords(lo, hi, n);
        hi := S64(Or(U64(hi * Pow2(n)), And(lo, HighBits(64 - n)) / Pow2(64 - n)));
        lo := U64(lo * Pow2(n));
      } else {
        WrapSame(Value());
      }
    }

    predicate Bit(n: nat)
      reads this
    {
      BitAt(lo, hi, n)
    }

    lemma BitIs(n: nat)
      ensures Bit(n) <==> BitOf(Value(), n)
    {
      BitAtIs(lo, hi, n);
    }

    method SetBit(n: nat, val: bool)
      modifies this
      ensures Value() ==
        if n >= 128 || BitOf(old(Value()), n) == val then old(Value())
        else Wrap(if val then old(Value()) + Pow2(n) else old(Value()) - Pow2(n))
    {
      if n >= 128 {
        return;
      }
      if val {
        SetBitWords(lo, hi, n);
        if n < 64 {
          lo := WithBit(lo, n);
        } else {
          hi := S64(WithBit(U64(hi), n - 64));
        }
      } else {
        ClearBitWords(lo, hi, n);
        if n < 64 {
          lo := WithoutBit(lo, n);
        } else {
          hi := S64(WithoutBit(U64(hi), n - 64));
        }
      }
    }

    static lemma ZeroIs(x: Int128)
      ensures x.IsZero() <==> x.Value() == 0
      ensures x.lo == x.hi == 0 ==> x.Value() == 0
    {
    }

    static lemma ValueIs(x: Int128)
      ensures x.Value() == ValueOf(x.lo, x.hi)
    {
    }

    method MulAssign(b: Int128)
      modifies this
      ensures Value() == Wrap(old(Value()) * old(b.Value()))
    {
      hide *;
      ghost var va, vb := Value(), b.Value();
      ValueIs(this);
      ValueIs(b);
      ZeroIs(b);
      TimesSmall(va, vb, b.lo, b.hi);
      if b.IsZero() {
        lo, hi := 0, 0;
        ZeroIs(this);
        return;
      }
      if b.lo == 1 && b.hi == 0 {
        return;
      }
      var a := Copy();
      var t := b.Copy();
      lo := 0;
      hi := 0;
      var i := 0;
      ValueIs(this);
      ValueIs(a);
      ValueIs(t);
      MultiplyingStarts(va, vb);
      while i < 128
        invariant 0 <= i <= 128 && a != t && a != this && t != this && fresh(a) && fresh(t)
        invariant a.Value() == va && Multiplying(va, vb, t.Value(), Value(), i)
      {
        ValueIs(t);
        MultiplyingGoesOn(va, vb, t.lo, t.hi, Value(), i);
        if And(t.lo, 1) != 0 {
          var shifted := a.Copy();
          ValueIs(a);
          ValueIs(shifted);
          shifted.ShiftLeftAssign(i);
          AddAssign(shifted);
        }
        t.ShiftRightAssign(1);
        i := i + 1;
      }
      MultiplyingEnds(va, vb, t.Value(), Value());
    }

    /** The magnitude of the smallest number does not fit, and is that number again. */
    method Magnitude() returns (m: Int128)
      ensures fresh(m) && m.Value() == if Value() == MIN then MIN else Abs(Value())
    {
      LessIfNotBothNegative(lo, hi, 0, 0);
      WrapIs(TWO127, MIN, 1);
      if Value() != MIN {
        WrapSame(Abs(Value()));
      }
      if Negative() {
        m := Negated();
      } else {
        m := Copy();
      }
    }

    /** The next bit of the dividend enters the remainder. */
    method ShiftIn(dd: Int128, b: nat)
      requires dd != this && 0 <= Value() && 2 * Value() < TWO127
      modifies this
      ensures Value() == 2 * old(Value()) + (dd.Value() / Pow2(b)) % 2
    {
      ghost var x, bit := Value(), (dd.Value() / Pow2(b)) % 2;
      WrapSame(2 * x);
      assert Pow2(1) == 2;
      dd.BitIs(b);
      assert dd.Bit(b) <==> bit == 1;
      hide Or, And, Wrap, Pow2, BitAt, BitOf;
      ShiftLeftAssign(1);
      assert Value() == 2 * x;
      if dd.Bit(b) {
        SetLowest(lo, hi, x);
        lo := U64(Or(lo, 1));
      }
    }

    /** The signs go back on. */
    method Signed(negateQ: bool, negateR: bool, q: Int128, r: Int128) returns (q': Int128, r': Int128)
      requires q.Value() != MIN && r.Value() != MIN
      ensures q'.Value() == (if negateQ then -q.Value() else q.Value()) &&
        r'.Value() == if negateR then -r.Value() else r.Value()
      ensures (q' == q || fresh(q')) && (r' == r || fresh(r'))
    {
      q', r' := q, r;
      WrapSame(-q.Value());
      WrapSame(-r.Value());
      if negateQ {
        q' := q.Negated();
      }
      if negateR {
        r' := r.Negated();
      }
    }

    /** Comparing the magnitudes of a dividend and a divisor. */
    static lemma Compared(a: int, d: int, dd: Int128, ds: Int128)
      requires d != 0 && d != MIN && -TWO127 <= a < TWO127 && -TWO127 <= d < TWO127
      requires dd.Value() == (if a == MIN then MIN else Abs(a)) && ds.Value() == if d == MIN then MIN else Abs(d)
      ensures dd.LessThan(ds) <==> a == MIN || Abs(a) < Abs(d)
      ensures !dd.LessThan(ds) ==> 0 < ds.Value() == Abs(d) <= dd.Value() == Abs(a) && a != MIN
      ensures dd.LessThan(ds) && a != MIN ==> Truncated(a, d, 0, a)
    {
      LessIfNotBothNegative(dd.lo, dd.hi, ds.lo, ds.hi);
    }

    static lemma NegativeIs(x: Int128)
      ensures x.Negative() <==> x.Value() < 0
    {
      LessIfNotBothNegative(x.lo, x.hi, 0, 0);
    }

    static lemma QuotientInRange(q: Int128, r: Int128)
      requires 0 <= q.Value() && 0 <= r.Value()
      ensures q.Value() != MIN && r.Value() != MIN
    {
    }

    /** The remainder may be the dividend or the divisor itself. */
    method Div(divisor: Int128, remainder: Int128) returns (q: Int128)
      requires divisor.Value() != 0 && divisor.Value() != MIN
      modifies remainder
      ensures fresh(q)
      ensures old(Value()) != MIN ==> Truncated(old(Value()), old(divisor.Value()), q.Value(), remainder.Value())
      ensures old(Value()) == MIN ==> q.Value() == 0 && remainder.Value() == MIN
    {
      hide *;
      ghost var a, d := Value(), divisor.Value();
      var ds := divisor.Magnitude();
      var dd := Magnitude();
      Compared(a, d, dd, ds);
      ValueIs(this);
      if dd.LessThan(ds) {
        remainder.lo, remainder.hi := lo, hi;
        q := new Int128(0, 0);
        ValueIs(remainder);
        ZeroIs(q);
        return;
      }
      var r: Int128;
      ghost var k;
      q, r, k := DivMagnitudes(dd, ds);
      SignsCorrected(a, d, q.Value(), r.Value());
      NegativeIs(this);
      NegativeIs(divisor);
      QuotientInRange(q, r);
      q, r := Signed(divisor.Negative() != Negative(), Negative(), q, r);
      remainder.lo, remainder.hi := r.lo, r.hi;
      ValueIs(r);
      ValueIs(remainder);
    }

    static lemma LessThanIs(x: Int128, y: Int128)
      ensures x.LessThan(y) <==> LessValue(x.Value(), y.Value())
    {
      LessValueIs(x.lo, x.hi, y.lo, y.hi);
    }

    /** The bits of the dividend enter the remainder until it is large enough; b is the place of the next one, and wraps
        around below zero like the machine's counter. This takes k rounds, with the one that leaves the loop. */
    static method FirstBits(dd: Int128, ds: Int128) returns (r: Int128, b: nat, ghost k: nat)
      requires 0 < ds.Value() <= dd.Value()
      ensures fresh(r) && b <= 128 && Dividing(dd.Value(), ds.Value(), 0, r.Value(), b)
      ensures Rounds(dd.Value(), ds.Value(), START, k) == Some(Loop(false, 0, r.Value(), b))
    {
      hide Dividing, Wrap, Less, BitOf, Pow2, Down, Up, Rounds, LessValue;
      ghost var n, d := dd.Value(), ds.Value();
      r := new Int128(0, 0);
      b := 127;
      ghost var left: nat := 128;
      k := 0;
      DownUp(left);
      DividingStarts(n, d);
      NoRounds(n, d);
      LessThanIs(r, ds);
      while r.LessThan(ds)
        invariant left <= 128 && b == Down(left) && fresh(r) && Dividing(n, d, 0, r.Value(), left)
        invariant r.LessThan(ds) <==> LessValue(r.Value(), d)
        invariant Rounds(n, d, START, k) == Some(Loop(true, 0, r.Value(), b))
        decreases left
      {
        FirstRound(n, d, r.Value(), left, k);
        r.ShiftIn(dd, b);
        b := Down(b);
        left, k := left - 1, k + 1;
        LessThanIs(r, ds);
      }
      FirstLoopLeft(n, d, r.Value(), left, k);
      b := Up(b);
      k := k + 1;
    }

    /** After k rounds, b bits of the dividend are left. */
    static ghost predicate DividingAfter(dd: Int128, ds: Int128, q: Int128, r: Int128, b: nat, k: nat)
      reads dd, ds, q, r
    {
      b <= 128 && Dividing(dd.Value(), ds.Value(), q.Value(), r.Value(), b) &&
      Rounds(dd.Value(), ds.Value(), START, k) == Some(Loop(false, q.Value(), r.Value(), b))
    }

    static lemma NothingFound(dd: Int128, ds: Int128, q: Int128, r: Int128, b: nat, k: nat)
      requires b <= 128 && q.Value() == 0 && Dividing(dd.Value(), ds.Value(), 0, r.Value(), b)
      requires Rounds(dd.Value(), ds.Value(), START, k) == Some(Loop(false, 0, r.Value(), b))
      ensures DividingAfter(dd, ds, q, r, b, k)
    {
      hide Dividing, Rounds;
    }

    /** The remainder is too small, and gets another bit. */
    static method Shift(dd: Int128, ds: Int128, q: Int128, r: Int128, b: nat, ghost k: nat) returns (b': nat)
      requires 0 < ds.Value() <= dd.Value() && r != dd && r != ds && r != q
      requires DividingAfter(dd, ds, q, r, b, k) && b > 0 && r.LessThan(ds)
      modifies r
      ensures b' == b - 1 && DividingAfter(dd, ds, q, r, b', k + 1)
    {
      hide Dividing, Wrap, Less, BitOf, Pow2, Rounds, LessValue;
      LessThanIs(r, ds);
      ShiftRound(dd.Value(), ds.Value(), q.Value(), r.Value(), b, k);
      b' := b - 1;
      r.ShiftIn(dd, b');
    }

    /** The quotient gets its bit, and the remainder loses the divisor. */
    static method Subtract(dd: Int128, ds: Int128, q: Int128, r: Int128, b: nat, ghost k: nat)
      requires 0 < ds.Value() <= dd.Value() && r != dd && r != ds && r != q && q != dd && q != ds
      requires DividingAfter(dd, ds, q, r, b, k) && !r.LessThan(ds)
      modifies q, r
      ensures DividingAfter(dd, ds, q, r, b, k + 1) && old(r.Value()) >= ds.Value() > r.Value()
    {
      hide Dividing, Wrap, Less, BitOf, Pow2, Rounds, LessValue;
      ghost var n, d := dd.Value(), ds.Value();
      LessThanIs(r, ds);
      SubtractRound(n, d, q.Value(), r.Value(), b, k);
      DividingBounds(n, d, q.Value(), r.Value(), b);
      TakeAway(n, d, q.Value(), r.Value(), b);
      WrapSame(r.Value() - d);
      WrapSame(q.Value() + Pow2(b));
      r.SubAssign(ds);
      q.SetBit(b, true);
    }

    /** Nothing is left to do. */
    static lemma Divided(dd: Int128, ds: Int128, q: Int128, r: Int128, k: nat)
      requires 0 < ds.Value() && DividingAfter(dd, ds, q, r, 0, k) && r.LessThan(ds)
      ensures dd.Value() == q.Value() * ds.Value() + r.Value() && 0 <= r.Value() < ds.Value() && 0 <= q.Value()
      ensures Rounds(dd.Value(), ds.Value(), START, k) == Some(Loop(false, q.Value(), r.Value(), 0))
      ensures Rounds(dd.Value(), ds.Value(), START, k + 1).None?
    {
      hide Dividing, Less, Rounds, LessValue;
      var n, d := dd.Value(), ds.Value();
      LessThanIs(r, ds);
      LessIfPositive(r.Value(), d);
      DividingBounds(n, d, q.Value(), r.Value(), 0);
      LastRound(n, d, q.Value(), r.Value(), k);
      DividingEnds(n, d, q.Value(), r.Value());
    }

    /** Long division, bit by bit. After k rounds there is nothing left to do. */
    static method DivMagnitudes(dd: Int128, ds: Int128) returns (q: Int128, r: Int128, ghost k: nat)
      requires 0 < ds.Value() <= dd.Value()
      ensures fresh(q) && fresh(r) && q != r
      ensures dd.Value() == q.Value() * ds.Value() + r.Value() && 0 <= r.Value() < ds.Value() && 0 <= q.Value()
      ensures Rounds(dd.Value(), ds.Value(), START, k) == Some(Loop(false, q.Value(), r.Value(), 0))
      ensures Rounds(dd.Value(), ds.Value(), START, k + 1).None?
    {
      hide *;
      var b: nat;
      r, b, k := FirstBits(dd, ds);
      q := Zero();
      NothingFound(dd, ds, q, r, b, k);
      while true
        invariant q != r && fresh(q) && fresh(r) && DividingAfter(dd, ds, q, r, b, k)
        decreases b, r.Value() >= ds.Value()
      {
        if r.LessThan(ds) {
          if b == 0 {
            Divided(dd, ds, q, r, k);
            break;
          }
          b := Shift(dd, ds, q, r, b, k);
        } else {
          Subtract(dd, ds, q, r, b, k);
        }
        k := k + 1;
      }
    }

    /** The smallest number as dividend gives zero. */
    method DivAssign(b: Int128) returns (ghost r: int)
      requires b.Value() != 0 && b.Value() != MIN
      modifies this
      ensures old(Value()) != MIN ==> Truncated(old(Value()), old(b.Value()), Value(), r)
      ensures old(Value()) == MIN ==> Value() == 0
    {
      var dummy := new Int128(0, 0);
      var q := Div(b, dummy);
      r := dummy.Value();
      lo, hi := q.lo, q.hi;
    }

    /** The remainder of the division is the object itself; the smallest number is left as it is. */
    method ModAssign(b: Int128) returns (ghost q: int)
      requires b.Value() != 0 && b.Value() != MIN
      modifies this
      ensures old(Value()) != MIN ==> Truncated(old(Value()), old(b.Value()), q, Value())
      ensures old(Value()) == MIN ==> Value() == MIN
    {
      var quotient := Div(b, this);
      q := quotient.Value();
    }

    function ToInt(): int
      reads this
    {
      var x := lo % 0x1_0000_0000;
      if x < 0x8000_0000 then x else x - 0x1_0000_0000
    }

    /** One digit of what is left of the number goes to the buffer. */
    method NextDigit(aux: Int128, radix: nat) returns (q: Int128, c: char)
      requires Printable(radix) && aux.Value() == radix && (0 < Value() || Value() == MIN)
      ensures fresh(q)
      ensures Value() != MIN ==>
        q.Value() == Value() / radix && 0 <= Value() % radix < 37 &&
        c == DigitChar(Value() % radix)
      ensures Value() == MIN ==> q.Value() == 0 && c == '0'
    {
      hide Wrap;
      var r := new Int128(0, 0);
      ghost var v := Value();
      q := Div(aux, r);
      if v != MIN {
        Smaller(v, radix);
        TruncatedIsUnique(v, radix, q.Value(), r.Value(), v / radix, v % radix);
      }
      hide Truncated;
      r.ToIntOfDigit();
      c := DigitChar(r.ToInt());
    }

    lemma ToIntOfDigit()
      requires 0 <= Value() < 37 || Value() == MIN
      ensures ToInt() == if Value() == MIN then 0 else Value()
    {
    }

    static method PutChar(sz: array<char>, i: nat, c: char) returns (j: nat)
      requires 0 < i <= 255 < sz.Length
      modifies sz
      ensures j == i - 1 && sz[j..255] == [c] + old(sz[i..255])
    {
      j := i - 1;
      sz[j] := c;
    }

    static lemma RadixIs(radix: nat, x: Int128)
      requires Printable(radix) && x.lo == radix && x.hi == 0
      ensures x.Value() == radix
    {
    }

    /** The digits of a magnitude fill the buffer from its end; the guard of the buffer never stops them. */
    method PutDigits(sz: array<char>, radix: nat) returns (i: nat)
      requires sz.Length == 256 && Printable(radix) && (0 < Value() || Value() == MIN)
      modifies sz
      ensures 128 <= i <= 255 && sz[i..255] == if Value() == MIN then "0" else Digits(Value(), radix)
    {
      ghost var v := Value();
      PuttingStarts(v, radix);
      hide *;
      var ii := Copy();
      i := 255;
      var aux := new Int128(radix, 0);
      RadixIs(radix, aux);
      assert sz[i..255] == "";
      ZeroIs(ii);
      while !ii.IsZero() && i != 0
        invariant i <= 255 && fresh(ii) && aux.Value() == radix && (ii.IsZero() <==> ii.Value() == 0)
        invariant Putting(v, ii.Value(), radix, i, sz[i..255])
        decreases Abs(ii.Value())
      {
        ghost var n, text := ii.Value(), sz[i..255];
        PuttingBounds(v, n, radix, i, text);
        var q, c := ii.NextDigit(aux, radix);
        PuttingGoesOn(v, n, radix, i, text, q.Value(), c);
        i := PutChar(sz, i, c);
        ii := q;
        ZeroIs(ii);
      }
      PuttingBounds(v, ii.Value(), radix, i, sz[i..255]);
      PuttingEnds(v, radix, i, sz[i..255]);
    }

    /** The smallest number is printed as minus zero. */
    method ToString(radix: nat) returns (s: string)
      ensures s == if Value() == MIN && Printable(radix) then "-0" else Printed(Value(), radix)
    {
      if IsZero() {
        return "0";
      }
      if radix < 2 || radix > 37 {
        return "(invalid radix)";
      }
      LessIfNotBothNegative(lo, hi, 0, 0);
      var sz := new char[256](_ => '\0');
      var ii := Magnitude();
      hide Wrap, Digits, Less;
      var i := ii.PutDigits(sz, radix);
      if Negative() {
        i := PutChar(sz, i, '-');
      }
      s := sz[i..255];
    }

    /** The text may be any; what does not fit is cut off to 128 bits. */
    method Set(sz: string)
      modifies this
      ensures Value() == Wrap(Parsed(sz))
    {
      lo := 0;
      hi := 0;
      WrapSame(0);
      if sz == "" {
        return;
      }
      var radix := 10;
      var i := 0;
      var minus := false;
      if CharAt(sz, i) == '-' {
        i := i + 1;
        minus := true;
      }
      if CharAt(sz, i) == '0' {
        radix := 8;
        i := i + 1;
        if CharAt(sz, i) == 'x' {
          radix := 16;
          i := i + 1;
        }
      }
      ReadDigits(sz, radix, i);
      ghost var n := Horner(sz[i..], radix, 0);
      if minus {
        var zero := new Int128(0, 0);
        WrapSum(0, -n);
        WrapNegated(n);
        zero.SubAssign(this);
        lo, hi := zero.lo, zero.hi;
      }
    }

    method ReadDigits(sz: string, radix: nat, start: nat)
      requires start <= |sz| && Value() == 0 && radix <= 37
      modifies this
      ensures Value() == Wrap(Horner(sz[start..], radix, 0))
    {
      var i := start;
      ghost var acc := 0;
      WrapSame(0);
      hide Wrap, DigitOf;
      while i < |sz|
        invariant start <= i <= |sz| && Value() == Wrap(acc) &&
          Horner(sz[i..], radix, acc) == Horner(sz[start..], radix, 0)
      {
        HornerStep(sz, i, radix, acc);
        var n := DigitOf(sz[i], radix);
        DigitFits(sz[i], radix);
        if n < 0 {
          return;
        }
        AppendDigit(radix, n, acc);
        acc := acc * radix + n;
        i := i + 1;
      }
      assert sz[i..] == "";
    }

    method AppendDigit(radix: nat, n: nat, ghost acc: int)
      requires radix <= 37 && n <= 37 && Value() == Wrap(acc)
      modifies this
      ensures Value() == Wrap(acc * radix + n)
    {
      var factor := new Int128(radix, 0);
      var digit := new Int128(n, 0);
      WrapMul(acc, radix);
      WrapSum(acc * radix, n);
      WrapSame(n);
      hide Wrap;
      MulAssign(factor);
      AddAssign(digit);
    }
  }

  /** Printing a number and reading the text gives the number back, except for the smallest one. */
  method RoundTrip(x: Int128) returns (y: Int128)
    ensures y.Value() == x.Value() <==> x.Value() != MIN
  {
    var s := x.ToString(10);
    y := new Int128(0, 0);
    y.Set(s);
    DecimalRoundTrip(x.Value());
    WrapSame(x.Value());
    if x.Value() == MIN {
      assert "-0"[2..] == "";
      WrapSame(0);
    }
  }
}
