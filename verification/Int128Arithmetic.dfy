/** What multiplication and division of 128-bit numbers do to their values, step by step. */
module Int128Arithmetic {
  import opened Words
  import opened Int128Words

  // ----- Multiplication ------------------------------------------------------------------------

  lemma MulStep(a: int, b: int, i: nat)
    ensures a * (b % Pow2(i + 1)) == a * (b % Pow2(i)) + (if BitOf(b, i) then a * Pow2(i) else 0)
    ensures b / Pow2(i + 1) == (b / Pow2(i)) / 2
  {
    var p := Pow2(i);
    var q, r := DivMod(b, p);
    var h, t := DivMod(q, 2);
    assert h * 2 * p == h * (2 * p);
    assert (h * 2 + t) * p == h * 2 * p + t * p;
    DivIs(b, 2 * p, h, t * p + r);
    assert t == 1 ==> a * (p + r) == a * r + a * p;
  }

  lemma MulEnds(a: int, b: int)
    ensures Wrap(a * (b % Pow2(128))) == Wrap(a * b)
  {
    Pow2Words();
    var q, r := DivMod(b, TWO128);
    var k := WrapDiffers(a * b);
    MulAssoc(a, q, TWO128);
    assert a * (q * TWO128 + r) == a * (q * TWO128) + a * r;
    WrapIs(a * r, Wrap(a * b), k - a * q);
  }

  lemma TimesSmall(a: int, b: int, lo: uint64, hi: int64)
    requires -TWO127 <= a < TWO127 && b == ValueOf(lo, hi)
    ensures b == 0 ==> Wrap(a * b) == 0
    ensures lo == 1 && hi == 0 ==> Wrap(a * b) == a
  {
    WrapSame(0);
    WrapSame(a);
  }

  /** After i bits of b have been shifted out, t is what is left of it, and sum the product of a with them. */
  predicate Multiplying(a: int, b: int, t: int, sum: int, i: nat) { t == b / Pow2(i) && sum == Wrap(a * (b % Pow2(i))) }

  lemma MultiplyingStarts(a: int, b: int)
    ensures Multiplying(a, b, b, ValueOf(0, 0), 0)
  {
    assert Pow2(0) == 1 && b % 1 == 0;
    WrapSame(0);
  }

  lemma MultiplyingGoesOn(a: int, b: int, lo: uint64, hi: int64, sum: int, i: nat)
    requires Multiplying(a, b, ValueOf(lo, hi), sum, i)
    ensures Multiplying(a, b, ValueOf(lo, hi) / Pow2(1), if And(lo, 1) != 0 then Wrap(sum + Wrap(a * Pow2(i)))
      else sum, i + 1)
  {
    assert Pow2(0) == 1 && Pow2(1) == 2;
    hide Wrap, Pow2, And;
    MulStep(a, b, i);
    AndBit(lo, 0);
    LowBit(lo, hi, 0);
    WrapSum(a * (b % Pow2(i)), a * Pow2(i));
  }

  lemma MultiplyingEnds(a: int, b: int, t: int, sum: int)
    requires Multiplying(a, b, t, sum, 128)
    ensures sum == Wrap(a * b)
  {
    MulEnds(a, b);
  }

  // ----- Division ------------------------------------------------------------------------------

  function Abs(x: int): nat { if x < 0 then -x else x }

  /** The quotient is truncated towards zero; the remainder has the sign of the dividend. */
  predicate Truncated(a: int, d: int, q: int, r: int) {
    a == q * d + r && Abs(r) < Abs(d) && (r > 0 ==> a > 0) && (r < 0 ==> a < 0)
  }

  lemma TruncatedIsUnique(a: int, d: int, q: int, r: int, q': int, r': int)
    requires Truncated(a, d, q, r) && Truncated(a, d, q', r')
    ensures q == q' && r == r'
  {
    assert (q - q') * d == r' - r;
    if q != q' {
      AbsAtLeast(q - q', d);
    }
  }

  lemma AbsAtLeast(k: int, d: int)
    requires k != 0
    ensures Abs(k * d) >= Abs(d)
  {
    if k < 0 {
      MulLeq(1, -k, Abs(d));
    } else {
      MulLeq(1, k, Abs(d));
    }
  }

  /** The one dividend whose negation does not fit gets no proper quotient. */
  lemma MinIsNotDivided(d: int)
    requires MIN < d <= TWO127
    ensures !Truncated(MIN, d, 0, MIN)
  {
  }

  /** In the loops of the division of n by d, b bits of n are left: r is what remains of the others, and q as far as
      it is known has the quotient of the others in its upper bits. */
  predicate Dividing(n: int, d: int, q: int, r: int, b: nat) {
    0 < d && 0 <= q && 0 <= r < 2 * d && q % Pow2(b) == 0 && n / Pow2(b) == (q / Pow2(b)) * d + r &&
      (r >= d ==> (q / Pow2(b)) % 2 == 0)
  }

  lemma QuotientDoubles(q: nat, b: nat)
    requires q % Pow2(b + 1) == 0
    ensures q % Pow2(b) == 0 && q / Pow2(b) == 2 * (q / Pow2(b + 1)) && 0 <= q / Pow2(b + 1)
  {
    var p := Pow2(b);
    Pow2Next(b);
    var k, z := DivMod(q, 2 * p);
    MulAssoc(k, 2, p);
    DivIs(q, p, k * 2, 0);
    DivIsNat(q, 2 * p);
  }

  lemma DoubledSum(n: int, k: int, d: int, r: int, bit: int)
    requires n == k * d + r
    ensures 2 * n + bit == (2 * k) * d + (2 * r + bit)
  {
    MulAssoc(2, k, d);
  }

  /** One more bit of the dividend goes to the remainder. */
  lemma BringDown(n: int, d: int, q: int, r: int, b: nat)
    requires Dividing(n, d, q, r, b + 1) && r < d && 0 <= n < TWO127
    ensures Dividing(n, d, q, 2 * r + (n / Pow2(b)) % 2, b) && 2 * r < TWO127 && 2 * r + (n / Pow2(b)) % 2 < TWO127
  {
    MulStep(1, n, b);
    QuotientDoubles(q, b);
    DivIsNat(n, Pow2(b));
    var m, k, k1 := n / Pow2(b), q / Pow2(b), q / Pow2(b + 1);
    DoubledSum(n / Pow2(b + 1), k1, d, r, m % 2);
    MulLeq(0, k, d);
  }

  lemma SmallPower(b: nat)
    requires Pow2(b) < TWO127
    ensures b < 128
  {
    Pow2Words();
    if b >= 128 {
      Pow2Monotone(128, b);
    }
  }

  lemma QuotientGrows(q: nat, p: int)
    requires p > 0 && q % p == 0
    ensures (q + p) % p == 0 && (q + p) / p == q / p + 1
  {
    var k, z := DivMod(q, p);
    DivIs(q + p, p, k + 1, 0);
  }

  lemma QuotientFits(n: nat, d: int, q: nat, k: int, p: int)
    requires p > 0 && d > 0 && 0 <= k && q == k * p && (k + 1) * d <= n / p
    ensures q + p <= n
  {
    var m, t := DivMod(n, p);
    MulLeq(1, d, k + 1);
    MulLeq(k + 1, m, p);
  }

  /** The remainder is large enough for the quotient to get the bit. */
  lemma TakeAway(n: int, d: int, q: int, r: int, b: nat)
    requires Dividing(n, d, q, r, b) && r >= d && 0 <= n < TWO127
    ensures !BitOf(q, b) && Dividing(n, d, q + Pow2(b), r - d, b) && q + Pow2(b) < TWO127 && b < 128
  {
    var p := Pow2(b);
    hide Pow2;
    var k, z := DivMod(q, p);
    DivIsNat(q, p);
    assert (k + 1) * d == k * d + d;
    QuotientGrows(q, p);
    QuotientFits(n, d, q, k, p);
    SmallPower(b);
  }

  lemma DividingStarts(n: int, d: int)
    requires 0 <= n < TWO127 && d > 0
    ensures Dividing(n, d, 0, 0, 128)
  {
    Pow2Words();
    DivIs(n, Pow2(128), 0, n);
    DivIs(0, Pow2(128), 0, 0);
  }

  lemma DividingEnds(n: int, d: int, q: int, r: int)
    requires Dividing(n, d, q, r, 0) && r < d
    ensures n == q * d + r && 0 <= r < d
  {
  }

  lemma DividingBounds(n: int, d: int, q: int, r: int, b: nat)
    requires Dividing(n, d, q, r, b)
    ensures 0 < d && 0 <= q && 0 <= r < 2 * d
  {
  }

  /** As long as the remainder is too small there are bits left. */
  lemma BitsLeft(n: int, d: int, r: int, b: nat)
    requires Dividing(n, d, 0, r, b) && r < d && n >= d
    ensures b > 0
  {
    DivIs(0, Pow2(b), 0, 0);
  }

  /** The signs are corrected last. */
  lemma SignsCorrected(a: int, d: int, q: int, r: int)
    requires d != 0 && Abs(a) == q * Abs(d) + r && 0 <= r < Abs(d) && 0 <= q
    ensures Truncated(a, d, if (d < 0) != (a < 0) then -q else q, if a < 0 then -r else r)
  {
    assert (-q) * d == q * (-d) == -(q * d);
  }

  /** The machine's counter, one less and one more. */
  function Down(b: nat): nat { (b + 0xFFFF_FFFF) % 0x1_0000_0000 }

  function Up(b: nat): nat { (b + 1) % 0x1_0000_0000 }

  lemma DownUp(b: nat)
    requires b <= 128
    ensures (b > 0 ==> Down(b) == b - 1) && Up(Down(b)) == b
  {
  }

  lemma SetLowest(lo: uint64, hi: int64, x: int)
    requires ValueOf(lo, hi) == 2 * x
    ensures Or(lo, 1) == lo + 1 < TWO64 && ValueOf(U64(Or(lo, 1)), hi) == ValueOf(lo, hi) + 1
  {
    assert Pow2(0) == 1;
    LowBit(lo, hi, 0);
    OrBit(lo, 0);
  }
}
