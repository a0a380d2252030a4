/** Powers of two, and the bit operations on machine words as arithmetic. */
module Words {

  function Pow2(n: nat): (r: nat)
    ensures r > 0
  {
    if n == 0 then 1 else 2 * Pow2(n - 1)
  }

  const TWO63 := 0x8000_0000_0000_0000
  const TWO64 := 0x1_0000_0000_0000_0000
  const TWO127 := 0x8000_0000_0000_0000_0000_0000_0000_0000
  const TWO128 := 0x1_0000_0000_0000_0000_0000_0000_0000_0000

  type uint64 = x: int | 0 <= x < TWO64
  type int64 = x: int | -TWO63 <= x < TWO63

  // ----- Arithmetic ----------------------------------------------------------------------

  lemma {:induction false} Pow2Add(m: nat, n: nat)
    ensures Pow2(m + n) == Pow2(m) * Pow2(n)
    decreases m
  {
    if m > 0 {
      Pow2Add(m - 1, n);
      MulAssoc(2, Pow2(m - 1), Pow2(n));
    }
  }

  lemma MulAssoc(a: int, b: int, c: int)
    ensures a * (b * c) == (a * b) * c
  {
  }

  lemma Pow2Four()
    ensures Pow2(4) == 16
  {
    assert Pow2(2) == 4;
    Pow2Add(2, 2);
  }

  lemma Pow2Next(n: nat)
    ensures Pow2(n + 1) == 2 * Pow2(n)
  {
  }

  lemma Pow2Words()
    ensures Pow2(63) == TWO63 && Pow2(64) == TWO64 && Pow2(127) == TWO127 && Pow2(128) == TWO128
  {
    hide Pow2;
    Pow2Four();
    Pow2Add(4, 4);
    Pow2Add(8, 8);
    Pow2Add(16, 16);
    Pow2Add(32, 32);
    Pow2Add(64, 64);
    Pow2Next(63);
    Pow2Next(127);
  }

  lemma {:induction false} Pow2Monotone(m: nat, n: nat)
    requires m <= n
    ensures Pow2(m) <= Pow2(n)
    decreases n
  {
    if m < n {
      Pow2Monotone(m, n - 1);
    }
  }

  /** The quotient and the remainder are the only numbers of their kind. */
  lemma DivIs(x: int, d: int, q: int, r: int)
    requires d > 0 && x == q * d + r && 0 <= r < d
    ensures x / d == q && x % d == r
  {
    var q', r' := x / d, x % d;
    assert (q - q') * d == r' - r;
    if q > q' {
      MulAtLeast(q - q', d);
    } else if q < q' {
      assert (q' - q) * d == r - r';
      MulAtLeast(q' - q, d);
    }
  }

  lemma MulAtLeast(k: int, d: int)
    requires k >= 1 && d > 0
    ensures k * d >= d
  {
  }

  lemma DivMod(x: int, d: int) returns (q: int, r: int)
    requires d > 0
    ensures q == x / d && r == x % d && x == q * d + r && 0 <= r < d
  {
    q, r := x / d, x % d;
  }

  lemma DivDiv(x: int, a: int, b: int)
    requires a > 0 && b > 0 && a * b > 0
    ensures x / (a * b) == (x / a) / b
  {
    var q, r := DivMod(x, a);
    var p, s := DivMod(q, b);
    calc {
      x;
      (p * b + s) * a + r;
      p * b * a + s * a + r;
      { assert p * b * a == p * (a * b); }
      p * (a * b) + (s * a + r);
    }
    assert 0 <= s * a by { if s > 0 { MulAtLeast(s, a); } }
    assert s * a <= (b - 1) * a by { MulLeq(s, b - 1, a); }
    assert (b - 1) * a == a * b - a;
    DivIs(x, a * b, p, s * a + r);
  }

  lemma MulLeq(x: int, y: int, d: int)
    requires x <= y && d >= 0
    ensures x * d <= y * d
  {
  }

  // ----- And, or -----------------------------------------------------------------------------

  function And(a: nat, b: nat): nat {
    if a == 0 || b == 0 then 0 else 2 * And(a / 2, b / 2) + (if a % 2 == 1 && b % 2 == 1 then 1 else 0)
  }

  function Or(a: nat, b: nat): nat
    decreases a + b
  {
    if a == 0 then b else if b == 0 then a else 2 * Or(a / 2, b / 2) + (if a % 2 == 1 || b % 2 == 1 then 1 else 0)
  }

  /** Bit n of a number, negative ones in two's complement. */
  predicate BitOf(x: int, n: nat) { (x / Pow2(n)) % 2 == 1 }

  lemma HalfDiv(a: nat, n: nat)
    ensures a / Pow2(n + 1) == (a / 2) / Pow2(n)
    ensures a % Pow2(n + 1) == 2 * ((a / 2) % Pow2(n)) + a % 2
  {
    var q, r := DivMod(a / 2, Pow2(n));
    assert a == q * Pow2(n + 1) + (2 * r + a % 2);
    DivIs(a, Pow2(n + 1), q, 2 * r + a % 2);
  }

  lemma MaskHalves(n: nat)
    ensures (Pow2(n + 1) - 1) / 2 == Pow2(n) - 1 && (Pow2(n + 1) - 1) % 2 == 1
  {
  }

  lemma {:induction false} AndMask(a: nat, n: nat)
    ensures And(a, Pow2(n) - 1) == a % Pow2(n)
    decreases n
  {
    if n == 0 {
    } else if a == 0 {
      DivIs(0, Pow2(n), 0, 0);
    } else {
      AndMask(a / 2, n - 1);
      HalfDiv(a, n - 1);
      MaskHalves(n - 1);
    }
  }

  lemma AndHalves(a: nat, h: nat)
    ensures And(a, 2 * h) == 2 * And(a / 2, h) && And(a, 2 * h + 1) == 2 * And(a / 2, h) + a % 2
  {
  }

  lemma BitOfHalf(x: nat, n: nat)
    ensures Pow2(0) == 1 && (BitOf(x, 0) <==> x % 2 == 1)
    ensures BitOf(x, n + 1) <==> BitOf(x / 2, n)
  {
    HalfDiv(x, n);
  }

  lemma SmallMod(a: nat, k: nat)
    requires a < Pow2(k)
    ensures a % Pow2(k) == a
  {
    DivIs(a, Pow2(k), 0, a);
  }

  lemma ModOne(a: nat)
    ensures Pow2(0) == 1 && a % Pow2(0) == 0
  {
  }

  lemma AndAll(a: nat, w: nat)
    requires a < Pow2(w)
    ensures And(a, Pow2(w) - 1) == a
  {
    AndMask(a, w);
    SmallMod(a, w);
  }

  lemma AndNothing(a: nat)
    ensures And(a, 0) == 0
  {
  }

  lemma {:induction false} AndHighMask(a: nat, k: nat, w: nat)
    requires k <= w && a < Pow2(w) && Pow2(k) <= Pow2(w)
    ensures And(a, Pow2(w) - Pow2(k)) == a - a % Pow2(k)
    decreases w
  {
    hide *;
    if w == k {
      AndNothing(a);
      SmallMod(a, k);
    } else if k == 0 {
      AndAll(a, w);
      ModOne(a);
    } else {
      Pow2Next(w - 1);
      Pow2Next(k - 1);
      AndHalves(a, Pow2(w - 1) - Pow2(k - 1));
      AndHighMask(a / 2, k - 1, w - 1);
      HalfDiv(a, k - 1);
    }
  }

  lemma {:induction false} OrCommutes(a: nat, b: nat)
    ensures Or(a, b) == Or(b, a)
    decreases a + b
  {
    if a != 0 && b != 0 {
      OrCommutes(a / 2, b / 2);
    }
  }

  lemma {:induction false} OrDisjoint(a: nat, b: nat, k: nat)
    requires a % Pow2(k) == 0 && b < Pow2(k)
    ensures Or(a, b) == a + b
    decreases k
  {
    if k > 0 {
      HalfDiv(a, k - 1);
      if a != 0 && b != 0 {
        OrDisjoint(a / 2, b / 2, k - 1);
      }
    }
  }

  lemma {:induction false} OrBit(a: nat, n: nat)
    ensures Or(a, Pow2(n)) == if BitOf(a, n) then a else a + Pow2(n)
    decreases n
  {
    if n > 0 {
      HalfDiv(a, n - 1);
      if a == 0 {
        DivIs(0, Pow2(n), 0, 0);
      } else {
        OrBit(a / 2, n - 1);
      }
    } else {
      OrZero(a / 2);
    }
  }

  lemma OrZero(a: nat)
    ensures Or(a, 0) == a
  {
  }

  lemma {:induction false} AndBit(a: nat, n: nat)
    ensures And(a, Pow2(n)) == if BitOf(a, n) then Pow2(n) else 0
    decreases n
  {
    if n > 0 {
      HalfDiv(a, n - 1);
      if a == 0 {
        DivIs(0, Pow2(n), 0, 0);
      } else {
        AndBit(a / 2, n - 1);
      }
    }
  }

  lemma {:induction false} AndNotBit(a: nat, n: nat, w: nat)
    requires n < w && a < Pow2(w) && Pow2(n) < Pow2(w)
    ensures And(a, Pow2(w) - 1 - Pow2(n)) == if BitOf(a, n) then a - Pow2(n) else a
    decreases n
  {
    hide *;
    Pow2Next(w - 1);
    if n == 0 {
      BitOfHalf(a, 0);
      AndHalves(a, Pow2(w - 1) - 1);
      AndAll(a / 2, w - 1);
    } else {
      Pow2Next(n - 1);
      BitOfHalf(a, n - 1);
      AndHalves(a, Pow2(w - 1) - 1 - Pow2(n - 1));
      AndNotBit(a / 2, n - 1, w - 1);
    }
  }

  lemma {:induction false} OrFits(a: nat, b: nat, w: nat)
    requires a < Pow2(w) && b < Pow2(w)
    ensures Or(a, b) < Pow2(w)
    decreases w
  {
    if a != 0 && b != 0 {
      OrFits(a / 2, b / 2, w - 1);
    }
  }
}
