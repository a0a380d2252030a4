/** The rounds of the loops of the division, counted, and for which divisors they come to an end. */
module Int128Rounds {
  import opened Words
  import opened Int128Words
  import opened Int128Arithmetic
  import opened Options

  type int128 = x: int | -TWO127 <= x < TWO127

  /** The words of the objects in the loops: the quotient, the remainder, and the place of a bit. In the first loop the
      remainder grows until it is not less than the divisor, in the second one the bits of the quotient are found. */
  datatype Loop = Loop(first: bool, q: int128, r: int128, b: nat)

  predicate LessValue(a: int128, b: int128) { Less(a % TWO64, a / TWO64, b % TWO64, b / TWO64) }

  lemma LessValueIs(alo: uint64, ahi: int64, blo: uint64, bhi: int64)
    ensures LessValue(ValueOf(alo, ahi), ValueOf(blo, bhi)) <==> Less(alo, ahi, blo, bhi)
  {
    DivIs(ValueOf(alo, ahi), TWO64, ahi, alo);
    DivIs(ValueOf(blo, bhi), TWO64, bhi, blo);
  }

  function Magnitude(a: int128): int128 { if a == MIN then MIN else Abs(a) }

  function ShiftedIn(dd: int128, r: int128, b: nat): int128 {
    WrapDoubleIsEven(r);
    Wrap(2 * r) + if BitOf(dd, b) then 1 else 0
  }

  lemma WrapDoubleIsEven(r: int128)
    ensures -TWO127 <= Wrap(2 * r) < TWO127 - 1
  {
    var _ := WrapDiffers(2 * r);
  }

  function BitAdded(q: int128, b: nat): int128 {
    if b >= 128 || BitOf(q, b) then q
    else
      WrapFits(q + Pow2(b));
      Wrap(q + Pow2(b))
  }

  lemma WrapFits(x: int)
    ensures -TWO127 <= Wrap(x) < TWO127
  {
    var _ := WrapDiffers(x);
  }

  /** One round of either loop, or the step from the first to the second; nothing if the second one is done. */
  function Round(dd: int128, ds: int128, s: Loop): Option<Loop> {
    if s.first then
      if LessValue(s.r, ds) then Some(Loop(true, s.q, ShiftedIn(dd, s.r, s.b), Down(s.b)))
      else Some(Loop(false, s.q, s.r, Up(s.b)))
    else if LessValue(s.r, ds) then
      if s.b == 0 then None else Some(Loop(false, s.q, ShiftedIn(dd, s.r, s.b - 1), s.b - 1))
    else
      WrapFits(s.r - ds);
      Some(Loop(false, BitAdded(s.q, s.b), Wrap(s.r - ds), s.b))
  }

  function Rounds(dd: int128, ds: int128, s: Loop, n: nat): Option<Loop>
    decreases n
  {
    if n == 0 then Some(s)
    else
      match Round(dd, ds, s)
      case None => None
      case Some(t) => Rounds(dd, ds, t, n - 1)
  }

  const START := Loop(true, 0, 0, 127)

  ghost predicate Ends(dd: int128, ds: int128) { exists n: nat :: Rounds(dd, ds, START, n).None? }

  /** What the rounds by the smallest number go through. */
  predicate Swinging(s: Loop) { s == START || (!s.first && s.q == 0 && s.r in {0, MIN} && s.b == 128) }

  lemma NotLessThanMin(r: int128)
    requires r >= 0 || r == MIN
    ensures !LessValue(r, MIN)
  {
    SplitMin();
  }

  lemma SplitMin()
    ensures MIN % TWO64 == 0 && MIN / TWO64 == -TWO63
  {
    DivIs(MIN, TWO64, -TWO63, 0);
  }

  /** The smallest number is its own magnitude. No magnitude is less than it; and after any number of rounds the
      remainder, from which it is taken away again and again, is zero or that number, which are not less either. */
  lemma {:induction false} MinDivisorNeverEnds(a: int128, s: Loop, n: nat)
    requires Swinging(s)
    ensures !LessValue(Magnitude(a), MIN)
    ensures var t := Rounds(Magnitude(a), MIN, s, n); t.Some? && Swinging(t.value) && !LessValue(t.value.r, MIN)
    decreases n
  {
    NotLessThanMin(Magnitude(a));
    NotLessThanMin(s.r);
    if n > 0 {
      WrapIs(0 - MIN, MIN, 1);
      WrapSame(0);
      MinDivisorNeverEnds(a, Round(Magnitude(a), MIN, s).value, n - 1);
    }
  }

  lemma LessIfPositive(a: int128, b: int128)
    requires b >= 0
    ensures LessValue(a, b) <==> a < b
  {
    LessIfNotBothNegative(a % TWO64, a / TWO64, b % TWO64, b / TWO64);
  }

  lemma ShiftedInIs(dd: int128, r: int128, b: nat)
    requires 0 <= r && 2 * r < TWO127
    ensures ShiftedIn(dd, r, b) == 2 * r + (dd / Pow2(b)) % 2
  {
    WrapSame(2 * r);
  }

  lemma NoRounds(dd: int128, ds: int128)
    ensures Rounds(dd, ds, START, 0) == Some(START)
  {
  }

  lemma {:induction false} OneMoreRound(dd: int128, ds: int128, s: Loop, k: nat)
    requires Rounds(dd, ds, s, k).Some?
    ensures Rounds(dd, ds, s, k + 1) == Round(dd, ds, Rounds(dd, ds, s, k).value)
    decreases k
  {
    if k > 0 {
      OneMoreRound(dd, ds, Round(dd, ds, s).value, k - 1);
    }
  }

  /** A round of the first loop, while the remainder is less than the divisor. */
  lemma FirstRound(dd: int128, ds: int128, r: int128, left: nat, k: nat)
    requires 0 < ds <= dd && Dividing(dd, ds, 0, r, left) && left <= 128 && LessValue(r, ds)
    requires Rounds(dd, ds, START, k) == Some(Loop(true, 0, r, Down(left)))
    ensures left > 0 && Down(left) == left - 1 && 0 <= r && 2 * r < TWO127
    ensures var r' := 2 * r + (dd / Pow2(left - 1)) % 2;
      r' < TWO127 && Dividing(dd, ds, 0, r', left - 1) &&
      Rounds(dd, ds, START, k + 1) == Some(Loop(true, 0, r', Down(left - 1)))
  {
    hide Dividing, LessValue, ShiftedIn, Rounds, Down, Up;
    OneMoreRound(dd, ds, START, k);
    LessIfPositive(r, ds);
    DividingBounds(dd, ds, 0, r, left);
    BitsLeft(dd, ds, r, left);
    DownUp(left);
    BringDown(dd, ds, 0, r, left - 1);
    ShiftedInIs(dd, r, left - 1);
  }

  lemma FirstLoopLeft(dd: int128, ds: int128, r: int128, left: nat, k: nat)
    requires left <= 128 && !LessValue(r, ds) && Rounds(dd, ds, START, k) == Some(Loop(true, 0, r, Down(left)))
    ensures Up(Down(left)) == left && Rounds(dd, ds, START, k + 1) == Some(Loop(false, 0, r, left))
  {
    OneMoreRound(dd, ds, START, k);
    DownUp(left);
  }

  /** A round of the second loop that brings a bit down. */
  lemma ShiftRound(dd: int128, ds: int128, q: int128, r: int128, b: nat, k: nat)
    requires 0 < ds <= dd && Dividing(dd, ds, q, r, b) && 0 < b <= 128 && LessValue(r, ds)
    requires Rounds(dd, ds, START, k) == Some(Loop(false, q, r, b))
    ensures 0 <= r && 2 * r < TWO127
    ensures var r' := 2 * r + (dd / Pow2(b - 1)) % 2;
      r' < TWO127 && Dividing(dd, ds, q, r', b - 1) &&
      Rounds(dd, ds, START, k + 1) == Some(Loop(false, q, r', b - 1))
  {
    hide Dividing, LessValue, ShiftedIn, Rounds;
    OneMoreRound(dd, ds, START, k);
    LessIfPositive(r, ds);
    DividingBounds(dd, ds, q, r, b);
    BringDown(dd, ds, q, r, b - 1);
    ShiftedInIs(dd, r, b - 1);
  }

  /** A round that takes the divisor away. */
  lemma SubtractRound(dd: int128, ds: int128, q: int128, r: int128, b: nat, k: nat)
    requires 0 < ds <= dd && Dividing(dd, ds, q, r, b) && b <= 128 && !LessValue(r, ds)
    requires Rounds(dd, ds, START, k) == Some(Loop(false, q, r, b))
    ensures ds <= r && q + Pow2(b) < TWO127 && 0 <= q && Dividing(dd, ds, q + Pow2(b), r - ds, b)
    ensures Rounds(dd, ds, START, k + 1) == Some(Loop(false, q + Pow2(b), r - ds, b))
  {
    hide Dividing, LessValue, Rounds, BitOf, Pow2;
    OneMoreRound(dd, ds, START, k);
    LessIfPositive(r, ds);
    DividingBounds(dd, ds, q, r, b);
    TakeAway(dd, ds, q, r, b);
    WrapSame(r - ds);
    WrapSame(q + Pow2(b));
  }

  /** The round that ends the second loop. */
  lemma LastRound(dd: int128, ds: int128, q: int128, r: int128, k: nat)
    requires LessValue(r, ds) && Rounds(dd, ds, START, k) == Some(Loop(false, q, r, 0))
    ensures Rounds(dd, ds, START, k + 1).None?
  {
    OneMoreRound(dd, ds, START, k);
  }

  /** The second loop ends. */
  lemma SecondLoopEnds(dd: int128, ds: int128, q: int128, r: int128, b: nat) returns (n: nat)
    requires 0 < ds <= dd && Dividing(dd, ds, q, r, b) && b <= 128
    ensures Rounds(dd, ds, Loop(false, q, r, b), n).None?
    decreases b, r >= ds
  {
    hide Dividing, BitOf, Pow2, LessValue, ShiftedIn;
    LessIfPositive(r, ds);
    DividingBounds(dd, ds, q, r, b);
    if r >= ds {
      TakeAway(dd, ds, q, r, b);
      WrapSame(r - ds);
      WrapSame(q + Pow2(b));
      DividingBounds(dd, ds, q + Pow2(b), r - ds, b);
      n := SecondLoopEnds(dd, ds, q + Pow2(b), r - ds, b);
      n := n + 1;
    } else if b == 0 {
      n := 1;
    } else {
      BringDown(dd, ds, q, r, b - 1);
      ShiftedInIs(dd, r, b - 1);
      n := SecondLoopEnds(dd, ds, q, ShiftedIn(dd, r, b - 1), b - 1);
      n := n + 1;
    }
  }

  lemma FirstLoopEnds(dd: int128, ds: int128, r: int128, left: nat) returns (n: nat)
    requires 0 < ds <= dd && Dividing(dd, ds, 0, r, left) && left <= 128
    ensures Rounds(dd, ds, Loop(true, 0, r, Down(left)), n).None?
    decreases left
  {
    hide Dividing, Down, Up, LessValue, ShiftedIn;
    LessIfPositive(r, ds);
    DividingBounds(dd, ds, 0, r, left);
    DownUp(left);
    if r >= ds {
      n := SecondLoopEnds(dd, ds, 0, r, left);
    } else {
      BitsLeft(dd, ds, r, left);
      BringDown(dd, ds, 0, r, left - 1);
      ShiftedInIs(dd, r, left - 1);
      n := FirstLoopEnds(dd, ds, ShiftedIn(dd, r, left - 1), left - 1);
    }
    n := n + 1;
  }

  /** For every dividend: the division returns at once or its loops end if and only if the divisor is not the smallest
      number. */
  lemma DivisionEnds(a: int128, d: int128)
    requires d != 0
    ensures LessValue(Magnitude(a), Magnitude(d)) || Ends(Magnitude(a), Magnitude(d)) <==> d != MIN
  {
    var dd, ds := Magnitude(a), Magnitude(d);
    if d == MIN {
      MinDivisorNeverEnds(a, START, 0);
      forall n: nat ensures Rounds(dd, ds, START, n).Some? {
        MinDivisorNeverEnds(a, START, n);
      }
    } else {
      LessIfPositive(dd, ds);
      if ds <= dd {
        DividingStarts(dd, ds);
        DownUp(128);
        var _ := FirstLoopEnds(dd, ds, 0, 128);
      }
    }
  }
}
