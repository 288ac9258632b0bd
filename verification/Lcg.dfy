/** The linear congruential core of the PCG engines: stepping, logarithmic jump-ahead and its
    inverse.  Words have n bits and every operation wraps modulo 2^n. */
module Lcg {
  import opened Arith

  // ----- one step at a time ----------------------------------------------------------------------

  /** bump: one step of the generator x -> mult * x + plus, wrapped to n bits. */
  function Bump(n: nat, mult: nat, plus: nat, x: nat): nat {
    Low(x * mult + plus, n)
  }

  /** bump applied d times. */
  function Iterate(n: nat, mult: nat, plus: nat, x: nat, d: nat): nat
    decreases d
  {
    if d == 0 then x else Iterate(n, mult, plus, Bump(n, mult, plus, x), d - 1)
  }

  lemma {:induction false} IterateBound(n: nat, mult: nat, plus: nat, x: nat, d: nat)
    requires x < Pow2(n)
    ensures Iterate(n, mult, plus, x, d) < Pow2(n)
    decreases d
  {
    if d > 0 {
      IterateBound(n, mult, plus, Bump(n, mult, plus, x), d - 1);
    }
  }

  /** Advances add up. */
  lemma {:induction false} IterateAdd(n: nat, mult: nat, plus: nat, x: nat, d: nat, e: nat)
    ensures Iterate(n, mult, plus, x, d + e)
         == Iterate(n, mult, plus, Iterate(n, mult, plus, x, d), e)
    decreases d
  {
    hide Bump;
    if d > 0 {
      IterateAdd(n, mult, plus, Bump(n, mult, plus, x), d - 1, e);
    }
  }

  // ----- the map that takes two steps at once ----------------------------------------------------

  function SquareMult(n: nat, mult: nat): nat {
    Low(mult * mult, n)
  }

  function SquarePlus(n: nat, mult: nat, plus: nat): nat {
    Low((mult + 1) * plus, n)
  }

  lemma BumpTwice(n: nat, mult: nat, plus: nat, x: nat)
    ensures Bump(n, mult, plus, Bump(n, mult, plus, x))
         == Bump(n, SquareMult(n, mult), SquarePlus(n, mult, plus), x)
  {
    TwicePolynomial(x, mult, plus);
    TwiceWrapped(x, mult, plus, x * mult + plus, mult * mult, (mult + 1) * plus, n);
  }

  lemma TwicePolynomial(x: int, a: int, p: int)
    ensures (x * a + p) * a + p == x * (a * a) + (a + 1) * p
  {}

  lemma TwiceWrapped(x: int, a: int, p: int, y: int, b: int, q: int, n: nat)
    requires y * a + p == x * b + q
    ensures Low(Low(y, n) * a + p, n) == Low(x * Low(b, n) + Low(q, n), n)
  {
    hide Low;
    LowLow(y, n);
    LowLow(b, n);
    LowLow(q, n);
    LowAffine(Low(y, n), y, a, a, p, p, n);
    LowAffine(x, x, Low(b, n), b, Low(q, n), q, n);
  }

  lemma {:induction false} IterateSquare(n: nat, mult: nat, plus: nat, x: nat, e: nat)
    ensures Iterate(n, SquareMult(n, mult), SquarePlus(n, mult, plus), x, e)
         == Iterate(n, mult, plus, x, 2 * e)
    decreases e
  {
    hide Bump, SquareMult, SquarePlus;
    if e > 0 {
      var y := Bump(n, mult, plus, Bump(n, mult, plus, x));
      BumpTwice(n, mult, plus, x);
      assert Iterate(n, mult, plus, x, 2 * e)
          == Iterate(n, mult, plus, Bump(n, mult, plus, x), 2 * e - 1)
          == Iterate(n, mult, plus, y, 2 * (e - 1));
      IterateSquare(n, mult, plus, y, e - 1);
    }
  }

  /** The multiplier and increment after k squarings. */
  function Squared(n: nat, mult: nat, plus: nat, k: nat): (nat, nat) {
    if k == 0 then (mult, plus)
    else
      var (m, p) := Squared(n, mult, plus, k - 1);
      (SquareMult(n, m), SquarePlus(n, m, p))
  }

  /** One step of the k-fold squared map is 2^k steps of the original. */
  lemma {:induction false} SquaredStep(n: nat, mult: nat, plus: nat, x: nat, k: nat, e: nat)
    ensures var (m, p) := Squared(n, mult, plus, k);
            Iterate(n, m, p, x, e) == Iterate(n, mult, plus, x, e * Pow2(k))
  {
    hide Bump, SquareMult, SquarePlus, Iterate;
    if k > 0 {
      var (m, p) := Squared(n, mult, plus, k - 1);
      IterateSquare(n, m, p, x, e);
      SquaredStep(n, mult, plus, x, k - 1, 2 * e);
      assert (2 * e) * Pow2(k - 1) == e * Pow2(k);
    }
  }

  // ----- logarithmic jump-ahead ------------------------------------------------------------------

  /** Brown's stride algorithm reaches in log(delta) rounds the state that delta steps of
      the generator reach, whatever the multiplier and the increment. */
  method Advance(n: nat, state: nat, delta: nat, mult: nat, plus: nat) returns (r: nat)
    requires state < Pow2(n)
    ensures r == Iterate(n, mult, plus, state, delta)
  {
    hide Low;
    var accMult: nat, accPlus: nat := 1, 0;
    var curMult: nat, curPlus: nat, left: nat := mult, plus, delta;
    ghost var at := state;
    LowSmall(state, n);
    while left > 0
      invariant at == Low(accMult * state + accPlus, n)
      invariant Iterate(n, curMult, curPlus, at, left) == Iterate(n, mult, plus, state, delta)
      decreases left
    {
      if left % 2 == 1 {
        AccumulateStep(n, accMult, accPlus, curMult, curPlus, state);
        accMult, accPlus := Low(accMult * curMult, n), Low(accPlus * curMult + curPlus, n);
        at := Bump(n, curMult, curPlus, at);
      }
      IterateSquare(n, curMult, curPlus, at, left / 2);
      curPlus := Low((curMult + 1) * curPlus, n);
      curMult := Low(curMult * curMult, n);
      left := left / 2;
    }
    r := Low(accMult * state + accPlus, n);
  }

  /** Folding one more step into the accumulated affine map. */
  lemma AccumulateStep(n: nat, am: nat, ap: nat, mult: nat, plus: nat, x: nat)
    ensures Low(Low(am * mult, n) * x + Low(ap * mult + plus, n), n)
         == Bump(n, mult, plus, Low(am * x + ap, n))
  {
    AccumulatePolynomial(am, ap, mult, plus, x);
    AccumulateWrapped(am * mult, ap * mult + plus, am * x + ap, mult, plus, x, n);
  }

  lemma AccumulatePolynomial(am: int, ap: int, a: int, p: int, x: int)
    ensures (am * a) * x + (ap * a + p) == (am * x + ap) * a + p
  {}

  lemma AccumulateWrapped(b: int, q: int, y: int, a: int, p: int, x: int, n: nat)
    requires b * x + q == y * a + p
    ensures Low(Low(b, n) * x + Low(q, n), n) == Low(Low(y, n) * a + p, n)
  {
    hide Low;
    LowLow(y, n);
    LowLow(b, n);
    LowLow(q, n);
    LowAffine(Low(b, n), b, x, x, Low(q, n), q, n);
    LowAffine(Low(y, n), y, a, a, p, p, n);
  }

  // ----- where a step moves a state --------------------------------------------------------------

  /** How far a step moves the state x. */
  function Displacement(mult: nat, plus: nat, x: nat): int {
    (mult - 1) * x + plus
  }

  /** A step from x flips bit k of the state and keeps the bits below it, and the same will be
      true of the squared maps one bit higher up each time. */
  ghost predicate Moves(mult: nat, plus: nat, x: nat, k: nat) {
    mult % 4 == 1 && OddMultiple(Displacement(mult, plus, x), k)
  }

  /** A step from x keeps the k low bits of the state, and the multiplier is odd. */
  ghost predicate Stays(mult: nat, plus: nat, x: nat, k: nat) {
    mult % 2 == 1 && Low(Displacement(mult, plus, x), k) == 0
  }

  lemma BumpDisplaces(n: nat, mult: nat, plus: nat, x: nat, k: nat)
    requires k <= n
    ensures Low(Bump(n, mult, plus, x), k) == Low(x + Displacement(mult, plus, x), k)
  {
    assert x * mult + plus == x + Displacement(mult, plus, x);
    LowLow(x * mult + plus, n);
    LowCoarser(Bump(n, mult, plus, x), x * mult + plus, k, n);
  }

  lemma DisplacementIs(mult: nat, plus: nat, x: nat)
    ensures Displacement(mult, plus, x) == Mul(mult - 1, x) + plus
  {}

  lemma StepDisplaced(n: nat, mult: nat, plus: nat, x: nat)
    ensures Low(Displacement(mult, plus, Bump(n, mult, plus, x)), n)
         == Low(Mul(mult, Displacement(mult, plus, x)), n)
  {
    hide Low, Mul, Displacement, Bump;
    var z := Mul(x, mult) + plus;
    BumpIs(n, mult, plus, x);
    DisplacementIs(mult, plus, x);
    DisplacementIs(mult, plus, Bump(n, mult, plus, x));
    StepPolynomial(mult, plus, x);
    StepWrapped(mult - 1, z, plus, n);
  }

  lemma BumpIs(n: nat, mult: nat, plus: nat, x: nat)
    ensures Bump(n, mult, plus, x) == Low(Mul(x, mult) + plus, n)
  {}

  lemma StepWrapped(a: int, z: int, p: int, n: nat)
    ensures Low(Mul(a, Low(z, n)) + p, n) == Low(Mul(a, z) + p, n)
  {
    hide Low;
    LowLow(z, n);
    LowAffine(a, a, Low(z, n), z, p, p, n);
  }

  lemma StepPolynomial(a: int, p: int, x: int)
    ensures Mul(a - 1, Mul(x, a) + p) + p == Mul(a, Mul(a - 1, x) + p)
  {}

  lemma SquareConstants(n: nat, mult: nat, plus: nat)
    ensures SquareMult(n, mult) == Low(Mul(mult, mult), n)
    ensures SquarePlus(n, mult, plus) == Low(Mul(mult + 1, plus), n)
  {}

  lemma SquareDisplaced(n: nat, mult: nat, plus: nat, x: nat)
    ensures Low(Displacement(SquareMult(n, mult), SquarePlus(n, mult, plus), x), n)
         == Low(Mul(mult + 1, Displacement(mult, plus, x)), n)
  {
    hide Low, Mul, Displacement, SquareMult, SquarePlus;
    SquareConstants(n, mult, plus);
    DisplacementIs(mult, plus, x);
    DisplacementIs(SquareMult(n, mult), SquarePlus(n, mult, plus), x);
    SquarePolynomial(mult, plus, x);
    DisplacedWrapped(Mul(mult, mult), Mul(mult + 1, plus), x, n);
  }

  lemma SquarePolynomial(a: int, p: int, x: int)
    ensures Mul(Mul(a, a) - 1, x) + Mul(a + 1, p) == Mul(a + 1, Mul(a - 1, x) + p)
  {}

  lemma DisplacedWrapped(a: int, p: int, x: int, n: nat)
    ensures Low(Mul(Low(a, n) - 1, x) + Low(p, n), n) == Low(Mul(a - 1, x) + p, n)
  {
    hide Low;
    LowLow(a, n);
    LowLow(p, n);
    LowAffine(1, 1, Low(a, n), a, -1, -1, n);
    LowAffine(Low(a, n) - 1, a - 1, x, x, Low(p, n), p, n);
  }

  lemma {:induction false} SquareMultOdd(n: nat, a: nat)
    requires a % 2 == 1 && 1 <= n
    ensures SquareMult(n, a) % 2 == 1
    ensures a % 4 == 1 && 2 <= n ==> SquareMult(n, a) % 4 == 1
  {
    hide Low, Mul, SquareMult;
    var z := Mul(a, a);
    OddSquare(a);
    SquareConstants(n, a, 0);
    LowLow(z, n);
    LowMod4(z);
    LowMod4(SquareMult(n, a));
    LowCoarser(SquareMult(n, a), z, 1, n);
    if 2 <= n {
      LowCoarser(SquareMult(n, a), z, 2, n);
    }
  }

  lemma OddSquare(a: nat)
    requires a % 2 == 1
    ensures Mul(a, a) % 4 == 1 && Mul(a, a) % 2 == 1
  {
    var t := a / 2;
    OddSquarePolynomial(t);
    DivModUnique(Mul(a, a), 4, t * t + t, 1);
    DivModUnique(Mul(a, a), 2, 2 * (t * t + t), 1);
  }

  lemma OddSquarePolynomial(t: int)
    ensures Mul(2 * t + 1, 2 * t + 1) == 4 * (t * t + t) + 1
  {}

  lemma {:induction false} MovesSquare(n: nat, mult: nat, plus: nat, x: nat, k: nat)
    requires Moves(mult, plus, x, k) && k + 1 < n
    ensures Moves(SquareMult(n, mult), SquarePlus(n, mult, plus), x, k + 1)
  {
    hide Displacement, SquareMult, SquarePlus, Low, OddMultiple, Mul;
    SquareMultOdd(n, mult);
    SquareDisplaced(n, mult, plus, x);
    OneMoreThanOne(mult);
    DoubledDisplacement(Displacement(SquareMult(n, mult), SquarePlus(n, mult, plus), x),
                        Displacement(mult, plus, x), mult + 1, k, n);
  }

  lemma OneMoreThanOne(mult: nat)
    requires mult % 4 == 1
    ensures (mult + 1) % 4 == 2 && mult % 2 == 1
  {}

  lemma DoubledDisplacement(a: int, d: int, f: int, k: nat, n: nat)
    requires f % 4 == 2 && OddMultiple(d, k) && k + 1 < n && Low(a, n) == Low(Mul(f, d), n)
    ensures OddMultiple(a, k + 1)
  {
    hide Low, OddMultiple, Mul;
    OddMultipleDoubles(d, f, k);
    OddMultipleSame(a, Mul(f, d), k + 1, n);
  }

  lemma {:induction false} MovesStep(n: nat, mult: nat, plus: nat, x: nat, k: nat)
    requires Moves(mult, plus, x, k) && k < n
    ensures Moves(mult, plus, Bump(n, mult, plus, x), k)
  {
    hide Displacement, Bump, Low, OddMultiple, Mul;
    var d := Displacement(mult, plus, x);
    StepDisplaced(n, mult, plus, x);
    OddMultipleKept(d, mult, k);
    OddMultipleSame(Displacement(mult, plus, Bump(n, mult, plus, x)), Mul(mult, d), k, n);
  }

  /** A step that moves bit k flips it. */
  lemma {:induction false} MovesFlips(n: nat, mult: nat, plus: nat, x: nat, k: nat)
    requires Moves(mult, plus, x, k) && k < n
    ensures var y := Bump(n, mult, plus, x);
            Low(y, k) == Low(x, k) && Bit(y, k) == 1 - Bit(x, k)
  {
    hide Displacement, Bump, Low;
    BumpDisplaces(n, mult, plus, x, k + 1);
    OddMultipleFlips(x, Bump(n, mult, plus, x), Displacement(mult, plus, x), k);
  }

  lemma {:induction false} MovesStays(mult: nat, plus: nat, x: nat, k: nat)
    requires Moves(mult, plus, x, k)
    ensures Stays(mult, plus, x, k)
  {
    hide Displacement, Low;
    OddMultipleLow(Displacement(mult, plus, x), k);
  }

  lemma {:induction false} StaysSquare(n: nat, mult: nat, plus: nat, x: nat, k: nat)
    requires Stays(mult, plus, x, k) && k + 1 <= n
    ensures Stays(SquareMult(n, mult), SquarePlus(n, mult, plus), x, k + 1)
  {
    hide Displacement, SquareMult, SquarePlus, Low, Mul;
    var d := Displacement(mult, plus, x);
    SquareMultOdd(n, mult);
    SquareDisplaced(n, mult, plus, x);
    LowCoarser(Displacement(SquareMult(n, mult), SquarePlus(n, mult, plus), x),
               Mul(mult + 1, d), k + 1, n);
    LowEvenTimes(d, mult + 1, k);
  }

  lemma {:induction false} StaysStep(n: nat, mult: nat, plus: nat, x: nat, k: nat)
    requires Stays(mult, plus, x, k) && k <= n
    ensures Stays(mult, plus, Bump(n, mult, plus, x), k)
    ensures Low(Bump(n, mult, plus, x), k) == Low(x, k)
  {
    hide Displacement, Bump, Low, Mul;
    var d := Displacement(mult, plus, x);
    StepDisplaced(n, mult, plus, x);
    LowCoarser(Displacement(mult, plus, Bump(n, mult, plus, x)), Mul(mult, d), k, n);
    LowMultiple(d, mult, k);
    BumpDisplaces(n, mult, plus, x, k);
    LowAddMultiple(x, d, k);
  }

  lemma {:induction false} StaysFixes(n: nat, mult: nat, plus: nat, x: nat, k: nat, d: nat)
    requires Stays(mult, plus, x, k) && k <= n
    ensures Low(Iterate(n, mult, plus, x, d), k) == Low(x, k)
    decreases d
  {
    hide Bump, Low, Stays;
    if d > 0 {
      StaysStep(n, mult, plus, x, k);
      StaysFixes(n, mult, plus, Bump(n, mult, plus, x), k, d - 1);
    }
  }

  lemma {:induction false} IterateMoves(n: nat, mult: nat, plus: nat, x: nat, k: nat, d: nat)
    requires Moves(mult, plus, x, k) && k < n
    ensures Moves(mult, plus, Iterate(n, mult, plus, x, d), k)
    decreases d
  {
    hide Bump, Moves;
    if d > 0 {
      MovesStep(n, mult, plus, x, k);
      IterateMoves(n, mult, plus, Bump(n, mult, plus, x), k, d - 1);
    }
  }

  /** An odd increment moves bit 0 of every state. */
  lemma OddIncrementMoves(mult: nat, plus: nat, x: nat)
    requires mult % 4 == 1 && plus % 2 == 1
    ensures Moves(mult, plus, x, 0)
  {
    hide Displacement, Low;
    OddDisplacement(mult, plus, x);
    LowMod4(Displacement(mult, plus, x));
    assert Pow2(0) == 1;
  }

  lemma OddDisplacement(mult: nat, plus: nat, x: nat)
    requires mult % 4 == 1 && plus % 2 == 1
    ensures Displacement(mult, plus, x) % 2 == 1
  {
    hide Displacement, Mul;
    var t, u := mult / 4, plus / 2;
    DisplacementIs(mult, plus, x);
    FourTimes(t, x);
    DivModUnique(Displacement(mult, plus, x), 2, 2 * Mul(t, x) + u, 1);
  }

  lemma FourTimes(t: int, x: int)
    ensures Mul(4 * t, x) == 4 * Mul(t, x)
  {}

  /** Without an increment, a multiplier congruent to 5 modulo 8 moves bit 2 of odd states. */
  lemma McgMoves(mult: nat, x: nat)
    requires mult % 8 == 5 && x % 2 == 1
    ensures Moves(mult, 0, x, 2)
  {
    hide Low, Displacement;
    LowMod4(Displacement(mult, 0, x));
    McgDisplacement(mult, x);
    FiveModEight(mult);
    assert Pow2(2) == 4;
  }

  lemma FiveModEight(m: nat)
    requires m % 8 == 5
    ensures m % 4 == 1
  {
    DivModUnique(m, 4, 2 * (m / 8) + 1, 1);
  }

  lemma McgDisplacement(mult: nat, x: nat)
    requires mult % 8 == 5 && x % 2 == 1
    ensures Displacement(mult, 0, x) % 8 == 4
  {
    hide Displacement, Mul;
    var t, u := mult / 8, x / 2;
    DisplacementIs(mult, 0, x);
    McgPolynomial(t, u);
    DivModUnique(Displacement(mult, 0, x), 8, 2 * Mul(t, u) + t + u, 4);
  }

  lemma McgPolynomial(t: int, u: int)
    ensures Mul(8 * t + 4, 2 * u + 1) == 8 * (2 * Mul(t, u) + t + u) + 4
  {}

  // ----- periods ---------------------------------------------------------------------------------

  /** From a state whose steps move bit k, the low k+j bits come back after d steps exactly
      when 2^j divides d. */
  lemma {:induction false} PeriodOfLowBits(n: nat, mult: nat, plus: nat, x: nat,
                                           k: nat, j: nat, d: nat)
    requires Moves(mult, plus, x, k) && k < n && k + j <= n
    ensures Low(Iterate(n, mult, plus, x, d), k + j) == Low(x, k + j) <==> Low(d, j) == 0
    decreases j
  {
    hide Low, Bump, SquareMult, SquarePlus, Moves, Stays, Iterate;
    MovesStays(mult, plus, x, k);
    if j == 0 {
      StaysFixes(n, mult, plus, x, k, d);
      LowMod4(d);
    } else if d % 2 == 1 {
      OddStepsMove(n, mult, plus, x, k, d);
      LowMod4(d);
      if Low(d, j) == 0 {
        LowSmall(0, j);
        LowSmall(0, 1);
        LowCoarser(d, 0, 1, j);
      }
      if Low(Iterate(n, mult, plus, x, d), k + j) == Low(x, k + j) {
        LowCoarser(Iterate(n, mult, plus, x, d), x, k + 1, k + j);
      }
    } else {
      var m, p := SquareMult(n, mult), SquarePlus(n, mult, plus);
      IterateSquare(n, mult, plus, x, d / 2);
      LowDoubled(d / 2, j - 1);
      if k + 1 < n {
        MovesSquare(n, mult, plus, x, k);
        PeriodOfLowBits(n, m, p, x, k + 1, j - 1, d / 2);
      } else {
        StaysSquare(n, mult, plus, x, k);
        StaysFixes(n, m, p, x, k + 1, d / 2);
        LowMod4(d / 2);
      }
    }
  }

  lemma LowDoubled(e: nat, j: nat)
    ensures Low(2 * e, j + 1) == 0 <==> Low(e, j) == 0
  {
    EvenMultiple(e, j);
  }

  lemma {:induction false} OddStepsMove(n: nat, mult: nat, plus: nat, x: nat, k: nat, d: nat)
    requires Moves(mult, plus, x, k) && k < n && d % 2 == 1
    ensures Low(Iterate(n, mult, plus, x, d), k + 1) != Low(x, k + 1)
  {
    hide Low, Bump, SquareMult, SquarePlus, Moves, Stays, Bit;
    var y := Bump(n, mult, plus, x);
    MovesFlips(n, mult, plus, x, k);
    MovesStep(n, mult, plus, x, k);
    MovesStays(mult, plus, y, k);
    StaysSquare(n, mult, plus, y, k);
    StaysFixes(n, SquareMult(n, mult), SquarePlus(n, mult, plus), y, k + 1, d / 2);
    IterateSquare(n, mult, plus, y, d / 2);
    BitsDiffer(x, y, k);
  }

  lemma BitsDiffer(x: nat, y: nat, k: nat)
    requires Low(x, k) == Low(y, k)
    ensures Low(x, k + 1) == Low(y, k + 1) <==> Bit(x, k) == Bit(y, k)
  {
    hide Low, Bit;
    LowTopBit(x, k);
    LowTopBit(y, k);
    SameMultiple(Pow2(k), Bit(x, k), Bit(y, k));
  }

  /** The generators with an odd increment have period exactly 2^n. */
  lemma FullPeriod(n: nat, mult: nat, plus: nat, x: nat, d: nat)
    requires 0 < n && mult % 4 == 1 && plus % 2 == 1 && x < Pow2(n)
    ensures Iterate(n, mult, plus, x, d) == x <==> d % Pow2(n) == 0
  {
    OddIncrementMoves(mult, plus, x);
    PeriodOfLowBits(n, mult, plus, x, 0, n, d);
    IterateBound(n, mult, plus, x, d);
    LowSmall(x, n);
    LowSmall(Iterate(n, mult, plus, x, d), n);
  }

  /** The multiplicative generators have period exactly 2^(n-2). */
  lemma McgPeriod(n: nat, mult: nat, x: nat, d: nat)
    requires 2 < n && mult % 8 == 5 && x % 2 == 1 && x < Pow2(n)
    ensures Iterate(n, mult, 0, x, d) == x <==> d % Pow2(n - 2) == 0
  {
    McgMoves(mult, x);
    PeriodOfLowBits(n, mult, 0, x, 2, n - 2, d);
    IterateBound(n, mult, 0, x, d);
    LowSmall(x, n);
    LowSmall(Iterate(n, mult, 0, x, d), n);
  }

  /** Two step counts below the period that lead to the same state are equal. */
  lemma {:induction false} StepsUnique(n: nat, mult: nat, plus: nat, x: nat, b: nat, d: nat, e: nat)
    requires b < n && Moves(mult, plus, x, b) && d <= e < Pow2(n - b)
    requires Iterate(n, mult, plus, x, d) == Iterate(n, mult, plus, x, e)
    ensures d == e
  {
    hide Low, Moves, Iterate;
    IterateMoves(n, mult, plus, x, b, d);
    IterateAdd(n, mult, plus, x, d, e - d);
    PeriodOfLowBits(n, mult, plus, Iterate(n, mult, plus, x, d), b, n - b, e - d);
    LowSmall(e - d, n - b);
  }

  // ----- which states are reachable --------------------------------------------------------------

  /** The number of steps from x to t, found bit by bit from bit k upwards. */
  lemma {:induction false} StepsTo(n: nat, mult: nat, plus: nat, x: nat, t: nat, k: nat)
      returns (d: nat)
    requires x < Pow2(n) && t < Pow2(n) && k <= n && Low(x, k) == Low(t, k)
    requires k < n ==> Moves(mult, plus, x, k)
    ensures Iterate(n, mult, plus, x, d) == t
    decreases n - k
  {
    hide Low, Moves, SquareMult, SquarePlus, Bit;
    if k == n {
      LowSmall(x, n);
      LowSmall(t, n);
      d := 0;
    } else {
      BitsDiffer(x, t, k);
      var y := if Bit(x, k) != Bit(t, k) then Bump(n, mult, plus, x) else x;
      if Bit(x, k) != Bit(t, k) {
        FlipToMatch(n, mult, plus, x, t, k);
      }
      if k + 1 < n {
        MovesSquare(n, mult, plus, y, k);
      }
      var e := StepsTo(n, SquareMult(n, mult), SquarePlus(n, mult, plus), y, t, k + 1);
      IterateSquare(n, mult, plus, y, e);
      d := if Bit(x, k) != Bit(t, k) then 2 * e + 1 else 2 * e;
    }
  }

  /** Flipping the first bit that differs makes one more bit agree. */
  lemma FlipToMatch(n: nat, mult: nat, plus: nat, x: nat, t: nat, k: nat)
    requires k < n && Low(x, k) == Low(t, k) && Bit(x, k) != Bit(t, k)
    requires Moves(mult, plus, x, k)
    ensures var y := Bump(n, mult, plus, x);
            Moves(mult, plus, y, k) && Low(y, k + 1) == Low(t, k + 1) && Bit(y, k) == Bit(t, k)
  {
    hide Low, Moves, Bump;
    MovesFlips(n, mult, plus, x, k);
    MovesStep(n, mult, plus, x, k);
    BitsDiffer(Bump(n, mult, plus, x), t, k);
  }

  ghost predicate Reaches(n: nat, mult: nat, plus: nat, x: nat, t: nat) {
    exists d: nat :: Iterate(n, mult, plus, x, d) == t
  }

  /** Every state leads to every other exactly when the multiplier is congruent to 1 modulo 4
      and the increment is odd, as the generators with an increment arrange. */
  lemma {:induction false} AllReachableIff(n: nat, mult: nat, plus: nat)
    requires 2 <= n
    ensures (forall x: nat, t: nat | x < Pow2(n) && t < Pow2(n) :: Reaches(n, mult, plus, x, t))
       <==> mult % 4 == 1 && plus % 2 == 1
  {
    hide Moves, Iterate;
    if mult % 4 == 1 && plus % 2 == 1 {
      forall x: nat, t: nat | x < Pow2(n) && t < Pow2(n)
        ensures Reaches(n, mult, plus, x, t)
      {
        OddIncrementMoves(mult, plus, x);
        var d := StepsTo(n, mult, plus, x, t, 0);
      }
    } else {
      var x, t := UnreachablePair(n, mult, plus);
    }
  }

  /** A multiplicative generator leads from one odd state to another exactly when their two low bits
      agree. */
  lemma McgReachesIff(n: nat, mult: nat, x: nat, t: nat)
    requires 2 < n && mult % 8 == 5 && x % 2 == 1 && t % 2 == 1 && x < Pow2(n) && t < Pow2(n)
    ensures Reaches(n, mult, 0, x, t) <==> x % 4 == t % 4
  {
    hide Low, Iterate, Moves, Stays;
    McgMoves(mult, x);
    MovesStays(mult, 0, x, 2);
    LowMod4(x);
    LowMod4(t);
    if Reaches(n, mult, 0, x, t) {
      var d: nat :| Iterate(n, mult, 0, x, d) == t;
      StaysFixes(n, mult, 0, x, 2, d);
    }
    if x % 4 == t % 4 {
      var d := StepsTo(n, mult, 0, x, t, 2);
    }
  }

  /** Whatever else the constants are, some state cannot be reached from some other. */
  lemma {:induction false} UnreachablePair(n: nat, mult: nat, plus: nat)
      returns (x: nat, t: nat)
    requires 2 <= n && (mult % 4 != 1 || plus % 2 == 0)
    ensures x < Pow2(n) && t < Pow2(n) && !Reaches(n, mult, plus, x, t)
  {
    hide *;
    AtLeastFour(n);
    if mult % 2 == 0 {
      x, t := plus % 2, 1 - plus % 2;
      UnreachableByParity(n, mult, plus, x, t);
    } else if plus % 2 == 0 {
      x, t := 0, 1;
      UnreachableByIncrement(n, mult, plus);
    } else {
      x, t := 0, if Bump(n, mult, plus, 0) % 4 == 1 then 2 else 1;
      ThreeMod4(mult);
      UnreachableByResidue(n, mult, plus, t);
    }
  }

  lemma AtLeastFour(n: nat)
    requires 2 <= n
    ensures Pow2(n) >= 4
  {
    Pow2Mono(2, n);
    assert Pow2(2) == 4;
  }

  lemma ThreeMod4(m: nat)
    requires m % 2 == 1 && m % 4 != 1
    ensures m % 4 == 3
  {
    var q, r := m / 4, m % 4;
    assert m == 4 * q + r;
    if r == 0 {
      DivModUnique(m, 2, 2 * q, 0);
    } else if r == 2 {
      DivModUnique(m, 2, 2 * q + 1, 0);
    }
  }

  lemma UnreachableByParity(n: nat, mult: nat, plus: nat, x: nat, t: nat)
    requires 1 <= n && mult % 2 == 0 && x == plus % 2 && t == 1 - x
    ensures !Reaches(n, mult, plus, x, t)
  {
    hide Iterate;
    forall d: nat
      ensures Iterate(n, mult, plus, x, d) != t
    {
      EvenMultiplierParity(n, mult, plus, x, d);
    }
  }

  lemma UnreachableByIncrement(n: nat, mult: nat, plus: nat)
    requires 1 <= n && mult % 2 == 1 && plus % 2 == 0
    ensures !Reaches(n, mult, plus, 0, 1)
  {
    hide Iterate;
    forall d: nat
      ensures Iterate(n, mult, plus, 0, d) != 1
    {
      EvenIncrementParity(n, mult, plus, d);
    }
  }

  lemma UnreachableByResidue(n: nat, mult: nat, plus: nat, t: nat)
    requires 2 <= n && mult % 4 == 3 && t == if Bump(n, mult, plus, 0) % 4 == 1 then 2 else 1
    ensures !Reaches(n, mult, plus, 0, t)
  {
    hide Iterate, Bump;
    forall d: nat
      ensures Iterate(n, mult, plus, 0, d) != t
    {
      TwoResidues(n, mult, plus, d);
    }
  }

  lemma {:induction false} EvenMultiplierParity(n: nat, mult: nat, plus: nat, x: nat, d: nat)
    requires 1 <= n && mult % 2 == 0 && x % 2 == plus % 2
    ensures Iterate(n, mult, plus, x, d) % 2 == plus % 2
    decreases d
  {
    hide Bump;
    if d > 0 {
      EvenMultiplierStep(n, mult, plus, x);
      EvenMultiplierParity(n, mult, plus, Bump(n, mult, plus, x), d - 1);
    }
  }

  lemma {:induction false} EvenMultiplierStep(n: nat, mult: nat, plus: nat, x: nat)
    requires 1 <= n && mult % 2 == 0
    ensures Bump(n, mult, plus, x) % 2 == plus % 2
  {
    hide Low, Mul, Bump;
    var z := Mul(x, mult) + plus;
    BumpIs(n, mult, plus, x);
    EvenProduct(x, mult, plus);
    LowLow(z, n);
    LowCoarser(Low(z, n), z, 1, n);
    LowMod4(z);
    LowMod4(Low(z, n));
  }

  lemma EvenProduct(x: nat, m: nat, p: nat)
    requires m % 2 == 0
    ensures (Mul(x, m) + p) % 2 == p % 2
  {
    var h := x * (m / 2);
    assert x * (2 * (m / 2)) == h * 2;
    ModShift(p, h, 2);
  }

  lemma {:induction false} EvenIncrementParity(n: nat, mult: nat, plus: nat, d: nat)
    requires 1 <= n && mult % 2 == 1 && plus % 2 == 0
    ensures Iterate(n, mult, plus, 0, d) % 2 == 0
  {
    hide Low, Iterate;
    assert Displacement(mult, plus, 0) == plus;
    LowMod4(plus);
    LowMod4(0);
    LowMod4(Iterate(n, mult, plus, 0, d));
    StaysFixes(n, mult, plus, 0, 1, d);
  }

  /** With multiplier 3 modulo 4 and an odd increment only two residues modulo 4 are visited. */
  lemma {:induction false} TwoResidues(n: nat, mult: nat, plus: nat, d: nat)
    requires 2 <= n && mult % 4 == 3
    ensures Iterate(n, mult, plus, 0, d) % 4 in {0, Bump(n, mult, plus, 0) % 4}
  {
    hide Low, Bump, SquareMult, SquarePlus, Stays;
    var x := if d % 2 == 0 then 0 else Bump(n, mult, plus, 0);
    IterateSquare(n, mult, plus, x, d / 2);
    SquareStaysMod4(n, mult, plus, x);
    StaysFixes(n, SquareMult(n, mult), SquarePlus(n, mult, plus), x, 2, d / 2);
    LowMod4(x);
    LowMod4(Iterate(n, mult, plus, 0, d));
  }

  lemma {:induction false} SquareStaysMod4(n: nat, mult: nat, plus: nat, x: nat)
    requires 2 <= n && mult % 4 == 3
    ensures Stays(SquareMult(n, mult), SquarePlus(n, mult, plus), x, 2)
  {
    hide Displacement, SquareMult, SquarePlus, Low, Mul;
    var d := Displacement(mult, plus, x);
    OneMoreThanThree(mult);
    SquareMultOdd(n, mult);
    SquareDisplaced(n, mult, plus, x);
    LowCoarser(Displacement(SquareMult(n, mult), SquarePlus(n, mult, plus), x),
               Mul(mult + 1, d), 2, n);
    LowMod4(mult + 1);
    LowMultiple(mult + 1, d, 2);
    Commute(d, mult + 1);
  }

  lemma OneMoreThanThree(m: nat)
    requires m % 4 == 3
    ensures (m + 1) % 4 == 0 && m % 2 == 1
  {
    DivModUnique(m + 1, 4, m / 4 + 1, 0);
    DivModUnique(m, 2, 2 * (m / 4) + 1, 1);
  }

  lemma Commute(a: int, b: int)
    ensures Mul(a, b) == Mul(b, a)
  {}

  // ----- stepping back ---------------------------------------------------------------------------

  /** With an odd multiplier 2^n steps are the identity, whatever the increment. */
  lemma {:induction false} FullTurn(n: nat, mult: nat, plus: nat, x: nat, k: nat)
    requires k <= n && x < Pow2(n) && Stays(mult, plus, x, k)
    ensures Iterate(n, mult, plus, x, Pow2(n - k)) == x
    decreases n - k
  {
    hide Low, Stays, SquareMult, SquarePlus, Iterate;
    if k == n {
      StaysFixes(n, mult, plus, x, n, 1);
      IterateBound(n, mult, plus, x, 1);
      LowSmall(x, n);
      LowSmall(Iterate(n, mult, plus, x, 1), n);
    } else {
      StaysSquare(n, mult, plus, x, k);
      FullTurn(n, SquareMult(n, mult), SquarePlus(n, mult, plus), x, k + 1);
      IterateSquare(n, mult, plus, x, Pow2(n - k - 1));
    }
  }

  /** The n-bit word that represents -delta. */
  function Negated(n: nat, delta: nat): nat {
    Low(0 - delta, n)
  }

  /** delta steps and then -delta steps lead back to x. */
  ghost predicate BackstepUndoesAt(n: nat, mult: nat, plus: nat, x: nat, delta: nat) {
    Iterate(n, mult, plus, Iterate(n, mult, plus, x, delta), Negated(n, delta)) == x
  }

  lemma {:induction false} BackstepUndoes(n: nat, mult: nat, plus: nat, x: nat, delta: nat)
    requires mult % 2 == 1 && x < Pow2(n) && delta < Pow2(n)
    ensures BackstepUndoesAt(n, mult, plus, x, delta)
  {
    hide Iterate, Bump;
    NegatedValue(n, delta);
    IterateAdd(n, mult, plus, x, delta, Negated(n, delta));
    if delta == 0 {
      assert Iterate(n, mult, plus, x, 0) == x by {
        NoSteps(n, mult, plus, x);
      }
    } else {
      LowMod4(Displacement(mult, plus, x));
      FullTurn(n, mult, plus, x, 0);
    }
  }

  lemma NoSteps(n: nat, mult: nat, plus: nat, x: nat)
    ensures Iterate(n, mult, plus, x, 0) == x
  {}

  lemma NegatedValue(n: nat, delta: nat)
    requires delta < Pow2(n)
    ensures Negated(n, delta) == if delta == 0 then 0 else Pow2(n) - delta
  {
    if delta == 0 {
      LowSmall(0, n);
    } else {
      DivModUnique(0 - delta, Pow2(n), -1, Pow2(n) - delta);
    }
  }

  /** Backstep undoes every advance exactly when the multiplier is odd. */
  lemma {:induction false} BackstepUndoesIff(n: nat, mult: nat, plus: nat)
    requires 1 <= n
    ensures (forall x: nat, delta: nat | x < Pow2(n) && delta < Pow2(n)
               :: BackstepUndoesAt(n, mult, plus, x, delta))
       <==> mult % 2 == 1
  {
    hide Bump;
    if mult % 2 == 1 {
      forall x: nat, delta: nat | x < Pow2(n) && delta < Pow2(n)
        ensures BackstepUndoesAt(n, mult, plus, x, delta)
      {
        BackstepUndoes(n, mult, plus, x, delta);
      }
    } else {
      EvenMultiplierCollides(n, mult, plus);
      assert Iterate(n, mult, plus, Pow2(n - 1), 1) == Iterate(n, mult, plus, 0, 1);
      assert !(BackstepUndoesAt(n, mult, plus, 0, 1)
               && BackstepUndoesAt(n, mult, plus, Pow2(n - 1), 1));
    }
  }

  /** With an even multiplier 0 and 2^(n-1) step to the same state. */
  lemma EvenMultiplierCollides(n: nat, mult: nat, plus: nat)
    requires 1 <= n && mult % 2 == 0
    ensures Bump(n, mult, plus, Pow2(n - 1)) == Bump(n, mult, plus, 0)
  {
    var h, t := Pow2(n - 1), mult / 2;
    assert h * (2 * t) == t * (2 * h);
    ModShift(plus, t, Pow2(n));
  }
}
