/** The PCG engine object: a state word, a stream increment, and the operations that move the
    state.  The output functions are in module Output. */
module PcgEngine {
  import opened Options
  import opened Arith
  import opened Lcg

  /** The low-order bits that a multiplicative generator never changes. */
  function FixedBits(isMcg: bool): nat {
    if isMcg then 2 else 0
  }

  /** How many steps lead from curState to newState, as far as the bits selected by mask go.
      The loop runs at most once for each bit of the word. */
  method Distance(n: nat, isMcg: bool, curState: nat, newState: nat, mult: nat, plus: nat, mask: nat)
      returns (distance: nat)
    requires FixedBits(isMcg) < n && curState < Pow2(n) && newState < Pow2(n)
    requires Moves(mult, plus, curState, FixedBits(isMcg))
    requires isMcg ==> curState % 4 == newState % 4
    ensures distance < Pow2(n - FixedBits(isMcg))
    ensures And(Iterate(n, mult, plus, curState, distance), mask) == And(newState, mask)
    ensures mask == Pow2(n) - 1 ==>
      forall d: nat | d < Pow2(n - FixedBits(isMcg))
        :: Iterate(n, mult, plus, curState, d) == newState <==> d == distance
  {
    hide Bump, SquareMult, SquarePlus, Agree, Counted, And, Or, Moves, Iterate, Low, Pow2;
    StartAgrees(n, isMcg, curState, newState, mult, plus);
    var cur: nat, curMult: nat, curPlus: nat := curState, mult, plus;
    var theBit: nat := if isMcg then 4 else 1;
    distance := 0;
    ghost var k: nat, steps: nat := FixedBits(isMcg), 0;
    while And(cur, mask) != And(newState, mask)
      invariant FixedBits(isMcg) <= k <= n
      invariant Agree(n, curMult, curPlus, cur, newState, theBit, k)
      invariant Counted(n, isMcg, mult, plus, curState, cur, curMult, curPlus, k, steps)
      invariant distance == Scaled(isMcg, steps)
      decreases n - k
    {
      RoundAgrees(n, curMult, curPlus, cur, newState, theBit, k);
      RoundCounts(n, isMcg, mult, plus, curState, cur, curMult, curPlus, k, steps);
      if And(cur, theBit) != And(newState, theBit) {
        cur := Bump(n, curMult, curPlus, cur);
        distance := Or(distance, theBit);
        steps := steps + Pow2(k - FixedBits(isMcg));
      }
      assert And(cur, theBit) == And(newState, theBit);
      theBit := Low(2 * theBit, n);
      curPlus := SquarePlus(n, curMult, curPlus);
      curMult := SquareMult(n, curMult);
      k := k + 1;
    }
    distance := if isMcg then distance / 4 else distance;
    CountBound(n, isMcg, mult, plus, curState, cur, curMult, curPlus, k, steps);
    OnlyDistance(n, curState, newState, mult, plus, FixedBits(isMcg), mask, distance);
  }

  lemma StartAgrees(n: nat, isMcg: bool, start: nat, t: nat, mult: nat, plus: nat)
    requires FixedBits(isMcg) < n && start < Pow2(n) && t < Pow2(n)
    requires Moves(mult, plus, start, FixedBits(isMcg)) && (isMcg ==> start % 4 == t % 4)
    ensures Agree(n, mult, plus, start, t, if isMcg then 4 else 1, FixedBits(isMcg))
    ensures Counted(n, isMcg, mult, plus, start, start, mult, plus, FixedBits(isMcg), 0)
  {
    assert Pow2(2) == 4 && Pow2(0) == 1;
    LowMod4(start);
    LowMod4(t);
  }

  lemma CountBound(n: nat, isMcg: bool, mult: nat, plus: nat, start: nat, cur: nat,
                   m: nat, p: nat, k: nat, steps: nat)
    requires Counted(n, isMcg, mult, plus, start, cur, m, p, k, steps) && k <= n
    ensures steps < Pow2(n - FixedBits(isMcg)) && cur == Iterate(n, mult, plus, start, steps)
  {
    Pow2Mono(k - FixedBits(isMcg), n - FixedBits(isMcg));
  }

  /** At bit k: the states agree below it, and a step moves it and nothing below. */
  ghost predicate Agree(n: nat, m: nat, p: nat, cur: nat, t: nat, theBit: nat, k: nat) {
    && k <= n && cur < Pow2(n) && t < Pow2(n) && Low(cur, k) == Low(t, k)
    && (k < n ==> theBit == Pow2(k) && Moves(m, p, cur, k))
  }

  /** The current state is so many steps from the start; a step of the current map is
      2^(k - fixed bits) steps of the original one. */
  ghost predicate Counted(n: nat, isMcg: bool, mult: nat, plus: nat, start: nat, cur: nat,
                          m: nat, p: nat, k: nat, steps: nat) {
    var b := FixedBits(isMcg);
    && b <= k && (m, p) == Squared(n, mult, plus, k - b)
    && steps < Pow2(k - b) && cur == Iterate(n, mult, plus, start, steps)
  }

  lemma RoundAgrees(n: nat, m: nat, p: nat, cur: nat, t: nat, theBit: nat, k: nat)
    requires Agree(n, m, p, cur, t, theBit, k) && cur != t
    ensures k < n && theBit == Pow2(k)
    ensures var differs := And(cur, theBit) != And(t, theBit);
            var cur' := if differs then Bump(n, m, p, cur) else cur;
            && And(cur', theBit) == And(t, theBit)
            && Agree(n, SquareMult(n, m), SquarePlus(n, m, p), cur', t,
                     Low(2 * theBit, n), k + 1)
  {
    SomeBitLeft(n, k, cur, t);
    SameBit(k, cur, t);
    var cur' := cur;
    if And(cur, theBit) != And(t, theBit) {
      FlipToMatch(n, m, p, cur, t, k);
      cur' := Bump(n, m, p, cur);
      SameBit(k, cur', t) by {
        LowCoarser(cur', t, k, k + 1);
      }
    }
    NextBit(n, theBit, k);
    if k + 1 < n {
      MovesSquare(n, m, p, cur', k);
    }
  }

  lemma RoundCounts(n: nat, isMcg: bool, mult: nat, plus: nat, start: nat, cur: nat,
                    m: nat, p: nat, k: nat, steps: nat)
    requires Counted(n, isMcg, mult, plus, start, cur, m, p, k, steps)
    ensures var m', p' := SquareMult(n, m), SquarePlus(n, m, p);
            var more := steps + Pow2(k - FixedBits(isMcg));
            && Counted(n, isMcg, mult, plus, start, cur, m', p', k + 1, steps)
            && Counted(n, isMcg, mult, plus, start, Bump(n, m, p, cur), m', p', k + 1, more)
            && Or(Scaled(isMcg, steps), Pow2(k)) == Scaled(isMcg, more)
  {
    hide Bump, SquareMult, SquarePlus, Or, Pow2, Iterate, Scaled;
    var b := FixedBits(isMcg);
    OneSquaredStep(n, mult, plus, start, cur, steps, k - b);
    OrAboveSteps(isMcg, steps, k);
    Pow2Mono(k - b, k + 1 - b);
    assert Squared(n, mult, plus, k + 1 - b) == (SquareMult(n, m), SquarePlus(n, m, p));
  }

  /** The state after k rounds of the loop, whether or not it would have ended before. */
  function AfterRounds(n: nat, mult: nat, plus: nat, cur: nat, t: nat, theBit: nat, k: nat): nat
    decreases k
  {
    if k == 0 then cur
    else
      var next := if And(cur, theBit) != And(t, theBit) then Bump(n, mult, plus, cur) else cur;
      AfterRounds(n, SquareMult(n, mult), SquarePlus(n, mult, plus), next, t, Low(2 * theBit, n), k - 1)
  }

  lemma {:induction false} RoundsAreSteps(n: nat, mult: nat, plus: nat, cur: nat, t: nat, theBit: nat, k: nat)
      returns (d: nat)
    ensures AfterRounds(n, mult, plus, cur, t, theBit, k) == Iterate(n, mult, plus, cur, d)
    decreases k
  {
    hide Bump, SquareMult, SquarePlus, And, Low;
    if k == 0 {
      d := 0;
    } else {
      var first := if And(cur, theBit) != And(t, theBit) then 1 else 0;
      var next := if first == 1 then Bump(n, mult, plus, cur) else cur;
      var m, p := SquareMult(n, mult), SquarePlus(n, mult, plus);
      var e := RoundsAreSteps(n, m, p, next, t, Low(2 * theBit, n), k - 1);
      IterateSquare(n, mult, plus, next, e);
      IterateAdd(n, mult, plus, cur, first, 2 * e);
      assert Iterate(n, mult, plus, cur, first) == next by {
        FirstSteps(n, mult, plus, cur);
      }
      d := first + 2 * e;
    }
  }

  lemma FirstSteps(n: nat, mult: nat, plus: nat, x: nat)
    ensures Iterate(n, mult, plus, x, 0) == x && Iterate(n, mult, plus, x, 1) == Bump(n, mult, plus, x)
  {
    hide Bump;
  }

  /** Where no steps lead to the target, no round of the loop does. */
  lemma LoopNeverEnds(n: nat, mult: nat, plus: nat, x: nat, t: nat, theBit: nat, k: nat)
    requires !Reaches(n, mult, plus, x, t)
    ensures AfterRounds(n, mult, plus, x, t, theBit, k) != t
  {
    var d := RoundsAreSteps(n, mult, plus, x, t, theBit, k);
  }

  /** With all bits selected the number of steps is the only one below the period. */
  lemma OnlyDistance(n: nat, x: nat, t: nat, mult: nat, plus: nat, b: nat, mask: nat, distance: nat)
    requires b < n && x < Pow2(n) && t < Pow2(n) && Moves(mult, plus, x, b)
    requires distance < Pow2(n - b)
    requires And(Iterate(n, mult, plus, x, distance), mask) == And(t, mask)
    ensures mask == Pow2(n) - 1 ==>
      forall d: nat | d < Pow2(n - b) :: Iterate(n, mult, plus, x, d) == t <==> d == distance
  {
    if mask == Pow2(n) - 1 {
      IterateBound(n, mult, plus, x, distance);
      AndAllOnes(Iterate(n, mult, plus, x, distance), n);
      AndAllOnes(t, n);
      forall d: nat | d < Pow2(n - b) && Iterate(n, mult, plus, x, d) == t
        ensures d == distance
      {
        if d <= distance {
          StepsUnique(n, mult, plus, x, b, d, distance);
        } else {
          StepsUnique(n, mult, plus, x, b, distance, d);
        }
      }
    }
  }

  /** Step counts are collected at the position of the bits that change. */
  function Scaled(isMcg: bool, steps: nat): nat {
    if isMcg then 4 * steps else steps
  }

  lemma SomeBitLeft(n: nat, k: nat, x: nat, t: nat)
    requires k <= n && x < Pow2(n) && t < Pow2(n) && Low(x, k) == Low(t, k) && x != t
    ensures k < n
  {
    LowSmall(x, n);
    LowSmall(t, n);
  }

  /** States that agree below bit k agree up to bit k exactly when the bit agrees. */
  lemma SameBit(k: nat, x: nat, t: nat)
    requires Low(x, k) == Low(t, k)
    ensures And(x, Pow2(k)) == And(t, Pow2(k)) <==> Bit(x, k) == Bit(t, k)
    ensures And(x, Pow2(k)) == And(t, Pow2(k)) <==> Low(x, k + 1) == Low(t, k + 1)
  {
    AndSingleBit(x, k);
    AndSingleBit(t, k);
    BitsDiffer(x, t, k);
    SameMultiple(Pow2(k), Bit(x, k), Bit(t, k));
  }

  lemma NextBit(n: nat, bit: nat, k: nat)
    requires bit == Pow2(k)
    ensures k + 1 < n ==> Low(2 * bit, n) == Pow2(k + 1)
  {
    if k + 1 < n {
      Pow2Mono(k + 2, n);
      LowSmall(2 * bit, n);
    }
  }

  lemma OneSquaredStep(n: nat, mult: nat, plus: nat, start: nat, cur: nat, steps: nat, j: nat)
    requires cur == Iterate(n, mult, plus, start, steps)
    ensures var (m, p) := Squared(n, mult, plus, j);
            Bump(n, m, p, cur) == Iterate(n, mult, plus, start, steps + Pow2(j))
  {
    var (m, p) := Squared(n, mult, plus, j);
    SquaredStep(n, mult, plus, cur, j, 1);
    assert Iterate(n, m, p, cur, 1) == Iterate(n, m, p, Bump(n, m, p, cur), 0);
    IterateAdd(n, mult, plus, start, steps, Pow2(j));
  }

  lemma OrAboveSteps(isMcg: bool, steps: nat, k: nat)
    requires FixedBits(isMcg) <= k && steps < Pow2(k - FixedBits(isMcg))
    ensures var b := FixedBits(isMcg);
            && Or(Scaled(isMcg, steps), Pow2(k)) == Scaled(isMcg, steps + Pow2(k - b))
            && steps + Pow2(k - b) < Pow2(k + 1 - b)
  {
    hide Or, Pow2;
    var b := FixedBits(isMcg);
    Pow2OfFixed(isMcg);
    Pow2Add(b, k - b);
    Pow2Next(k - b);
    OrFreshBit(Scaled(isMcg, steps), k);
  }

  lemma Pow2OfFixed(isMcg: bool)
    ensures Pow2(FixedBits(isMcg)) == if isMcg then 4 else 1
  {
    assert Pow2(1) == 2;
  }

  lemma Pow2Next(k: nat)
    ensures Pow2(k + 1) == 2 * Pow2(k)
  {
  }

  // ----- the constants the library supplies ------------------------------------------------------

  /** A 128-bit constant from its two halves. */
  function Wide(high: nat, low: nat): nat {
    high * 0x1_0000_0000_0000_0000 + low
  }

  function DefaultMultiplier(bits: nat): nat {
    match bits
    case 8 => 141
    case 16 => 12829
    case 32 => 747796405
    case 64 => 6364136223846793005
    case _ => Wide(2549297995355413924, 4865540595714422341)
  }

  function DefaultIncrement(bits: nat): nat {
    match bits
    case 8 => 77
    case 16 => 47989
    case 32 => 2891336453
    case 64 => 1442695040888963407
    case _ => Wide(6364136223846793005, 1442695040888963407)
  }

  /** The increment that selects a stream: twice the stream number plus one, wrapped. */
  function StreamIncrement(n: nat, stream: nat): nat {
    Or(Low(2 * stream, n), 1)
  }

  lemma OrOne(a: nat)
    ensures Or(a, 1) == if a % 2 == 0 then a + 1 else a
  {
    OrZero(a / 2);
  }

  lemma OrThree(a: nat)
    ensures Or(a, 3) == a / 4 * 4 + 3
  {
    assert Or(a, 3) == 2 * Or(a / 2, 1) + 1;
    OrOne(a / 2);
  }

  /** A state of a multiplicative generator has its two low bits set. */
  function McgState(seed: nat): nat {
    Or(seed, 3)
  }

  /** All the generators the library defines meet what distance needs: the default multipliers
      with an odd increment - the default ones, any chosen stream, an address with its low bit
      set - or with no increment and a state whose two low bits are set. */
  lemma LibraryGeneratorsMove(bits: nat, seed: nat, stream: nat, x: nat)
    requires bits in {8, 16, 32, 64, 128}
    ensures DefaultMultiplier(bits) % 8 == 5 && DefaultIncrement(bits) % 2 == 1
    ensures StreamIncrement(bits, stream) % 2 == 1
    ensures Moves(DefaultMultiplier(bits), DefaultIncrement(bits), x, 0)
    ensures Moves(DefaultMultiplier(bits), StreamIncrement(bits, stream), x, 0)
    ensures Moves(DefaultMultiplier(bits), 0, McgState(seed), 2)
  {
    hide *;
    var m := DefaultMultiplier(bits);
    DefaultConstants(bits);
    StreamIncrementOdd(bits, stream);
    McgStateOdd(seed);
    OddIncrementMoves(m, DefaultIncrement(bits), x);
    OddIncrementMoves(m, StreamIncrement(bits, stream), x);
    McgMoves(m, McgState(seed));
  }

  lemma DefaultConstants(bits: nat)
    requires bits in {8, 16, 32, 64, 128}
    ensures DefaultMultiplier(bits) % 8 == 5 && DefaultMultiplier(bits) % 4 == 1
    ensures DefaultIncrement(bits) % 2 == 1
  {}

  lemma StreamIncrementOdd(n: nat, stream: nat)
    ensures StreamIncrement(n, stream) % 2 == 1
  {
    hide Low, Or;
    var a := Low(2 * stream, n);
    OrOne(a);
    if a % 2 == 0 {
      DivModUnique(a + 1, 2, a / 2, 1);
    }
  }

  lemma McgStateOdd(seed: nat)
    ensures McgState(seed) % 2 == 1 && McgState(seed) % 4 == 3
  {
    hide Or;
    OrThree(seed);
    DivModUnique(McgState(seed), 2, 2 * (seed / 4) + 1, 1);
    DivModUnique(McgState(seed), 4, seed / 4, 3);
  }

  // ----- the engine object -----------------------------------------------------------------------

  class Engine {
    const bits: nat
    const isMcg: bool
    const mult: nat
    var inc: nat
    var state: nat

    /** The multiplier and increment move the lowest bit that is not fixed, at every state
        that the engine can hold. */
    ghost predicate Valid()
      reads this
    {
      && FixedBits(isMcg) < bits && state < Pow2(bits)
      && (if isMcg then mult % 8 == 5 && inc == 0 && state % 4 == 3
          else mult % 4 == 1 && inc % 2 == 1)
    }

    lemma ValidMoves()
      requires Valid()
      ensures Moves(mult, inc, state, FixedBits(isMcg))
    {
      if isMcg {
        McgMoves(mult, state);
      } else {
        OddIncrementMoves(mult, inc, state);
      }
    }

    lemma ValidOdd()
      requires Valid()
      ensures mult % 2 == 1 && state < Pow2(bits)
    {
      hide Pow2;
      OddResidues(mult);
    }

    /** After any number of steps a state is still one that a valid engine can hold. */
    lemma StepsKeepValid(d: nat)
      requires Valid()
      ensures Iterate(bits, mult, inc, state, d) < Pow2(bits)
      ensures isMcg ==> Iterate(bits, mult, inc, state, d) % 4 == 3
    {
      IterateBound(bits, mult, inc, state, d);
      if isMcg {
        ValidMoves();
        MovesStays(mult, inc, state, 2);
        StaysFixes(bits, mult, inc, state, 2, d);
        LowMod4(state);
        LowMod4(Iterate(bits, mult, inc, state, d));
      }
    }

    constructor (bits: nat, isMcg: bool, mult: nat, inc: nat, seed: nat)
      requires FixedBits(isMcg) < bits && seed < Pow2(bits)
      requires if isMcg then mult % 8 == 5 && inc == 0 else mult % 4 == 1 && inc % 2 == 1
      ensures Valid() && this.bits == bits && this.isMcg == isMcg && this.mult == mult
      ensures this.inc == inc
      ensures state == if isMcg then McgState(seed) else Bump(bits, mult, inc, Low(seed + inc, bits))
    {
      hide Low, Or;
      OrThree(seed);
      if isMcg {
        ThreeFits(bits, seed);
      }
      this.bits, this.isMcg, this.mult, this.inc := bits, isMcg, mult, inc;
      state := if isMcg then Or(seed, 3) else Low(Low(seed + inc, bits) * mult + inc, bits);
    }

    /** Steps once and returns the state before the step. */
    method BaseGenerate0() returns (oldState: nat)
      requires Valid()
      modifies this`state
      ensures Valid() && oldState == old(state)
      ensures state == Iterate(bits, mult, inc, old(state), 1)
    {
      StepsKeepValid(1);
      oldState := state;
      state := Low(state * mult + inc, bits);
    }

    method AdvanceBy(delta: nat)
      requires Valid() && delta < Pow2(bits)
      modifies this`state
      ensures Valid() && state == Iterate(bits, mult, inc, old(state), delta)
    {
      StepsKeepValid(delta);
      state := Advance(bits, state, delta, mult, inc);
    }

    /** Going back by delta is advancing by the word that represents -delta; an advance by delta
        from the new state leads to the old one. */
    method Backstep(delta: nat)
      requires Valid() && delta < Pow2(bits)
      modifies this`state
      ensures Valid() && old(state) == Iterate(bits, mult, inc, state, delta)
      ensures state == Iterate(bits, mult, inc, old(state), Negated(bits, delta))
    {
      hide Negated, Iterate, Low;
      ValidOdd();
      BackstepThenAdvance(bits, mult, inc, state, delta);
      AdvanceBy(Negated(bits, delta));
    }

    /** The difference of two engines that run the same sequence: the one number of steps below
        the period that leads from the other engine's state to this one's.  None stands for the
        exception on incomparable generators. */
    method Minus(rhs: Engine) returns (r: Option<nat>)
      requires Valid() && rhs.Valid() && bits == rhs.bits && isMcg == rhs.isMcg
      ensures r.None? <==> mult != rhs.mult || inc != rhs.inc
      ensures r.Some? ==> forall d: nat | d < Pow2(bits - FixedBits(isMcg))
                :: Iterate(bits, mult, inc, rhs.state, d) == state <==> d == r.value
      ensures r.Some? ==> r.value < Pow2(bits - FixedBits(isMcg))
    {
      if mult != rhs.mult || inc != rhs.inc {
        return None;
      }
      rhs.ValidMoves();
      var d := Distance(bits, isMcg, rhs.state, state, mult, inc, Pow2(bits) - 1);
      return Some(d);
    }
  }

  lemma OddResidues(m: nat)
    ensures m % 4 == 1 || m % 8 == 5 ==> m % 2 == 1
  {
    if m % 4 == 1 {
      DivModUnique(m, 2, 2 * (m / 4), 1);
    } else if m % 8 == 5 {
      DivModUnique(m, 2, 4 * (m / 8) + 2, 1);
    }
  }

  lemma ThreeFits(n: nat, seed: nat)
    requires 2 < n && seed < Pow2(n)
    ensures McgState(seed) < Pow2(n)
  {
    assert Pow2(n) == 4 * Pow2(n - 2);
    OrThree(seed);
  }

  /** -delta steps and then delta steps lead back as well. */
  lemma BackstepThenAdvance(n: nat, mult: nat, plus: nat, x: nat, delta: nat)
    requires mult % 2 == 1 && x < Pow2(n) && delta < Pow2(n)
    ensures Negated(n, delta) < Pow2(n)
    ensures Iterate(n, mult, plus, Iterate(n, mult, plus, x, Negated(n, delta)), delta) == x
  {
    BackstepUndoes(n, mult, plus, x, delta);
    IterateAdd(n, mult, plus, x, delta, Negated(n, delta));
    IterateAdd(n, mult, plus, x, Negated(n, delta), delta);
  }
}
