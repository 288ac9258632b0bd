/** Drawing a number below a bound by rejection, and shuffling with it.  The random engine is the
    sequence of the words that it produces. */
module Bounded {
  import opened Arith

  // ----- rejection sampling ----------------------------------------------------------------------

  /** Draws below this value are thrown away: (max - min + 1 - bound) % bound in n-bit words. */
  function Threshold(n: nat, bound: nat): nat
    requires 0 < bound < Pow2(n)
  {
    Low(Low(Pow2(n) - 1 - 0 + 1, n) - bound, n) % bound
  }

  /** The first draw that is not rejected, reduced modulo the bound. */
  method BoundedRand(n: nat, draws: seq<nat>, bound: nat) returns (found: bool, r: nat, used: nat)
    requires 0 < bound < Pow2(n)
    ensures used <= |draws|
    ensures found ==> 0 < used && draws[used - 1] >= Pow2(n) % bound && r == draws[used - 1] % bound < bound
    ensures forall i | 0 <= i < (if found then used - 1 else |draws|) :: draws[i] < Pow2(n) % bound
  {
    hide Threshold, Pow2;
    ThresholdValue(n, bound);
    found, r, used := false, 0, 0;
    while used < |draws|
      invariant used <= |draws|
      invariant forall i | 0 <= i < used :: draws[i] < Threshold(n, bound)
    {
      var draw := draws[used];
      used := used + 1;
      if draw >= Threshold(n, bound) {
        return true, draw % bound, used;
      }
    }
  }

  lemma ThresholdValue(n: nat, bound: nat)
    requires 0 < bound < Pow2(n)
    ensures Threshold(n, bound) == Pow2(n) % bound
  {
    hide Low, Pow2;
    LowOfRange(n);
    LowNegated(n, bound);
    assert Threshold(n, bound) == (Pow2(n) - bound) % bound;
    ModShiftDown(Pow2(n), bound);
  }

  lemma ModShiftDown(m: nat, b: nat)
    requires 0 < b <= m
    ensures (m - b) % b == m % b
  {
    ModShift(m - b, 1, b);
  }

  lemma LowOfRange(n: nat)
    ensures Low(Pow2(n), n) == 0
  {
    DivModUnique(Pow2(n), Pow2(n), 1, 0);
  }

  lemma LowNegated(n: nat, b: nat)
    requires 0 < b < Pow2(n)
    ensures Low(0 - b, n) == Pow2(n) - b
  {
    DivModUnique(0 - b, Pow2(n), -1, Pow2(n) - b);
  }

  /** The words below m that are accepted and leave the remainder c. */
  function Preimage(t: nat, m: nat, bound: nat, c: nat): set<nat>
    requires 0 < bound
  {
    set r: nat | t <= r < m && r % bound == c
  }

  /** An interval of q times the bound words has q of each remainder. */
  lemma {:induction false} EvenlySpread(t: nat, q: nat, bound: nat, c: nat)
    requires c < bound
    ensures |Preimage(t, t + q * bound, bound, c)| == q
  {
    if q == 0 {
      assert Preimage(t, t, bound, c) == {};
    } else {
      var m := t + (q - 1) * bound;
      EvenlySpread(t, q - 1, bound, c);
      Distribute1(q - 1, bound);
      OneMoreWindow(t, m, bound, c);
    }
  }

  lemma OneMoreWindow(t: nat, m: nat, bound: nat, c: nat)
    requires c < bound && t <= m
    ensures |Preimage(t, m + bound, bound, c)| == |Preimage(t, m, bound, c)| + 1
  {
    hide InWindow;
    OneInWindow(m, bound, c);
    var x := InWindow(m, bound, c);
    assert Preimage(t, m + bound, bound, c) == Preimage(t, m, bound, c) + {x};
  }

  /** The one number in a window as long as the bound with the given remainder. */
  function InWindow(m: nat, bound: nat, c: nat): nat
    requires c < bound
  {
    if m % bound <= c then m - m % bound + c else m - m % bound + c + bound
  }

  lemma OneInWindow(m: nat, bound: nat, c: nat)
    requires c < bound
    ensures m <= InWindow(m, bound, c) < m + bound && InWindow(m, bound, c) % bound == c
    ensures forall x: nat | m <= x < m + bound && x % bound == c :: x == InWindow(m, bound, c)
  {
    var w, q := InWindow(m, bound, c), m / bound;
    if m % bound <= c {
      DivModUnique(w, bound, q, c);
    } else {
      Distribute1(q, bound);
      DivModUnique(w, bound, q + 1, c);
    }
    forall x: nat | m <= x < m + bound && x % bound == c
      ensures x == w
    {
      SameClass(x, w, bound);
    }
  }

  lemma Distribute1(q: nat, b: nat)
    ensures (q + 1) * b == q * b + b
  {}

  lemma SameClass(x: nat, y: nat, b: nat)
    requires b > 0 && x % b == y % b && x - y < b && y - x < b
    ensures x == y
  {
    var i := SameRemainder(x, y, b);
    MulAtLeast(i, b);
    MulAtLeast(-i, b);
  }

  lemma Split(m: nat, b: nat)
    requires b > 0
    ensures m == m % b + (m / b) * b && m - m % b == b * (m / b)
  {}

  /** Rejection makes the result exactly uniform: each value below the bound is the remainder of
      the same number of accepted words, as many as fit into the range of the engine. */
  lemma {:induction false} Uniform(n: nat, bound: nat, c: nat)
    requires 0 < bound < Pow2(n) && c < bound
    ensures |Preimage(Threshold(n, bound), Pow2(n), bound, c)| == Pow2(n) / bound
    ensures Pow2(n) - Threshold(n, bound) == bound * (Pow2(n) / bound)
    ensures Threshold(n, bound) < bound
  {
    hide Threshold;
    ThresholdValue(n, bound);
    var q, t := Pow2(n) / bound, Pow2(n) % bound;
    Split(Pow2(n), bound);
    EvenlySpread(t, q, bound, c);
  }

  // ----- shuffling -------------------------------------------------------------------------------

  function Swapped<T>(s: seq<T>, i: nat, j: nat): seq<T>
    requires i < |s| && j < |s|
  {
    s[i := s[j]][j := s[i]]
  }

  /** Choices for the first count places: one below count, one below count - 1, and so on. */
  ghost predicate ValidChoices(choices: seq<nat>, count: nat) {
    && |choices| == (if count > 1 then count - 1 else 0)
    && forall i | 0 <= i < |choices| :: choices[i] < count - i
  }

  /** The shuffle that these choices make of the first count places. */
  function Shuffled<T>(s: seq<T>, count: nat, choices: seq<nat>): (r: seq<T>)
    requires count <= |s| && ValidChoices(choices, count)
    ensures |r| == |s|
    decreases count
  {
    if count <= 1 then s
    else Shuffled(Swapped(s, choices[0], count - 1), count - 1, choices[1..])
  }

  lemma {:induction false} SwapKeepsElements<T>(s: seq<T>, i: nat, j: nat)
    requires i < |s| && j < |s|
    ensures multiset(Swapped(s, i, j)) == multiset(s)
  {
    var t := Swapped(s, i, j);
    assert multiset(s[i := s[j]]) == multiset(s) - multiset{s[i]} + multiset{s[j]};
  }

  lemma {:induction false} ShuffledFacts<T>(s: seq<T>, count: nat, choices: seq<nat>)
    requires count <= |s| && ValidChoices(choices, count)
    ensures Shuffled(s, count, choices)[count..] == s[count..]
    ensures multiset(Shuffled(s, count, choices)) == multiset(s)
    decreases count
  {
    if count > 1 {
      var t := Swapped(s, choices[0], count - 1);
      SwapKeepsElements(s, choices[0], count - 1);
      ShuffledFacts(t, count - 1, choices[1..]);
      var r := Shuffled(t, count - 1, choices[1..]);
      assert r[count..] == r[count - 1..][1..] == t[count - 1..][1..] == t[count..] == s[count..];
    }
  }

  /** The last place gets the chosen element and is not touched again. */
  lemma LastPlace<T>(s: seq<T>, count: nat, choices: seq<nat>)
    requires 1 < count <= |s| && ValidChoices(choices, count)
    ensures choices[0] < count && Shuffled(s, count, choices)[count - 1] == s[choices[0]]
  {
    var t := Swapped(s, choices[0], count - 1);
    ShuffledFacts(t, count - 1, choices[1..]);
    assert Shuffled(t, count - 1, choices[1..])[count - 1..][0] == t[count - 1..][0];
  }

  /** Each round swaps the chosen element with the last one that is left. */
  lemma ShuffledThree<T>(x: T, y: T, z: T)
    ensures Shuffled([x, y, z], 3, [2, 1]) == [x, y, z]
    ensures Shuffled([x, y, z], 3, [1, 1]) == [x, z, y]
    ensures Shuffled([x, y, z], 3, [0, 0]) == [y, z, x]
  {
    assert Swapped([x, y, z], 2, 2) == [x, y, z] && Swapped([x, y, z], 1, 2) == [x, z, y];
    assert Swapped([x, y, z], 0, 2) == [z, y, x] && Swapped([z, y, x], 0, 1) == [y, z, x];
    assert [2, 1][1..] == [1] && [1, 1][1..] == [1] && [0, 0][1..] == [0];
  }

  /** Different choices give different orders of distinct elements. */
  lemma {:induction false} ShuffledInjective<T>(s: seq<T>, count: nat, a: seq<nat>, b: seq<nat>)
    requires count <= |s| && ValidChoices(a, count) && ValidChoices(b, count)
    requires forall i, j | 0 <= i < j < |s| :: s[i] != s[j]
    requires Shuffled(s, count, a) == Shuffled(s, count, b)
    ensures a == b
    decreases count
  {
    if count > 1 {
      LastPlace(s, count, a);
      LastPlace(s, count, b);
      ShuffledInjective(Swapped(s, a[0], count - 1), count - 1, a[1..], b[1..]);
      assert a == [a[0]] + a[1..] && b == [b[0]] + b[1..];
    }
  }

  /** Every order of the elements is made by some choices. */
  lemma {:induction false} ShuffledSurjective<T>(s: seq<T>, t: seq<T>, count: nat) returns (choices: seq<nat>)
    requires count <= |s| == |t| && s[count..] == t[count..]
    requires multiset(s[..count]) == multiset(t[..count])
    ensures ValidChoices(choices, count) && Shuffled(s, count, choices) == t
    decreases count
  {
    if count == 0 {
      choices := [];
      assert s == s[0..] == t[0..] == t;
    } else {
      var c := FindLast(s, t, count);
      SwapMovesLast(s, t, count, c);
      var rest := ShuffledSurjective(Swapped(s, c, count - 1), t, count - 1);
      choices := if count == 1 then [] else [c] + rest;
      if count > 1 {
        assert choices[1..] == rest;
      }
    }
  }

  lemma FindLast<T>(s: seq<T>, t: seq<T>, count: nat) returns (c: nat)
    requires 0 < count <= |s| == |t| && multiset(s[..count]) == multiset(t[..count])
    ensures c < count && s[c] == t[count - 1]
  {
    var x := t[count - 1];
    assert t[..count][count - 1] == x;
    assert x in multiset(t[..count]);
    assert x in s[..count];
    c :| 0 <= c < count && s[c] == x;
  }

  /** After the swap the place count - 1 is final and the places before it hold what is left. */
  lemma SwapMovesLast<T>(s: seq<T>, t: seq<T>, count: nat, c: nat)
    requires 0 < count <= |s| == |t| && s[count..] == t[count..] && c < count && s[c] == t[count - 1]
    requires multiset(s[..count]) == multiset(t[..count])
    ensures var u := Swapped(s, c, count - 1);
            u[count - 1..] == t[count - 1..] && multiset(u[..count - 1]) == multiset(t[..count - 1])
  {
    var u, x := Swapped(s, c, count - 1), t[count - 1];
    assert u[..count] == Swapped(s[..count], c, count - 1);
    SwapKeepsElements(s[..count], c, count - 1);
    assert u[count..] == s[count..];
    LastApart(u, count, x);
    LastApart(t, count, x);
    SameRest(u[..count - 1], t[..count - 1], x);
  }

  lemma LastApart<T>(s: seq<T>, count: nat, x: T)
    requires 0 < count <= |s| && s[count - 1] == x
    ensures s[..count] == s[..count - 1] + [x] && s[count - 1..] == [x] + s[count..]
  {}

  lemma SameRest<T>(a: seq<T>, b: seq<T>, x: T)
    requires multiset(a + [x]) == multiset(b + [x])
    ensures multiset(a) == multiset(b)
  {
    assert multiset(a) == multiset(a + [x]) - multiset{x};
    assert multiset(b) == multiset(b + [x]) - multiset{x};
  }

  /** The place of the first draw that the first i choices have not looked at. */
  ghost function Next(at: seq<nat>, i: nat): nat
    requires i <= |at|
  {
    if i == 0 then 0 else at[i - 1] + 1
  }

  /** The draw at this place is the first from there on that is not rejected, and gives the choice. */
  ghost predicate TakenAt(n: nat, bound: int, draws: seq<nat>, from: nat, place: nat, choice: nat) {
    && from <= place < |draws| && Accepted(n, bound, draws[place]) && choice == draws[place] % bound
    && forall k | from <= k < place :: !Accepted(n, bound, draws[k])
  }

  /** The choices are taken at these places one after another, below size, size - 1 and so on. */
  ghost predicate DrawnAt(n: nat, size: nat, draws: seq<nat>, choices: seq<nat>, at: seq<nat>) {
    && |choices| == |at| && (|at| < size || at == [])
    && forall i | 0 <= i < |at| :: TakenAt(n, size - i, draws, Next(at, i), at[i], choices[i])
  }

  predicate Accepted(n: nat, bound: int, draw: nat) {
    bound > 0 && draw >= Pow2(n) % bound
  }

  /** A choice is missing, and all the draws that are left are rejected. */
  ghost predicate RunOut(n: nat, size: nat, draws: seq<nat>, at: seq<nat>) {
    |at| + 1 < size && forall k | Next(at, |at|) <= k < |draws| :: !Accepted(n, size - |at|, draws[k])
  }

  /** Shuffles the array in place with numbers drawn from the engine; with enough draws the result
      is the one that the drawn choices make, and it is a permutation in any case. */
  method Shuffle<T(!new)>(a: array<T>, n: nat, draws: seq<nat>)
      returns (done: bool, ghost choices: seq<nat>, ghost at: seq<nat>)
    requires a.Length < Pow2(n)
    modifies a
    ensures multiset(a[..]) == old(multiset(a[..]))
    ensures DrawnAt(n, a.Length, draws, choices, at)
    ensures done ==> ValidChoices(choices, a.Length) && a[..] == Shuffled(old(a[..]), a.Length, choices)
    ensures !done ==> RunOut(n, a.Length, draws, at)
  {
    hide Continues, ValidChoices, Shuffled, Accepted, Pow2, DrawnAt, RunOut, Next;
    var count, left := a.Length, draws;
    choices, at := [], [];
    ghost var start := a[..];
    NoChoiceYet(start);
    NothingDrawn(n, a.Length, draws);
    while count > 1
      invariant 0 <= count <= a.Length && count == (if a.Length > 0 then a.Length - |at| else 0)
      invariant multiset(a[..]) == multiset(start)
      invariant Continues(start, choices, a[..], count)
      invariant Next(at, |at|) <= |draws| && left == draws[Next(at, |at|)..]
      invariant DrawnAt(n, a.Length, draws, choices, at)
    {
      var found, chosen, used := BoundedRand(n, left, count);
      if !found {
        DrawsRunOut(n, a.Length, draws, at);
        return false, choices, at;
      }
      OneMoreDraw(n, a.Length, draws, choices, at, used);
      at := at + [Next(at, |at|) + used - 1];
      left := left[used..];
      ghost var before, earlier := a[..], choices;
      count := count - 1;
      a[chosen], a[count] := a[count], a[chosen];
      assert a[..] == Swapped(before, chosen, count);
      SwapKeepsElements(before, chosen, count);
      choices := choices + [chosen];
      OneMoreChoice(start, earlier, before, count, chosen);
    }
    done := true;
    NoChoiceLeft(start, choices, a[..], count);
  }

  lemma NothingDrawn(n: nat, size: nat, draws: seq<nat>)
    ensures DrawnAt(n, size, draws, [], []) && Next([], 0) == 0
  {}

  lemma DrawsRunOut(n: nat, size: nat, draws: seq<nat>, at: seq<nat>)
    requires |at| + 1 < size && Next(at, |at|) <= |draws|
    requires forall i | 0 <= i < |draws[Next(at, |at|)..]| :: draws[Next(at, |at|)..][i] < Pow2(n) % (size - |at|)
    ensures RunOut(n, size, draws, at)
  {
    hide Pow2, Next;
    forall k | Next(at, |at|) <= k < |draws|
      ensures !Accepted(n, size - |at|, draws[k])
    {
      assert draws[k] == draws[Next(at, |at|)..][k - Next(at, |at|)];
    }
  }

  lemma OneMoreDraw(n: nat, size: nat, draws: seq<nat>, choices: seq<nat>, at: seq<nat>, used: nat)
    requires DrawnAt(n, size, draws, choices, at)
    requires |at| + 1 < size && Next(at, |at|) <= |draws| && 0 < used <= |draws| - Next(at, |at|)
    requires var left := draws[Next(at, |at|)..];
             && left[used - 1] >= Pow2(n) % (size - |at|)
             && forall i | 0 <= i < used - 1 :: left[i] < Pow2(n) % (size - |at|)
    ensures var left, more := draws[Next(at, |at|)..], at + [Next(at, |at|) + used - 1];
            && Next(more, |more|) == Next(at, |at|) + used && left[used..] == draws[Next(more, |more|)..]
            && DrawnAt(n, size, draws, choices + [left[used - 1] % (size - |at|)], more)
  {
    hide Pow2, Accepted, TakenAt;
    var left, more := draws[Next(at, |at|)..], at + [Next(at, |at|) + used - 1];
    var all := choices + [left[used - 1] % (size - |at|)];
    DrawIsNew(n, size - |at|, draws, Next(at, |at|), used);
    forall i | 0 <= i < |more|
      ensures TakenAt(n, size - i, draws, Next(more, i), more[i], all[i])
    {
      assert i < |at| ==> TakenAt(n, size - i, draws, Next(at, i), at[i], choices[i]);
    }
  }

  lemma DrawIsNew(n: nat, bound: nat, draws: seq<nat>, from: nat, used: nat)
    requires bound > 0 && from <= |draws| && 0 < used <= |draws| - from
    requires var left := draws[from..];
             && left[used - 1] >= Pow2(n) % bound
             && forall i | 0 <= i < used - 1 :: left[i] < Pow2(n) % bound
    ensures TakenAt(n, bound, draws, from, from + used - 1, draws[from..][used - 1] % bound)
  {
    hide Pow2;
    forall k | from <= k < from + used - 1
      ensures !Accepted(n, bound, draws[k])
    {
      assert draws[k] == draws[from..][k - from];
    }
  }

  // ----- all orders are equally likely -----------------------------------------------------------

  /** Draws of n bits none of which is rejected, as many as there are choices. */
  ghost predicate NoneRejected(n: nat, size: nat, draws: seq<nat>): (none: bool)
    ensures none ==> |draws| <= size
  {
    && |draws| == (if size > 1 then size - 1 else 0)
    && forall i | 0 <= i < |draws| :: Pow2(n) % (size - i) <= draws[i] < Pow2(n)
  }

  ghost function Remainders(size: nat, draws: seq<nat>): seq<nat>
    requires |draws| <= size
  {
    seq(|draws|, i requires 0 <= i < |draws| => draws[i] % (size - i))
  }

  lemma RemaindersValid(n: nat, size: nat, draws: seq<nat>)
    requires NoneRejected(n, size, draws)
    ensures ValidChoices(Remainders(size, draws), size)
  {
    hide Pow2;
  }

  /** The shuffle uses such draws one after another. */
  lemma {:induction false} AllAreUsed(n: nat, size: nat, draws: seq<nat>, choices: seq<nat>, at: seq<nat>)
    requires NoneRejected(n, size, draws) && DrawnAt(n, size, draws, choices, at)
    ensures !RunOut(n, size, draws, at)
    ensures ValidChoices(choices, size) ==> choices == Remainders(size, draws)
  {
    hide *;
    InTurn(n, size, draws, choices, at, |at|);
    if RunOut(n, size, draws, at) {
      OneIsLeft(n, size, draws, at);
    }
    if ValidChoices(choices, size) {
      SameLength(n, size, draws, choices);
      SameRemainders(size, draws, choices);
    }
  }

  lemma {:induction false} InTurn(n: nat, size: nat, draws: seq<nat>, choices: seq<nat>, at: seq<nat>, j: nat)
    requires NoneRejected(n, size, draws) && DrawnAt(n, size, draws, choices, at) && j <= |at|
    ensures |choices| == |at| && (at == [] || |at| < size)
    ensures forall i | 0 <= i < j :: i < |draws| && at[i] == i && choices[i] == draws[i] % (size - i)
  {
    hide Pow2, Accepted, NoneRejected, TakenAt;
    if j > 0 {
      InTurn(n, size, draws, choices, at, j - 1);
      var i := j - 1;
      assert TakenAt(n, size - i, draws, i, at[i], choices[i]);
      FirstTaken(n, size, draws, i, at[i], choices[i]);
    }
  }

  lemma FirstTaken(n: nat, size: nat, draws: seq<nat>, i: nat, place: nat, choice: nat)
    requires NoneRejected(n, size, draws) && TakenAt(n, size - i, draws, i, place, choice)
    ensures i < |draws| && size > i && place == i && choice == draws[i] % (size - i)
  {
    hide Pow2;
    assert Pow2(n) % (size - i) <= draws[i];
    assert Accepted(n, size - i, draws[i]);
  }

  lemma OneIsLeft(n: nat, size: nat, draws: seq<nat>, at: seq<nat>)
    requires NoneRejected(n, size, draws) && forall i | 0 <= i < |at| :: at[i] == i
    ensures !RunOut(n, size, draws, at)
  {
    hide Pow2;
    assert Next(at, |at|) == |at|;
    if |at| + 1 < size {
      assert Pow2(n) % (size - |at|) <= draws[|at|];
      assert Accepted(n, size - |at|, draws[|at|]);
    }
  }

  lemma SameRemainders(size: nat, draws: seq<nat>, choices: seq<nat>)
    requires |draws| == |choices| && (draws == [] || |draws| < size)
    requires forall i | 0 <= i < |draws| :: choices[i] == draws[i] % (size - i)
    ensures choices == Remainders(size, draws)
  {}

  lemma SameLength(n: nat, size: nat, draws: seq<nat>, choices: seq<nat>)
    requires NoneRejected(n, size, draws) && ValidChoices(choices, size)
    ensures |draws| == |choices|
  {
    hide Pow2;
  }

  /** The number of such draws that lead to one order. */
  ghost function Ways(n: nat, size: nat): nat {
    if size <= 1 then 1 else (Pow2(n) / size) * Ways(n, size - 1)
  }

  /** The draws that lead to the given choices. */
  ghost function DrawsFor(n: nat, size: nat, choices: seq<nat>): set<seq<nat>>
    requires ValidChoices(choices, size)
    decreases size
  {
    if size <= 1 then {[]}
    else Pairs(Preimage(Pow2(n) % size, Pow2(n), size, choices[0]), DrawsFor(n, size - 1, choices[1..]))
  }

  ghost function Pairs(heads: set<nat>, tails: set<seq<nat>>): set<seq<nat>> {
    set x, tail | x in heads && tail in tails :: [x] + tail
  }

  lemma InPairs(draws: seq<nat>, heads: set<nat>, tails: set<seq<nat>>)
    ensures draws in Pairs(heads, tails) <==> draws != [] && draws[0] in heads && draws[1..] in tails
  {
    if draws != [] && draws[0] in heads && draws[1..] in tails {
      assert draws == [draws[0]] + draws[1..];
    }
  }

  lemma {:induction false} PairsCount(heads: set<nat>, tails: set<seq<nat>>)
    ensures |Pairs(heads, tails)| == |heads| * |tails|
  {
    hide Pairs;
    if heads == {} {
      NoHeads(tails);
    } else {
      var x :| x in heads;
      PairsCount(heads - {x}, tails);
      PairsOfOne(x, tails);
      PairsApart(x, heads, tails);
      Distribute1(|heads| - 1, |tails|);
    }
  }

  lemma PairsApart(x: nat, heads: set<nat>, tails: set<seq<nat>>)
    requires x in heads
    ensures |Pairs(heads, tails)| == |Pairs({x}, tails)| + |Pairs(heads - {x}, tails)|
  {
    hide Pairs;
    var one, others := Pairs({x}, tails), Pairs(heads - {x}, tails);
    forall draws: seq<nat>
      ensures draws in Pairs(heads, tails) <==> draws in one || draws in others
      ensures !(draws in one && draws in others)
    {
      InPairs(draws, heads, tails);
      InPairs(draws, {x}, tails);
      InPairs(draws, heads - {x}, tails);
    }
    assert Pairs(heads, tails) == one + others;
  }

  lemma {:induction false} PairsOfOne(x: nat, tails: set<seq<nat>>)
    ensures |Pairs({x}, tails)| == |tails|
  {
    hide Pairs;
    if tails == {} {
      NoPairs({x});
    } else {
      var tail :| tail in tails;
      PairsOfOne(x, tails - {tail});
      OneMoreTail(x, tails, tail);
    }
  }

  lemma NoHeads(tails: set<seq<nat>>)
    ensures Pairs({}, tails) == {}
  {}

  lemma NoPairs(heads: set<nat>)
    ensures Pairs(heads, {}) == {}
  {}

  lemma OneMoreTail(x: nat, tails: set<seq<nat>>, tail: seq<nat>)
    requires tail in tails
    ensures |Pairs({x}, tails)| == |Pairs({x}, tails - {tail})| + 1
  {
    hide Pairs;
    var all, fewer := Pairs({x}, tails), Pairs({x}, tails - {tail});
    forall draws: seq<nat>
      ensures draws in all <==> draws in fewer || draws == [x] + tail
      ensures !(draws in fewer && draws == [x] + tail)
    {
      InPairs(draws, {x}, tails);
      InPairs(draws, {x}, tails - {tail});
      assert ([x] + tail)[1..] == tail;
      assert draws != [] ==> draws == [draws[0]] + draws[1..];
    }
    assert all == fewer + {[x] + tail};
  }

  lemma {:induction false} DrawsForFacts(n: nat, size: nat, choices: seq<nat>)
    requires size < Pow2(n) && ValidChoices(choices, size)
    ensures |DrawsFor(n, size, choices)| == Ways(n, size)
    ensures forall draws :: draws in DrawsFor(n, size, choices) <==>
                            NoneRejected(n, size, draws) && Remainders(size, draws) == choices
    decreases size
  {
    hide Pow2, Threshold, NoneRejected, Preimage, Remainders, Pairs;
    if size > 1 {
      DrawsForFacts(n, size - 1, choices[1..]);
      ThresholdValue(n, size);
      Uniform(n, size, choices[0]);
      var heads, tails := Preimage(Pow2(n) % size, Pow2(n), size, choices[0]), DrawsFor(n, size - 1, choices[1..]);
      PairsCount(heads, tails);
      forall draws: seq<nat>
        ensures draws in DrawsFor(n, size, choices) <==>
                NoneRejected(n, size, draws) && Remainders(size, draws) == choices
      {
        FirstDraw(n, size, draws, choices);
        InPairs(draws, heads, tails);
      }
    } else {
      forall draws: seq<nat>
        ensures draws in DrawsFor(n, size, choices) <==>
                NoneRejected(n, size, draws) && Remainders(size, draws) == choices
      {
        NoDraws(n, size, draws, choices);
      }
    }
  }

  lemma NoDraws(n: nat, size: nat, draws: seq<nat>, choices: seq<nat>)
    requires size <= 1 && choices == []
    ensures draws == [] <==> NoneRejected(n, size, draws) && Remainders(size, draws) == choices
  {
    hide Pow2;
  }

  lemma FirstDraw(n: nat, size: nat, draws: seq<nat>, choices: seq<nat>)
    requires size > 1 && ValidChoices(choices, size)
    ensures NoneRejected(n, size, draws) && Remainders(size, draws) == choices <==>
              && draws != [] && draws[0] in Preimage(Pow2(n) % size, Pow2(n), size, choices[0])
              && NoneRejected(n, size - 1, draws[1..]) && Remainders(size - 1, draws[1..]) == choices[1..]
  {
    hide Pow2;
  }

  /** For each order of distinct elements, the draws that make it when none is rejected are equally
      many, and each such order is made by some. */
  lemma EveryOrderEquallyOften<T>(s: seq<T>, t: seq<T>, n: nat) returns (leading: set<seq<nat>>)
    requires |s| < Pow2(n) && multiset(s) == multiset(t)
    requires forall i, j | 0 <= i < j < |s| :: s[i] != s[j]
    ensures |leading| == Ways(n, |s|) > 0
    ensures forall draws :: draws in leading <==>
                            NoneRejected(n, |s|, draws) && LeadsTo(s, draws, t)
  {
    hide Pow2, Shuffled, NoneRejected, Remainders, ValidChoices;
    assert |s| == |t| by {
      assert |s| == |multiset(s)| == |multiset(t)| == |t|;
    }
    assert s[..|s|] == s && t[..|s|] == t;
    var choices := ShuffledSurjective(s, t, |s|);
    DrawsForFacts(n, |s|, choices);
    leading := DrawsFor(n, |s|, choices);
    WaysPositive(n, |s|);
    forall draws | NoneRejected(n, |s|, draws)
      ensures LeadsTo(s, draws, t) <==> Remainders(|s|, draws) == choices
    {
      RemaindersValid(n, |s|, draws);
      if LeadsTo(s, draws, t) {
        ShuffledInjective(s, |s|, Remainders(|s|, draws), choices);
      }
    }
  }

  ghost predicate LeadsTo<T>(s: seq<T>, draws: seq<nat>, t: seq<T>) {
    && |draws| <= |s| && ValidChoices(Remainders(|s|, draws), |s|)
    && Shuffled(s, |s|, Remainders(|s|, draws)) == t
  }

  lemma {:induction false} WaysPositive(n: nat, size: nat)
    requires size < Pow2(n)
    ensures Ways(n, size) > 0
  {
    hide Pow2;
    if size > 1 {
      WaysPositive(n, size - 1);
      QuotientPositive(Pow2(n), size);
      MulPositive(Pow2(n) / size, Ways(n, size - 1));
    }
  }

  lemma QuotientPositive(m: nat, b: nat)
    requires 0 < b <= m
    ensures m / b > 0
  {}

  lemma MulPositive(a: nat, b: nat)
    requires a > 0 && b > 0
    ensures a * b > 0
  {}

  /** Whatever choices follow, they complete the shuffle of the start from the present order. */
  ghost predicate Continues<T(!new)>(start: seq<T>, choices: seq<nat>, present: seq<T>, count: nat)
    requires |start| == |present| && count <= |start|
  {
    forall rest: seq<nat> | ValidChoices(rest, count) :: ContinuesWith(start, choices, present, count, rest)
  }

  ghost predicate ContinuesWith<T(!new)>(start: seq<T>, choices: seq<nat>, present: seq<T>,
                                         count: nat, rest: seq<nat>)
    requires |start| == |present| && count <= |start| && ValidChoices(rest, count)
  {
    && ValidChoices(choices + rest, |start|)
    && Shuffled(start, |start|, choices + rest) == Shuffled(present, count, rest)
  }

  lemma NoChoiceYet<T(!new)>(start: seq<T>)
    ensures Continues(start, [], start, |start|)
  {
    forall rest: seq<nat> | ValidChoices(rest, |start|)
      ensures ContinuesWith(start, [], start, |start|, rest)
    {
      assert [] + rest == rest;
    }
  }

  lemma NoChoiceLeft<T(!new)>(start: seq<T>, choices: seq<nat>, present: seq<T>, count: nat)
    requires |start| == |present| && count <= |start| && count <= 1
    requires Continues(start, choices, present, count)
    ensures ValidChoices(choices, |start|) && present == Shuffled(start, |start|, choices)
  {
    assert choices + [] == choices;
    assert ValidChoices([], count) ==> ContinuesWith(start, choices, present, count, []);
  }

  lemma OneMoreChoice<T(!new)>(start: seq<T>, choices: seq<nat>, present: seq<T>, count: nat, chosen: nat)
    requires |start| == |present| && 0 < count < |start| && chosen <= count
    requires Continues(start, choices, present, count + 1)
    ensures Continues(start, choices + [chosen], Swapped(present, chosen, count), count)
  {
    forall rest: seq<nat> | ValidChoices(rest, count)
      ensures ContinuesWith(start, choices + [chosen], Swapped(present, chosen, count), count, rest)
    {
      var longer := [chosen] + rest;
      assert longer[1..] == rest && choices + longer == choices + [chosen] + rest;
      assert ContinuesWith(start, choices, present, count + 1, longer);
    }
  }
}
