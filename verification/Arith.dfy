/** Powers of two, remainders and the bitwise "and" of naturals: the arithmetic that
    fixed-width unsigned integers need.  A word of n bits is a natural below Pow2(n). */
module Arith {

  function Pow2(k: nat): (p: nat)
    ensures p >= 1
  {
    if k == 0 then 1 else 2 * Pow2(k - 1)
  }

  lemma {:induction false} Pow2Add(a: nat, b: nat)
    ensures Pow2(a + b) == Pow2(a) * Pow2(b)
  {
    if a > 0 {
      Pow2Add(a - 1, b);
    }
  }

  lemma {:induction false} Pow2Mono(a: nat, b: nat)
    requires a <= b
    ensures Pow2(a) <= Pow2(b)
    decreases b
  {
    if a < b {
      Pow2Mono(a, b - 1);
    }
  }

  /** Quotient and remainder are the only pair with these bounds. */
  lemma DivModUnique(a: int, m: nat, q: int, r: int)
    requires m > 0 && 0 <= r < m && a == q * m + r
    ensures a / m == q && a % m == r
  {
    var d := a / m - q;
    assert d * m == r - a % m;
    MulAtLeast(d, m);
    MulAtLeast(-d, m);
  }

  lemma MulAtLeast(d: int, m: nat)
    ensures d >= 1 ==> d * m >= m
  {}

  lemma ModShift(a: int, k: int, m: nat)
    requires m > 0
    ensures (a + k * m) % m == a % m
  {
    assert a + k * m == (a / m + k) * m + a % m;
    DivModUnique(a + k * m, m, a / m + k, a % m);
  }

  lemma ModSmall(a: nat, m: nat)
    requires a < m
    ensures a % m == a
  {}

  lemma ModWrapped(a: int, m: nat)
    requires m > 0
    ensures (a % m) % m == a % m
  {}

  /** Affine maps respect congruence in all three of their arguments. */
  lemma ModAffine(a: int, a': int, x: int, x': int, p: int, p': int, m: nat)
    requires m > 0 && a % m == a' % m && x % m == x' % m && p % m == p' % m
    ensures (a * x + p) % m == (a' * x' + p') % m
  {
    var i := SameRemainder(a, a', m);
    var j := SameRemainder(x, x', m);
    var k := SameRemainder(p, p', m);
    AffinePolynomial(a', i, x', j, p', k, m);
    ModShift(a' * x' + p', a' * j + i * x' + i * j * m + k, m);
  }

  lemma AffinePolynomial(a: int, i: int, x: int, j: int, p: int, k: int, m: int)
    ensures (a + i * m) * (x + j * m) + (p + k * m)
         == a * x + p + (a * j + i * x + i * j * m + k) * m
  {}

  /** A congruence modulo 2^n holds modulo every smaller power of two. */
  lemma ModPow2Coarser(a: int, b: int, k: nat, n: nat)
    requires k <= n && a % Pow2(n) == b % Pow2(n)
    ensures a % Pow2(k) == b % Pow2(k)
  {
    Pow2Add(k, n - k);
    ModCoarser(a, b, Pow2(k), Pow2(n - k), Pow2(n));
  }

  lemma ModCoarser(a: int, b: int, c: nat, r: nat, m: nat)
    requires c > 0 && r > 0 && m == c * r && a % m == b % m
    ensures a % c == b % c
  {
    var i := SameRemainder(a, b, m);
    MulReassociate(i, c, r);
    ModShift(b, i * r, c);
  }

  lemma SameRemainder(a: int, b: int, m: nat) returns (i: int)
    requires m > 0 && a % m == b % m
    ensures a == b + i * m
  {
    i := a / m - b / m;
  }

  lemma MulReassociate(a: int, b: int, c: int)
    ensures a * (b * c) == (a * c) * b
  {}

  /** The remainder modulo 2^(k+1) is bit k on top of the remainder modulo 2^k. */
  lemma ModTopBit(x: int, k: nat)
    ensures x % Pow2(k + 1) == x % Pow2(k) + Pow2(k) * ((x / Pow2(k)) % 2)
  {
    var K := Pow2(k);
    var q := x / K;
    assert x == q * K + x % K;
    assert q == (q / 2) * 2 + q % 2;
    assert q * K == (q / 2) * (2 * K) + (q % 2) * K by {
      assert q * K == ((q / 2) * 2 + q % 2) * K;
    }
    assert (q % 2) * K == K * (q % 2) && (q % 2 == 0 || q % 2 == 1);
    DivModUnique(x, 2 * K, q / 2, x % K + K * (q % 2));
  }

  /** Bit k of x, as 0 or 1. */
  function Bit(x: nat, k: nat): nat {
    (x / Pow2(k)) % 2
  }

  /** Bitwise "and" of two naturals. */
  function And(a: nat, b: nat): nat {
    if a == 0 || b == 0 then 0 else 2 * And(a / 2, b / 2) + (a % 2) * (b % 2)
  }

  lemma {:induction false} AndAllOnes(x: nat, n: nat)
    requires x < Pow2(n)
    ensures And(x, Pow2(n) - 1) == x
  {
    if n > 0 && x > 0 {
      AndAllOnes(x / 2, n - 1);
      assert (Pow2(n) - 1) / 2 == Pow2(n - 1) - 1 && (Pow2(n) - 1) % 2 == 1;
    }
  }

  lemma {:induction false} AndZero(x: nat)
    ensures And(x, 0) == 0 && And(0, x) == 0
  {}

  /** Masking with a single bit isolates that bit. */
  lemma {:induction false} AndSingleBit(x: nat, k: nat)
    ensures And(x, Pow2(k)) == Pow2(k) * Bit(x, k)
  {
    if x == 0 {
      assert 0 / Pow2(k) == 0;
    } else if k == 0 {
      AndZero(x / 2);
      assert Pow2(0) / 2 == 0;
    } else {
      AndSingleBit(x / 2, k - 1);
      DivTwice(x, Pow2(k - 1));
      Double(Pow2(k - 1), Bit(x / 2, k - 1));
    }
  }

  lemma Double(a: int, b: int)
    ensures 2 * (a * b) == (2 * a) * b
  {}

  lemma DivTwice(x: nat, m: nat)
    requires m > 0
    ensures x / (2 * m) == (x / 2) / m
  {
    var y := x / 2;
    var q, r := y / m, y % m;
    assert q * (2 * m) == 2 * (q * m);
    DivModUnique(x, 2 * m, q, 2 * r + x % 2);
  }

  /** Bitwise "or" of two naturals. */
  function Or(a: nat, b: nat): nat
    decreases a + b
  {
    if a == 0 && b == 0 then 0
    else 2 * Or(a / 2, b / 2) + (if a % 2 == 1 || b % 2 == 1 then 1 else 0)
  }

  lemma {:induction false} OrZero(b: nat)
    ensures Or(0, b) == b && Or(b, 0) == b
  {
    if b > 0 {
      OrZero(b / 2);
    }
  }

  /** Setting a bit above all the bits that are in use adds its weight. */
  lemma {:induction false} OrNothing(a: nat)
    ensures Or(a, 0) == a
  {
    if a != 0 {
      OrNothing(a / 2);
    }
  }

  /** Or with three bits below a number shifted by three is a sum. */
  lemma OrEightfold(a: nat, b: nat)
    requires b < 8
    ensures Or(8 * a, b) == 8 * a + b
  {
    hide Or;
    OrTwofold(4 * a, b);
    OrTwofold(2 * a, b / 2);
    OrTwofold(a, b / 4);
    OrNothing(a);
  }

  lemma OrTwofold(a: nat, b: nat)
    ensures Or(2 * a, b) == 2 * Or(a, b / 2) + b % 2
  {
    if a == 0 && b == 0 {
      assert Or(0, 0) == 0;
    }
  }

  lemma {:induction false} OrFreshBit(a: nat, k: nat)
    requires a < Pow2(k)
    ensures Or(a, Pow2(k)) == a + Pow2(k)
  {
    if k == 0 {
      OrZero(1);
    } else {
      OrFreshBit(a / 2, k - 1);
      assert Pow2(k) / 2 == Pow2(k - 1) && Pow2(k) % 2 == 0;
    }
  }

  /** Multiples of 2^(j+1) are the doubles of the multiples of 2^j. */
  lemma EvenMultiple(e: nat, j: nat)
    ensures (2 * e) % Pow2(j + 1) == 0 <==> e % Pow2(j) == 0
  {
    var q := e / Pow2(j);
    assert 2 * (q * Pow2(j)) == q * (2 * Pow2(j));
    DivModUnique(2 * e, 2 * Pow2(j), q, 2 * (e % Pow2(j)));
  }

  /** A product that proofs do not take apart. */
  function Mul(a: int, b: int): int {
    a * b
  }

  // ----- the low bits of an integer --------------------------------------------------------------

  /** The k low bits of x: what an assignment to a k-bit unsigned word keeps. */
  function Low(x: int, k: nat): (r: nat)
    ensures r < Pow2(k)
  {
    x % Pow2(k)
  }

  lemma LowSmall(x: nat, k: nat)
    requires x < Pow2(k)
    ensures Low(x, k) == x
  {
    ModSmall(x, Pow2(k));
  }

  lemma LowLow(x: int, k: nat)
    ensures Low(Low(x, k), k) == Low(x, k)
  {
    ModWrapped(x, Pow2(k));
  }

  lemma LowAffine(a: int, a': int, x: int, x': int, p: int, p': int, k: nat)
    requires Low(a, k) == Low(a', k) && Low(x, k) == Low(x', k) && Low(p, k) == Low(p', k)
    ensures Low(a * x + p, k) == Low(a' * x' + p', k)
  {
    ModAffine(a, a', x, x', p, p', Pow2(k));
  }

  lemma LowCoarser(a: int, b: int, k: nat, n: nat)
    requires k <= n && Low(a, n) == Low(b, n)
    ensures Low(a, k) == Low(b, k)
  {
    ModPow2Coarser(a, b, k, n);
  }

  lemma LowTopBit(x: nat, k: nat)
    ensures Low(x, k + 1) == Low(x, k) + Pow2(k) * Bit(x, k)
  {
    ModTopBit(x, k);
  }

  lemma LowMod4(x: int)
    ensures Low(x, 2) == x % 4 && Low(x, 1) == x % 2 && Low(x, 0) == 0 && Low(x, 3) == x % 8
  {
    assert Pow2(0) == 1 && Pow2(1) == 2 && Pow2(2) == 4 && Pow2(3) == 8;
  }

  lemma AddMultiple(x: int, d: int, c: nat)
    requires c > 0 && d % c == 0
    ensures (x + d) % c == x % c
  {
    ModShift(x, d / c, c);
  }

  lemma LowAddMultiple(x: int, d: int, k: nat)
    requires Low(d, k) == 0
    ensures Low(x + d, k) == Low(x, k)
  {
    AddMultiple(x, d, Pow2(k));
  }

  /** A multiple of a multiple of 2^k. */
  lemma LowMultiple(d: int, f: int, k: nat)
    requires Low(d, k) == 0
    ensures Low(Mul(f, d), k) == 0
  {
    var q, c := d / Pow2(k), Pow2(k);
    assert f * (q * c) == (f * q) * c;
    DivModUnique(f * d, c, f * q, 0);
  }

  lemma LowEvenTimes(d: int, f: int, k: nat)
    requires Low(d, k) == 0 && f % 2 == 0
    ensures Low(Mul(f, d), k + 1) == 0
  {
    var c := Pow2(k);
    var q, r := d / c, f / 2;
    assert (2 * r) * (q * c) == (r * q) * (2 * c);
    DivModUnique(f * d, 2 * c, r * q, 0);
  }

  /** Odd multiples of 2^k: bit k is the lowest one set. */
  ghost predicate OddMultiple(d: int, k: nat) {
    Low(d, k + 1) == Pow2(k)
  }

  lemma OddMultipleSame(a: int, b: int, k: nat, n: nat)
    requires k < n && Low(a, n) == Low(b, n) && OddMultiple(b, k)
    ensures OddMultiple(a, k)
  {
    hide Low;
    LowCoarser(a, b, k + 1, n);
  }

  lemma OddMultipleLow(d: int, k: nat)
    requires OddMultiple(d, k)
    ensures Low(d, k) == 0
  {
    ModSmall(Pow2(k), Pow2(k + 1));
    ModPow2Coarser(d, Pow2(k), k, k + 1);
    DivModUnique(Pow2(k), Pow2(k), 1, 0);
  }

  /** Twice an odd number times an odd multiple of 2^k is an odd multiple of 2^(k+1). */
  lemma OddMultipleDoubles(d: int, f: int, k: nat)
    requires OddMultiple(d, k) && f % 4 == 2
    ensures OddMultiple(Mul(f, d), k + 1)
  {
    OddTimes(d / (2 * Pow2(k)), f / 4, Pow2(k), d, f);
  }

  lemma OddTimes(q: int, r: int, c: nat, d: int, f: int)
    requires c > 0 && d == q * (2 * c) + c && f == 4 * r + 2
    ensures (f * d) % (4 * c) == 2 * c
  {
    OddPolynomial(q, r, c);
    DivModUnique(f * d, 4 * c, 2 * r * q + q + r, 2 * c);
  }

  lemma OddPolynomial(q: int, r: int, c: int)
    ensures (4 * r + 2) * (q * (2 * c) + c) == (2 * r * q + q + r) * (4 * c) + 2 * c
  {}

  lemma OddMultipleKept(d: int, f: int, k: nat)
    requires OddMultiple(d, k) && f % 4 == 1
    ensures OddMultiple(Mul(f, d), k)
  {
    OddKept(d / (2 * Pow2(k)), f / 4, Pow2(k), d, f);
  }

  lemma OddKept(q: int, r: int, c: nat, d: int, f: int)
    requires c > 0 && d == q * (2 * c) + c && f == 4 * r + 1
    ensures (f * d) % (2 * c) == c
  {
    OddKeptPolynomial(q, r, c);
    DivModUnique(f * d, 2 * c, 4 * r * q + q + 2 * r, c);
  }

  lemma OddKeptPolynomial(q: int, r: int, c: int)
    ensures (4 * r + 1) * (q * (2 * c) + c) == (4 * r * q + q + 2 * r) * (2 * c) + c
  {}

  /** Adding an odd multiple of 2^k flips bit k and keeps the bits below it. */
  lemma OddMultipleFlips(x: nat, y: nat, d: int, k: nat)
    requires OddMultiple(d, k) && Low(y, k + 1) == Low(x + d, k + 1)
    ensures Low(y, k) == Low(x, k) && Bit(y, k) == 1 - Bit(x, k)
  {
    var c := Pow2(k);
    LessOffset(d, c);
    AddMultiple(x + c, d - c, 2 * c);
    FlippedBit(x, c);
    ModTopBit(y, k);
    SameDigits(c, y % c, Bit(y, k), x % c, 1 - Bit(x, k));
  }

  lemma SameDigits(c: nat, r: nat, b: nat, r': nat, b': nat)
    requires r < c && r' < c && r + c * b == r' + c * b'
    ensures r == r' && b == b'
  {
    DivModUnique(r + c * b, c, b, r);
    DivModUnique(r + c * b, c, b', r');
  }

  lemma LessOffset(d: int, c: nat)
    requires c > 0 && d % (2 * c) == c
    ensures (d - c) % (2 * c) == 0
  {
    DivModUnique(d - c, 2 * c, d / (2 * c), 0);
  }

  /** Adding c to x flips the bit of weight c. */
  lemma FlippedBit(x: nat, c: nat)
    requires c > 0
    ensures (x + c) % (2 * c) == x % c + c * (1 - (x / c) % 2)
  {
    var q := x / c;
    var h, b := (q + 1) / 2, 1 - q % 2;
    assert q + 1 == 2 * h + b;
    Distribute(h, b, c);
    assert x + c == (q + 1) * c + x % c;
    assert c * b == 0 || c * b == c by {
      assert b == 0 || b == 1;
    }
    DivModUnique(x + c, 2 * c, h, x % c + c * b);
  }

  lemma Distribute(h: int, b: int, c: int)
    ensures (2 * h + b) * c == h * (2 * c) + c * b
  {}

  lemma SameMultiple(c: nat, x: nat, y: nat)
    requires c > 0
    ensures c * x == c * y <==> x == y
  {}
}
