/** The compression of one block of SHA-256: FIPS 180-4 on 32-bit words, and the same on words of 64
    bits that are masked only where it is needed. */
module Sha256Block {

  // ----- FIPS 180-4 on words of 32 bits ----------------------------------------------------------

  /** Section 3.2: rotation to the right. */
  function Rotr(x: bv32, n: bv32): bv32
    requires n < 32
  {
    (x >> n) | (x << (32 - n))
  }

  /** Section 4.1.2, the six functions. */
  function Ch(x: bv32, y: bv32, z: bv32): bv32 { (x & y) ^ (!x & z) }
  function Maj(x: bv32, y: bv32, z: bv32): bv32 { (x & y) ^ (x & z) ^ (y & z) }
  function BigSigma0(x: bv32): bv32 { Rotr(x, 2) ^ Rotr(x, 13) ^ Rotr(x, 22) }
  function BigSigma1(x: bv32): bv32 { Rotr(x, 6) ^ Rotr(x, 11) ^ Rotr(x, 25) }
  function SmallSigma0(x: bv32): bv32 { Rotr(x, 7) ^ Rotr(x, 18) ^ (x >> 3) }
  function SmallSigma1(x: bv32): bv32 { Rotr(x, 17) ^ Rotr(x, 19) ^ (x >> 10) }

  /** Section 4.2.2, in rows of eight. */
  function K(t: nat): bv32
    requires t < 64
  {
    if t < 8 then
      [0x428a2f98, 0x71374491, 0xb5c0fbcf, 0xe9b5dba5, 0x3956c25b, 0x59f111f1, 0x923f82a4, 0xab1c5ed5][t]
    else if t < 16 then
      [0xd807aa98, 0x12835b01, 0x243185be, 0x550c7dc3, 0x72be5d74, 0x80deb1fe, 0x9bdc06a7, 0xc19bf174][t - 8]
    else if t < 24 then
      [0xe49b69c1, 0xefbe4786, 0x0fc19dc6, 0x240ca1cc, 0x2de92c6f, 0x4a7484aa, 0x5cb0a9dc, 0x76f988da][t - 16]
    else if t < 32 then
      [0x983e5152, 0xa831c66d, 0xb00327c8, 0xbf597fc7, 0xc6e00bf3, 0xd5a79147, 0x06ca6351, 0x14292967][t - 24]
    else if t < 40 then
      [0x27b70a85, 0x2e1b2138, 0x4d2c6dfc, 0x53380d13, 0x650a7354, 0x766a0abb, 0x81c2c92e, 0x92722c85][t - 32]
    else if t < 48 then
      [0xa2bfe8a1, 0xa81a664b, 0xc24b8b70, 0xc76c51a3, 0xd192e819, 0xd6990624, 0xf40e3585, 0x106aa070][t - 40]
    else if t < 56 then
      [0x19a4c116, 0x1e376c08, 0x2748774c, 0x34b0bcb5, 0x391c0cb3, 0x4ed8aa4a, 0x5b9cca4f, 0x682e6ff3][t - 48]
    else
      [0x748f82ee, 0x78a5636f, 0x84c87814, 0x8cc70208, 0x90befffa, 0xa4506ceb, 0xbef9a3f7, 0xc67178f2][t - 56]
  }

  /** The eight words of a hash value or of the working variables. */
  datatype Words = Words(a: bv32, b: bv32, c: bv32, d: bv32, e: bv32, f: bv32, g: bv32, h: bv32)

  /** Section 5.3.3. */
  const InitialHash: Words := Words(0x6a09e667, 0xbb67ae85, 0x3c6ef372, 0xa54ff53a,
                                    0x510e527f, 0x9b05688c, 0x1f83d9ab, 0x5be0cd19)

  function Join32(p: bv8, q: bv8, r: bv8, s: bv8): bv32 {
    ((p as bv32) << 24) | ((q as bv32) << 16) | ((r as bv32) << 8) | (s as bv32)
  }

  /** Four octets as a word, the most significant first. */
  function Word(octets: seq<bv8>, i: nat): bv32
    requires i + 4 <= |octets|
  {
    Join32(octets[i], octets[i + 1], octets[i + 2], octets[i + 3])
  }

  /** Sums modulo 2^32. */
  function Add2(a: bv32, b: bv32): bv32 { a + b }
  function Add4(a: bv32, b: bv32, c: bv32, d: bv32): bv32 { a + b + c + d }
  function Add5(a: bv32, b: bv32, c: bv32, d: bv32, e: bv32): bv32 { a + b + c + d + e }

  /** Section 6.2.2, step 1: the message schedule. */
  function Schedule(block: seq<bv8>, t: nat): bv32
    requires |block| == 64 && t < 64
  {
    if t < 16 then Word(block, 4 * t)
    else Add4(SmallSigma1(Schedule(block, t - 2)), Schedule(block, t - 7),
              SmallSigma0(Schedule(block, t - 15)), Schedule(block, t - 16))
  }

  /** Step 3: one round. */
  function Round(v: Words, k: bv32, w: bv32): Words {
    var t1 := Add5(v.h, BigSigma1(v.e), Ch(v.e, v.f, v.g), k, w);
    var t2 := Add2(BigSigma0(v.a), Maj(v.a, v.b, v.c));
    Words(Add2(t1, t2), v.a, v.b, v.c, Add2(v.d, t1), v.e, v.f, v.g)
  }

  function Rounds(v: Words, block: seq<bv8>, t: nat): Words
    requires |block| == 64 && t <= 64
  {
    if t == 0 then v else Round(Rounds(v, block, t - 1), K(t - 1), Schedule(block, t - 1))
  }

  function Plus(v: Words, w: Words): Words {
    Words(Add2(v.a, w.a), Add2(v.b, w.b), Add2(v.c, w.c), Add2(v.d, w.d),
          Add2(v.e, w.e), Add2(v.f, w.f), Add2(v.g, w.g), Add2(v.h, w.h))
  }

  /** Steps 1 to 4: the hash value after one more block. */
  function Compress(v: Words, block: seq<bv8>): Words
    requires |block| == 64
  {
    Plus(v, Rounds(v, block, 64))
  }

  // ----- the same on words of 64 bits ------------------------------------------------------------

  /** A word of 32 bits as one of 64. */
  function Wide(x: bv32): bv64 { x as bv64 }

  function Mask32(x: bv64): bv64 { x & 0xffff_ffff }
  function Ch64(x: bv64, y: bv64, z: bv64): bv64 { (x & y) ^ (!x & z) }
  function Maj64(x: bv64, y: bv64, z: bv64): bv64 { (x & y) ^ (x & z) ^ (y & z) }

  function Sum2(a: bv64, b: bv64): bv64 { a + b }
  function Sum4(a: bv64, b: bv64, c: bv64, d: bv64): bv64 { a + b + c + d }
  function Sum5(a: bv64, b: bv64, c: bv64, d: bv64, e: bv64): bv64 { a + b + c + d + e }

  function Rotr64(x: bv64, n: bv64): bv64
    requires n < 32
  {
    Mask32((x >> n) | (x << (32 - n)))
  }

  function Bsig0(x: bv64): bv64 { Rotr64(x, 2) ^ Rotr64(x, 13) ^ Rotr64(x, 22) }
  function Bsig1(x: bv64): bv64 { Rotr64(x, 6) ^ Rotr64(x, 11) ^ Rotr64(x, 25) }
  function Ssig0(x: bv64): bv64 { Rotr64(x, 7) ^ Rotr64(x, 18) ^ (x >> 3) }
  function Ssig1(x: bv64): bv64 { Rotr64(x, 17) ^ Rotr64(x, 19) ^ (x >> 10) }

  function Join64(p: bv8, q: bv8, r: bv8, s: bv8): bv64 {
    ((p as bv64) << 24) | ((q as bv64) << 16) | ((r as bv64) << 8) | (s as bv64)
  }

  function Word64(octets: seq<bv8>, i: nat): bv64
    requires i + 4 <= |octets|
  {
    Join64(octets[i], octets[i + 1], octets[i + 2], octets[i + 3])
  }

  lemma XorWide(x: bv32, y: bv32, z: bv32)
    ensures Wide(x) ^ Wide(y) ^ Wide(z) == Wide(x ^ y ^ z)
  {}

  lemma ShrWide(x: bv32)
    ensures Wide(x) >> 3 == Wide(x >> 3) && Wide(x) >> 10 == Wide(x >> 10)
  {}

  lemma Rotr2Wide(x: bv32)
    ensures Rotr64(x as bv64, 2) == Rotr(x, 2) as bv64
  {}

  lemma Rotr6Wide(x: bv32)
    ensures Rotr64(x as bv64, 6) == Rotr(x, 6) as bv64
  {}

  lemma Rotr7Wide(x: bv32)
    ensures Rotr64(x as bv64, 7) == Rotr(x, 7) as bv64
  {}

  lemma Rotr11Wide(x: bv32)
    ensures Rotr64(x as bv64, 11) == Rotr(x, 11) as bv64
  {}

  lemma Rotr13Wide(x: bv32)
    ensures Rotr64(x as bv64, 13) == Rotr(x, 13) as bv64
  {}

  lemma Rotr17Wide(x: bv32)
    ensures Rotr64(x as bv64, 17) == Rotr(x, 17) as bv64
  {}

  lemma Rotr18Wide(x: bv32)
    ensures Rotr64(x as bv64, 18) == Rotr(x, 18) as bv64
  {}

  lemma Rotr19Wide(x: bv32)
    ensures Rotr64(x as bv64, 19) == Rotr(x, 19) as bv64
  {}

  lemma Rotr22Wide(x: bv32)
    ensures Rotr64(x as bv64, 22) == Rotr(x, 22) as bv64
  {}

  lemma Rotr25Wide(x: bv32)
    ensures Rotr64(x as bv64, 25) == Rotr(x, 25) as bv64
  {}

  /** On words with nothing above their 32 bits the functions are the same. */
  lemma Bsig0Wide(x: bv32)
    ensures Bsig0(Wide(x)) == Wide(BigSigma0(x))
  {
    hide Rotr, Rotr64;
    Rotr2Wide(x); Rotr13Wide(x); Rotr22Wide(x);
    XorWide(Rotr(x, 2), Rotr(x, 13), Rotr(x, 22));
  }

  lemma Bsig1Wide(x: bv32)
    ensures Bsig1(Wide(x)) == Wide(BigSigma1(x))
  {
    hide Rotr, Rotr64;
    Rotr6Wide(x); Rotr11Wide(x); Rotr25Wide(x);
    XorWide(Rotr(x, 6), Rotr(x, 11), Rotr(x, 25));
  }

  lemma Ssig0Wide(x: bv32)
    ensures Ssig0(Wide(x)) == Wide(SmallSigma0(x))
  {
    hide Rotr, Rotr64;
    Rotr7Wide(x); Rotr18Wide(x);
    ShrWide(x);
    XorWide(Rotr(x, 7), Rotr(x, 18), x >> 3);
  }

  lemma Ssig1Wide(x: bv32)
    ensures Ssig1(Wide(x)) == Wide(SmallSigma1(x))
  {
    hide Rotr, Rotr64;
    Rotr17Wide(x); Rotr19Wide(x);
    ShrWide(x);
    XorWide(Rotr(x, 17), Rotr(x, 19), x >> 10);
  }

  /** The complement has all the upper bits set, but the choice does not. */
  lemma ChoiceWide(x: bv32, y: bv32, z: bv32)
    ensures Ch64(Wide(x), Wide(y), Wide(z)) == Wide(Ch(x, y, z))
    ensures Maj64(Wide(x), Wide(y), Wide(z)) == Wide(Maj(x, y, z))
  {}

  lemma WordWide(octets: seq<bv8>, i: nat)
    requires i + 4 <= |octets|
    ensures Word64(octets, i) == Wide(Word(octets, i))
  {
    hide Join32, Join64;
    WordOf(octets[i], octets[i + 1], octets[i + 2], octets[i + 3]);
  }

  lemma WordOf(p: bv8, q: bv8, r: bv8, s: bv8)
    ensures Join64(p, q, r, s) == Wide(Join32(p, q, r, s))
  {}

  // ----- sums ------------------------------------------------------------------------------------

  // Each lemma here unfolds one definition over given operations on words, or none: the solver is
  // quick with either and slow with both.

  /** The lower 32 bits of a word. */
  function Low(x: bv64): bv32 { (x & 0xffff_ffff) as bv32 }

  lemma LowIs(x: bv64)
    ensures Low(x) == (x & 0xffff_ffff) as bv32
  {}

  lemma MaskIsLow(x: bv64)
    ensures Mask32(x) == Wide(Low(x))
  {}

  lemma WideIs(x: bv32)
    ensures Wide(x) == x as bv64
  {}

  lemma LowWide(a: bv32)
    ensures Low(Wide(a)) == a
  {}

  lemma LowOfSum2(x: bv64, y: bv64)
    ensures Low(Sum2(x, y)) == ((x + y) & 0xffff_ffff) as bv32
  {}

  lemma CutSum2(x: bv64, y: bv64)
    ensures ((x + y) & 0xffff_ffff) as bv32 == Add2((x & 0xffff_ffff) as bv32, (y & 0xffff_ffff) as bv32)
  {}

  lemma AddLow(x: bv64, y: bv64)
    ensures Add2(Low(x), Low(y)) == Add2((x & 0xffff_ffff) as bv32, (y & 0xffff_ffff) as bv32)
  {
    hide *;
    LowIs(x);
    LowIs(y);
  }

  lemma LowSum(x: bv64, y: bv64)
    ensures Low(Sum2(x, y)) == Add2(Low(x), Low(y))
  {
    hide *;
    LowOfSum2(x, y);
    CutSum2(x, y);
    AddLow(x, y);
  }

  /** A sum of words that is masked once, at the end, is their sum modulo 2^32. */
  lemma MaskedSum2(a: bv32, b: bv32)
    ensures Mask32(Sum2(Wide(a), Wide(b))) == Wide(Add2(a, b))
  {
    hide *;
    LowWide(a);
    LowWide(b);
    LowSum(Wide(a), Wide(b));
    MaskIsLow(Sum2(Wide(a), Wide(b)));
  }

  lemma LowOfSum4(a: bv32, b: bv32, c: bv32, d: bv32)
    ensures Low(Sum4(a as bv64, b as bv64, c as bv64, d as bv64))
         == ((a as bv64 + b as bv64 + c as bv64 + d as bv64) & 0xffff_ffff) as bv32
  {}

  lemma CutSum4(a: bv32, b: bv32, c: bv32, d: bv32)
    ensures ((a as bv64 + b as bv64 + c as bv64 + d as bv64) & 0xffff_ffff) as bv32 == Add4(a, b, c, d)
  {}

  lemma LowSum4(a: bv32, b: bv32, c: bv32, d: bv32)
    ensures Low(Sum4(Wide(a), Wide(b), Wide(c), Wide(d))) == Add4(a, b, c, d)
  {
    hide *;
    WideIs(a); WideIs(b); WideIs(c); WideIs(d);
    LowOfSum4(a, b, c, d);
    CutSum4(a, b, c, d);
  }

  lemma LowOfSum5(h: bv32, s: bv32, c: bv32, k: bv32, w: bv32)
    ensures Low(Sum5(h as bv64, s as bv64, c as bv64, k as bv64, w as bv64))
         == ((h as bv64 + s as bv64 + c as bv64 + k as bv64 + w as bv64) & 0xffff_ffff) as bv32
  {}

  lemma CutSum5(h: bv32, s: bv32, c: bv32, k: bv32, w: bv32)
    ensures ((h as bv64 + s as bv64 + c as bv64 + k as bv64 + w as bv64) & 0xffff_ffff) as bv32
         == Add5(h, s, c, k, w)
  {}

  lemma LowSum5(h: bv32, s: bv32, c: bv32, k: bv32, w: bv32)
    ensures Low(Sum5(Wide(h), Wide(s), Wide(c), Wide(k), Wide(w))) == Add5(h, s, c, k, w)
  {
    hide *;
    WideIs(h); WideIs(s); WideIs(c); WideIs(k); WideIs(w);
    LowOfSum5(h, s, c, k, w);
    CutSum5(h, s, c, k, w);
  }

  // ----- no sum wraps around 2^64 ----------------------------------------------------------------

  function Mask40(x: bv64): bv64 { x & 0xff_ffff_ffff }

  lemma Mask40Is(x: bv64)
    ensures Mask40(x) == x & 0xff_ffff_ffff
  {}

  lemma Sum2Is(x: bv64, y: bv64)
    ensures Sum2(x, y) == x + y
  {}

  lemma CutFits(x: bv64, y: bv64)
    ensures ((x & 0xff_ffff_ffff) + (y & 0xff_ffff_ffff)) as int
         == (x & 0xff_ffff_ffff) as int + (y & 0xff_ffff_ffff) as int
  {}

  lemma CutSumFits(x: bv64, y: bv64)
    ensures Sum2(x & 0xff_ffff_ffff, y & 0xff_ffff_ffff) as int
         == (x & 0xff_ffff_ffff) as int + (y & 0xff_ffff_ffff) as int
  {
    hide *;
    CutFits(x, y);
    Sum2Is(x & 0xff_ffff_ffff, y & 0xff_ffff_ffff);
  }

  /** The sum of two words of 40 bits is exact. */
  lemma SumFits(x: bv64, y: bv64)
    requires Mask40(x) == x && Mask40(y) == y
    ensures Sum2(x, y) as int == x as int + y as int
  {
    hide *;
    Mask40Is(x);
    Mask40Is(y);
    CutSumFits(x, y);
  }

  lemma RawWideFits(x: bv32)
    ensures Mask40(x as bv64) == x as bv64 && (x as bv64) as int == x as int
  {}

  lemma WideFits(x: bv32)
    ensures Mask40(Wide(x)) == Wide(x) && Wide(x) as int == x as int
  {
    hide *;
    WideIs(x);
    RawWideFits(x);
  }

  lemma Sum4Is(a: bv64, b: bv64, c: bv64, d: bv64)
    ensures Sum4(a, b, c, d) == a + b + c + d
  {}

  lemma RawSum4Fits(a: bv32, b: bv32, c: bv32, d: bv32)
    ensures (a as bv64 + b as bv64 + c as bv64 + d as bv64) as int == a as int + b as int + c as int + d as int
  {}

  lemma Sum4OfFits(a: bv32, b: bv32, c: bv32, d: bv32)
    ensures Sum4(a as bv64, b as bv64, c as bv64, d as bv64) as int == a as int + b as int + c as int + d as int
  {
    hide *;
    Sum4Is(a as bv64, b as bv64, c as bv64, d as bv64);
    RawSum4Fits(a, b, c, d);
  }

  /** The sum of the message schedule is exact. */
  lemma Sum4Fits(a: bv32, b: bv32, c: bv32, d: bv32)
    ensures Sum4(Wide(a), Wide(b), Wide(c), Wide(d)) as int == a as int + b as int + c as int + d as int
  {
    hide *;
    WideIs(a); WideIs(b); WideIs(c); WideIs(d);
    Sum4OfFits(a, b, c, d);
  }

  lemma Sum5Is(h: bv64, s: bv64, c: bv64, k: bv64, w: bv64)
    ensures Sum5(h, s, c, k, w) == h + s + c + k + w
  {}

  lemma RawSum5Fits(h: bv32, s: bv32, c: bv32, k: bv32, w: bv32)
    ensures (h as bv64 + s as bv64 + c as bv64 + k as bv64 + w as bv64) as int
         == h as int + s as int + c as int + k as int + w as int
  {}

  lemma RawSum5Small(h: bv32, s: bv32, c: bv32, k: bv32, w: bv32)
    ensures h as bv64 + s as bv64 + c as bv64 + k as bv64 + w as bv64
         == Mask40(h as bv64 + s as bv64 + c as bv64 + k as bv64 + w as bv64)
  {}

  lemma Sum5OfFits(h: bv32, s: bv32, c: bv32, k: bv32, w: bv32)
    ensures Sum5(h as bv64, s as bv64, c as bv64, k as bv64, w as bv64) as int
         == h as int + s as int + c as int + k as int + w as int
  {
    hide *;
    Sum5Is(h as bv64, s as bv64, c as bv64, k as bv64, w as bv64);
    RawSum5Fits(h, s, c, k, w);
  }

  lemma Sum5OfSmall(h: bv32, s: bv32, c: bv32, k: bv32, w: bv32)
    ensures var t := Sum5(h as bv64, s as bv64, c as bv64, k as bv64, w as bv64);
            Mask40(t) == t
  {
    hide *;
    Sum5Is(h as bv64, s as bv64, c as bv64, k as bv64, w as bv64);
    RawSum5Small(h, s, c, k, w);
  }

  /** The first temporary of a round is exact, and a word of 40 bits. */
  lemma Sum5Fits(h: bv32, s: bv32, c: bv32, k: bv32, w: bv32)
    ensures var t1 := Sum5(Wide(h), Wide(s), Wide(c), Wide(k), Wide(w));
            t1 as int == h as int + s as int + c as int + k as int + w as int && Mask40(t1) == t1
  {
    hide *;
    WideIs(h); WideIs(s); WideIs(c); WideIs(k); WideIs(w);
    Sum5OfFits(h, s, c, k, w);
    Sum5OfSmall(h, s, c, k, w);
  }

  lemma RawSum2Small(t: bv32, m: bv32)
    ensures t as bv64 + m as bv64 == Mask40(t as bv64 + m as bv64)
  {}

  lemma Sum2OfSmall(t: bv32, m: bv32)
    ensures Mask40(Sum2(t as bv64, m as bv64)) == Sum2(t as bv64, m as bv64)
  {
    hide *;
    Sum2Is(t as bv64, m as bv64);
    RawSum2Small(t, m);
  }

  lemma Sum2Small(t: bv32, m: bv32)
    ensures Mask40(Sum2(Wide(t), Wide(m))) == Sum2(Wide(t), Wide(m))
  {
    hide *;
    WideIs(t);
    WideIs(m);
    Sum2OfSmall(t, m);
  }

  lemma Sum2Fits(t: bv32, m: bv32)
    ensures var t2 := Sum2(Wide(t), Wide(m));
            t2 as int == t as int + m as int && Mask40(t2) == t2
  {
    hide *;
    WideFits(t);
    WideFits(m);
    SumFits(Wide(t), Wide(m));
    Sum2Small(t, m);
  }

  /** The sums of a round on words: nothing is lost before they are masked. */
  lemma RoundFits(d: bv32, h: bv32, s: bv32, c: bv32, k: bv32, w: bv32, t: bv32, m: bv32)
    ensures var t1, t2 := Sum5(Wide(h), Wide(s), Wide(c), Wide(k), Wide(w)), Sum2(Wide(t), Wide(m));
            && Sum2(Wide(d), t1) as int == d as int + (h as int + s as int + c as int + k as int + w as int)
            && Sum2(t1, t2) as int == (h as int + s as int + c as int + k as int + w as int) + (t as int + m as int)
  {
    hide *;
    Sum5Fits(h, s, c, k, w);
    Sum2Fits(t, m);
    WideFits(d);
    SumFits(Wide(d), Sum5(Wide(h), Wide(s), Wide(c), Wide(k), Wide(w)));
    SumFits(Sum5(Wide(h), Wide(s), Wide(c), Wide(k), Wide(w)), Sum2(Wide(t), Wide(m)));
  }

  /** The words of a hash value, in wider ones. */
  ghost predicate Are(a: bv64, b: bv64, c: bv64, d: bv64, e: bv64, f: bv64, g: bv64, h: bv64, v: Words) {
    && a == Wide(v.a) && b == Wide(v.b) && c == Wide(v.c) && d == Wide(v.d)
    && e == Wide(v.e) && f == Wide(v.f) && g == Wide(v.g) && h == Wide(v.h)
  }

  ghost predicate Holds(s: seq<bv64>, v: Words) {
    |s| == 8 && Are(s[0], s[1], s[2], s[3], s[4], s[5], s[6], s[7], v)
  }

  lemma ScheduleWide(x: bv32, y: bv32, z: bv32, u: bv32)
    ensures Mask32(Sum4(Ssig1(Wide(x)), Wide(y), Ssig0(Wide(z)), Wide(u)))
         == Wide(Add4(SmallSigma1(x), y, SmallSigma0(z), u))
  {
    hide *;
    Ssig0Wide(z);
    Ssig1Wide(x);
    LowSum4(SmallSigma1(x), y, SmallSigma0(z), u);
    MaskIsLow(Sum4(Ssig1(Wide(x)), Wide(y), Ssig0(Wide(z)), Wide(u)));
  }

  lemma ScheduleStart(block: seq<bv8>, t: nat)
    requires |block| == 64 && t < 16
    ensures Schedule(block, t) == Word(block, 4 * t)
  {}

  lemma ScheduleStep(block: seq<bv8>, t: nat)
    requires |block| == 64 && 16 <= t < 64
    ensures Wide(Schedule(block, t))
         == Mask32(Sum4(Ssig1(Wide(Schedule(block, t - 2))), Wide(Schedule(block, t - 7)),
                        Ssig0(Wide(Schedule(block, t - 15))), Wide(Schedule(block, t - 16))))
  {
    hide Word, Ssig0, Ssig1, SmallSigma0, SmallSigma1, Mask32, Wide, Sum4, Add4;
    ScheduleWide(Schedule(block, t - 2), Schedule(block, t - 7), Schedule(block, t - 15), Schedule(block, t - 16));
  }

  /** The loops that fill the message schedule. */
  method FillSchedule(block: seq<bv8>) returns (w: array<bv64>)
    requires |block| == 64
    ensures fresh(w) && w.Length == 64
    ensures forall t | 0 <= t < 64 :: w[t] == Wide(Schedule(block, t))
  {
    hide Word, Word64, Ssig0, Ssig1, SmallSigma0, SmallSigma1, Mask32, Wide, Sum4, Add4, Schedule;
    w := new bv64[64](_ => 0);
    for i := 0 to 16
      invariant forall t | 0 <= t < i :: w[t] == Wide(Schedule(block, t))
    {
      ScheduleStart(block, i);
      WordWide(block, 4 * i);
      w[i] := Word64(block, 4 * i);
    }
    for i := 16 to 64
      invariant forall t | 0 <= t < i :: w[t] == Wide(Schedule(block, t))
    {
      ScheduleStep(block, i);
      w[i] := Mask32(Sum4(Ssig1(w[i - 2]), w[i - 7], Ssig0(w[i - 15]), w[i - 16]));
    }
  }

  /** The sums of a round are masked once, at the end. */
  lemma RoundWide(v: Words, k: bv32, w: bv32)
    ensures var t1 := Sum5(Wide(v.h), Bsig1(Wide(v.e)), Ch64(Wide(v.e), Wide(v.f), Wide(v.g)), Wide(k), Wide(w));
            var t2 := Sum2(Bsig0(Wide(v.a)), Maj64(Wide(v.a), Wide(v.b), Wide(v.c)));
            && Mask32(Sum2(Wide(v.d), t1)) == Wide(Round(v, k, w).e)
            && Mask32(Sum2(t1, t2)) == Wide(Round(v, k, w).a)
  {
    hide Bsig0, Bsig1, BigSigma0, BigSigma1, Ch, Ch64, Maj, Maj64, Mask32, Low, Wide, Sum2, Sum5, Add2, Add5;
    Bsig0Wide(v.a);
    Bsig1Wide(v.e);
    ChoiceWide(v.e, v.f, v.g);
    ChoiceWide(v.a, v.b, v.c);
    var t1 := Sum5(Wide(v.h), Bsig1(Wide(v.e)), Ch64(Wide(v.e), Wide(v.f), Wide(v.g)), Wide(k), Wide(w));
    var t2 := Sum2(Bsig0(Wide(v.a)), Maj64(Wide(v.a), Wide(v.b), Wide(v.c)));
    LowSum5(v.h, BigSigma1(v.e), Ch(v.e, v.f, v.g), k, w);
    LowWide(v.d); LowWide(BigSigma0(v.a)); LowWide(Maj(v.a, v.b, v.c));
    LowSum(Wide(BigSigma0(v.a)), Wide(Maj(v.a, v.b, v.c)));
    LowSum(Wide(v.d), t1);
    LowSum(t1, t2);
    MaskIsLow(Sum2(Wide(v.d), t1));
    MaskIsLow(Sum2(t1, t2));
  }

  /** The compression of one block into a digest that is updated in place. */
  method HashBlock(digest: array<bv64>, block: seq<bv8>, ghost v: Words)
    requires Holds(digest[..], v) && |block| == 64
    modifies digest
    ensures Holds(digest[..], Compress(v, block))
  {
    hide Bsig0, Bsig1, Ch64, Maj64, Mask32, Round, Schedule, K, Wide, Sum2, Sum5;
    var w := FillSchedule(block);
    var a, b, c, d := digest[0], digest[1], digest[2], digest[3];
    var e, f, g, h := digest[4], digest[5], digest[6], digest[7];
    for i := 0 to 64
      invariant digest[..] == old(digest[..]) && forall t | 0 <= t < 64 :: w[t] == Wide(Schedule(block, t))
      invariant Are(a, b, c, d, e, f, g, h, Rounds(v, block, i))
    {
      ghost var r := Rounds(v, block, i);
      RoundWide(r, K(i), Schedule(block, i));
      RoundShifts(r, K(i), Schedule(block, i));
      var temp1 := Sum5(h, Bsig1(e), Ch64(e, f, g), Wide(K(i)), w[i]);
      var temp2 := Sum2(Bsig0(a), Maj64(a, b, c));
      h := g;
      g := f;
      f := e;
      e := Mask32(Sum2(d, temp1));
      d := c;
      c := b;
      b := a;
      a := Mask32(Sum2(temp1, temp2));
    }
    AddWords(digest, a, b, c, d, e, f, g, h, v, Rounds(v, block, 64));
  }

  lemma RoundShifts(v: Words, k: bv32, w: bv32)
    ensures var r := Round(v, k, w);
            r.b == v.a && r.c == v.b && r.d == v.c && r.f == v.e && r.g == v.f && r.h == v.g
  {}

  /** Adds the working variables to the digest and masks the sums. */
  method AddWords(digest: array<bv64>, a: bv64, b: bv64, c: bv64, d: bv64, e: bv64, f: bv64, g: bv64, h: bv64,
                  ghost v: Words, ghost r: Words)
    requires Holds(digest[..], v) && Are(a, b, c, d, e, f, g, h, r)
    modifies digest
    ensures Holds(digest[..], Plus(v, r))
  {
    hide Mask32, Sum2, Add2, Wide;
    digest[0] := Sum2(digest[0], a);
    digest[1] := Sum2(digest[1], b);
    digest[2] := Sum2(digest[2], c);
    digest[3] := Sum2(digest[3], d);
    digest[4] := Sum2(digest[4], e);
    digest[5] := Sum2(digest[5], f);
    digest[6] := Sum2(digest[6], g);
    digest[7] := Sum2(digest[7], h);
    ghost var sums := digest[..];
    for i := 0 to 8
      invariant forall k | 0 <= k < i :: digest[k] == Mask32(sums[k])
      invariant forall k | i <= k < 8 :: digest[k] == sums[k]
    {
      digest[i] := Mask32(digest[i]);
    }
    MaskedSum2(v.a, r.a); MaskedSum2(v.b, r.b); MaskedSum2(v.c, r.c); MaskedSum2(v.d, r.d);
    MaskedSum2(v.e, r.e); MaskedSum2(v.f, r.f); MaskedSum2(v.g, r.g); MaskedSum2(v.h, r.h);
  }

  // ----- the constants ---------------------------------------------------------------------------

  /** The first sixty-four prime numbers. */
  function Prime(t: nat): nat
    requires t < 64
  {
    if t < 8 then [2, 3, 5, 7, 11, 13, 17, 19][t]
    else if t < 16 then [23, 29, 31, 37, 41, 43, 47, 53][t - 8]
    else if t < 24 then [59, 61, 67, 71, 73, 79, 83, 89][t - 16]
    else if t < 32 then [97, 101, 103, 107, 109, 113, 127, 131][t - 24]
    else if t < 40 then [137, 139, 149, 151, 157, 163, 167, 173][t - 32]
    else if t < 48 then [179, 181, 191, 193, 197, 199, 211, 223][t - 40]
    else if t < 56 then [227, 229, 233, 239, 241, 251, 257, 263][t - 48]
    else [269, 271, 277, 281, 283, 293, 307, 311][t - 56]
  }

  /** Section 4.2.2: the first thirty-two bits of the fractional part of the cube root of p, where r
      is the integral part of the root. */
  ghost predicate CubeRootFraction(p: nat, r: nat, k: nat) {
    var c := r * 0x1_0000_0000 + k;
    c * c * c <= p * 0x1_00000000_00000000_00000000 < (c + 1) * (c + 1) * (c + 1)
  }

  ghost predicate IsCubeRootFraction(p: nat, k: nat) {
    k < 0x1_0000_0000 && exists r: nat :: CubeRootFraction(p, r, k)
  }

  /** Section 5.3.3: the same for the square root. */
  ghost predicate SquareRootFraction(p: nat, r: nat, k: nat) {
    var c := r * 0x1_0000_0000 + k;
    c * c <= p * 0x1_00000000_00000000 < (c + 1) * (c + 1)
  }

  lemma Fractions0()
    ensures CubeRootFraction(2, 1, 0x428a2f98)
    ensures CubeRootFraction(3, 1, 0x71374491)
    ensures CubeRootFraction(5, 1, 0xb5c0fbcf)
    ensures CubeRootFraction(7, 1, 0xe9b5dba5)
    ensures CubeRootFraction(11, 2, 0x3956c25b)
    ensures CubeRootFraction(13, 2, 0x59f111f1)
    ensures CubeRootFraction(17, 2, 0x923f82a4)
    ensures CubeRootFraction(19, 2, 0xab1c5ed5)
  {}

  lemma Constants0(t: nat)
    requires 0 <= t < 8
    ensures IsCubeRootFraction(Prime(t), K(t) as nat)
  {
    hide CubeRootFraction;
    Fractions0();
    if t == 0 {
      assert Prime(0) == 2 && K(0) as nat == 0x428a2f98;
    } else if t == 1 {
      assert Prime(1) == 3 && K(1) as nat == 0x71374491;
    } else if t == 2 {
      assert Prime(2) == 5 && K(2) as nat == 0xb5c0fbcf;
    } else if t == 3 {
      assert Prime(3) == 7 && K(3) as nat == 0xe9b5dba5;
    } else if t == 4 {
      assert Prime(4) == 11 && K(4) as nat == 0x3956c25b;
    } else if t == 5 {
      assert Prime(5) == 13 && K(5) as nat == 0x59f111f1;
    } else if t == 6 {
      assert Prime(6) == 17 && K(6) as nat == 0x923f82a4;
    } else {
      assert Prime(7) == 19 && K(7) as nat == 0xab1c5ed5;
    }
  }

  lemma Fractions8()
    ensures CubeRootFraction(23, 2, 0xd807aa98)
    ensures CubeRootFraction(29, 3, 0x12835b01)
    ensures CubeRootFraction(31, 3, 0x243185be)
    ensures CubeRootFraction(37, 3, 0x550c7dc3)
    ensures CubeRootFraction(41, 3, 0x72be5d74)
    ensures CubeRootFraction(43, 3, 0x80deb1fe)
    ensures CubeRootFraction(47, 3, 0x9bdc06a7)
    ensures CubeRootFraction(53, 3, 0xc19bf174)
  {}

  lemma Constants8(t: nat)
    requires 8 <= t < 16
    ensures IsCubeRootFraction(Prime(t), K(t) as nat)
  {
    hide CubeRootFraction;
    Fractions8();
    if t == 8 {
      assert Prime(8) == 23 && K(8) as nat == 0xd807aa98;
    } else if t == 9 {
      assert Prime(9) == 29 && K(9) as nat == 0x12835b01;
    } else if t == 10 {
      assert Prime(10) == 31 && K(10) as nat == 0x243185be;
    } else if t == 11 {
      assert Prime(11) == 37 && K(11) as nat == 0x550c7dc3;
    } else if t == 12 {
      assert Prime(12) == 41 && K(12) as nat == 0x72be5d74;
    } else if t == 13 {
      assert Prime(13) == 43 && K(13) as nat == 0x80deb1fe;
    } else if t == 14 {
      assert Prime(14) == 47 && K(14) as nat == 0x9bdc06a7;
    } else {
      assert Prime(15) == 53 && K(15) as nat == 0xc19bf174;
    }
  }

  lemma Fractions16()
    ensures CubeRootFraction(59, 3, 0xe49b69c1)
    ensures CubeRootFraction(61, 3, 0xefbe4786)
    ensures CubeRootFraction(67, 4, 0x0fc19dc6)
    ensures CubeRootFraction(71, 4, 0x240ca1cc)
    ensures CubeRootFraction(73, 4, 0x2de92c6f)
    ensures CubeRootFraction(79, 4, 0x4a7484aa)
    ensures CubeRootFraction(83, 4, 0x5cb0a9dc)
    ensures CubeRootFraction(89, 4, 0x76f988da)
  {}

  lemma Constants16(t: nat)
    requires 16 <= t < 24
    ensures IsCubeRootFraction(Prime(t), K(t) as nat)
  {
    hide CubeRootFraction;
    Fractions16();
    if t == 16 {
      assert Prime(16) == 59 && K(16) as nat == 0xe49b69c1;
    } else if t == 17 {
      assert Prime(17) == 61 && K(17) as nat == 0xefbe4786;
    } else if t == 18 {
      assert Prime(18) == 67 && K(18) as nat == 0x0fc19dc6;
    } else if t == 19 {
      assert Prime(19) == 71 && K(19) as nat == 0x240ca1cc;
    } else if t == 20 {
      assert Prime(20) == 73 && K(20) as nat == 0x2de92c6f;
    } else if t == 21 {
      assert Prime(21) == 79 && K(21) as nat == 0x4a7484aa;
    } else if t == 22 {
      assert Prime(22) == 83 && K(22) as nat == 0x5cb0a9dc;
    } else {
      assert Prime(23) == 89 && K(23) as nat == 0x76f988da;
    }
  }

  lemma Fractions24()
    ensures CubeRootFraction(97, 4, 0x983e5152)
    ensures CubeRootFraction(101, 4, 0xa831c66d)
    ensures CubeRootFraction(103, 4, 0xb00327c8)
    ensures CubeRootFraction(107, 4, 0xbf597fc7)
    ensures CubeRootFraction(109, 4, 0xc6e00bf3)
    ensures CubeRootFraction(113, 4, 0xd5a79147)
    ensures CubeRootFraction(127, 5, 0x06ca6351)
    ensures CubeRootFraction(131, 5, 0x14292967)
  {}

  lemma Constants24(t: nat)
    requires 24 <= t < 32
    ensures IsCubeRootFraction(Prime(t), K(t) as nat)
  {
    hide CubeRootFraction;
    Fractions24();
    if t == 24 {
      assert Prime(24) == 97 && K(24) as nat == 0x983e5152;
    } else if t == 25 {
      assert Prime(25) == 101 && K(25) as nat == 0xa831c66d;
    } else if t == 26 {
      assert Prime(26) == 103 && K(26) as nat == 0xb00327c8;
    } else if t == 27 {
      assert Prime(27) == 107 && K(27) as nat == 0xbf597fc7;
    } else if t == 28 {
      assert Prime(28) == 109 && K(28) as nat == 0xc6e00bf3;
    } else if t == 29 {
      assert Prime(29) == 113 && K(29) as nat == 0xd5a79147;
    } else if t == 30 {
      assert Prime(30) == 127 && K(30) as nat == 0x06ca6351;
    } else {
      assert Prime(31) == 131 && K(31) as nat == 0x14292967;
    }
  }

  lemma Fractions32()
    ensures CubeRootFraction(137, 5, 0x27b70a85)
    ensures CubeRootFraction(139, 5, 0x2e1b2138)
    ensures CubeRootFraction(149, 5, 0x4d2c6dfc)
    ensures CubeRootFraction(151, 5, 0x53380d13)
    ensures CubeRootFraction(157, 5, 0x650a7354)
    ensures CubeRootFraction(163, 5, 0x766a0abb)
    ensures CubeRootFraction(167, 5, 0x81c2c92e)
    ensures CubeRootFraction(173, 5, 0x92722c85)
  {}

  lemma Constants32(t: nat)
    requires 32 <= t < 40
    ensures IsCubeRootFraction(Prime(t), K(t) as nat)
  {
    hide CubeRootFraction;
    Fractions32();
    if t == 32 {
      assert Prime(32) == 137 && K(32) as nat == 0x27b70a85;
    } else if t == 33 {
      assert Prime(33) == 139 && K(33) as nat == 0x2e1b2138;
    } else if t == 34 {
      assert Prime(34) == 149 && K(34) as nat == 0x4d2c6dfc;
    } else if t == 35 {
      assert Prime(35) == 151 && K(35) as nat == 0x53380d13;
    } else if t == 36 {
      assert Prime(36) == 157 && K(36) as nat == 0x650a7354;
    } else if t == 37 {
      assert Prime(37) == 163 && K(37) as nat == 0x766a0abb;
    } else if t == 38 {
      assert Prime(38) == 167 && K(38) as nat == 0x81c2c92e;
    } else {
      assert Prime(39) == 173 && K(39) as nat == 0x92722c85;
    }
  }

  lemma Fractions40()
    ensures CubeRootFraction(179, 5, 0xa2bfe8a1)
    ensures CubeRootFraction(181, 5, 0xa81a664b)
    ensures CubeRootFraction(191, 5, 0xc24b8b70)
    ensures CubeRootFraction(193, 5, 0xc76c51a3)
    ensures CubeRootFraction(197, 5, 0xd192e819)
    ensures CubeRootFraction(199, 5, 0xd6990624)
    ensures CubeRootFraction(211, 5, 0xf40e3585)
    ensures CubeRootFraction(223, 6, 0x106aa070)
  {}

  lemma Constants40(t: nat)
    requires 40 <= t < 48
    ensures IsCubeRootFraction(Prime(t), K(t) as nat)
  {
    hide CubeRootFraction;
    Fractions40();
    if t == 40 {
      assert Prime(40) == 179 && K(40) as nat == 0xa2bfe8a1;
    } else if t == 41 {
      assert Prime(41) == 181 && K(41) as nat == 0xa81a664b;
    } else if t == 42 {
      assert Prime(42) == 191 && K(42) as nat == 0xc24b8b70;
    } else if t == 43 {
      assert Prime(43) == 193 && K(43) as nat == 0xc76c51a3;
    } else if t == 44 {
      assert Prime(44) == 197 && K(44) as nat == 0xd192e819;
    } else if t == 45 {
      assert Prime(45) == 199 && K(45) as nat == 0xd6990624;
    } else if t == 46 {
      assert Prime(46) == 211 && K(46) as nat == 0xf40e3585;
    } else {
      assert Prime(47) == 223 && K(47) as nat == 0x106aa070;
    }
  }

  lemma Fractions48()
    ensures CubeRootFraction(227, 6, 0x19a4c116)
    ensures CubeRootFraction(229, 6, 0x1e376c08)
    ensures CubeRootFraction(233, 6, 0x2748774c)
    ensures CubeRootFraction(239, 6, 0x34b0bcb5)
    ensures CubeRootFraction(241, 6, 0x391c0cb3)
    ensures CubeRootFraction(251, 6, 0x4ed8aa4a)
    ensures CubeRootFraction(257, 6, 0x5b9cca4f)
    ensures CubeRootFraction(263, 6, 0x682e6ff3)
  {}

  lemma Constants48(t: nat)
    requires 48 <= t < 56
    ensures IsCubeRootFraction(Prime(t), K(t) as nat)
  {
    hide CubeRootFraction;
    Fractions48();
    if t == 48 {
      assert Prime(48) == 227 && K(48) as nat == 0x19a4c116;
    } else if t == 49 {
      assert Prime(49) == 229 && K(49) as nat == 0x1e376c08;
    } else if t == 50 {
      assert Prime(50) == 233 && K(50) as nat == 0x2748774c;
    } else if t == 51 {
      assert Prime(51) == 239 && K(51) as nat == 0x34b0bcb5;
    } else if t == 52 {
      assert Prime(52) == 241 && K(52) as nat == 0x391c0cb3;
    } else if t == 53 {
      assert Prime(53) == 251 && K(53) as nat == 0x4ed8aa4a;
    } else if t == 54 {
      assert Prime(54) == 257 && K(54) as nat == 0x5b9cca4f;
    } else {
      assert Prime(55) == 263 && K(55) as nat == 0x682e6ff3;
    }
  }

  lemma Fractions56()
    ensures CubeRootFraction(269, 6, 0x748f82ee)
    ensures CubeRootFraction(271, 6, 0x78a5636f)
    ensures CubeRootFraction(277, 6, 0x84c87814)
    ensures CubeRootFraction(281, 6, 0x8cc70208)
    ensures CubeRootFraction(283, 6, 0x90befffa)
    ensures CubeRootFraction(293, 6, 0xa4506ceb)
    ensures CubeRootFraction(307, 6, 0xbef9a3f7)
    ensures CubeRootFraction(311, 6, 0xc67178f2)
  {}

  lemma Constants56(t: nat)
    requires 56 <= t < 64
    ensures IsCubeRootFraction(Prime(t), K(t) as nat)
  {
    hide CubeRootFraction;
    Fractions56();
    if t == 56 {
      assert Prime(56) == 269 && K(56) as nat == 0x748f82ee;
    } else if t == 57 {
      assert Prime(57) == 271 && K(57) as nat == 0x78a5636f;
    } else if t == 58 {
      assert Prime(58) == 277 && K(58) as nat == 0x84c87814;
    } else if t == 59 {
      assert Prime(59) == 281 && K(59) as nat == 0x8cc70208;
    } else if t == 60 {
      assert Prime(60) == 283 && K(60) as nat == 0x90befffa;
    } else if t == 61 {
      assert Prime(61) == 293 && K(61) as nat == 0xa4506ceb;
    } else if t == 62 {
      assert Prime(62) == 307 && K(62) as nat == 0xbef9a3f7;
    } else {
      assert Prime(63) == 311 && K(63) as nat == 0xc67178f2;
    }
  }

  /** Every constant of the table is what the standard derives it from. */
  lemma TableIsCubeRoots(t: nat)
    requires t < 64
    ensures IsCubeRootFraction(Prime(t), K(t) as nat)
  {
    hide K, Prime, IsCubeRootFraction;
    if t < 8 { Constants0(t); }
    else if t < 16 { Constants8(t); }
    else if t < 24 { Constants16(t); }
    else if t < 32 { Constants24(t); }
    else if t < 40 { Constants32(t); }
    else if t < 48 { Constants40(t); }
    else if t < 56 { Constants48(t); }
    else { Constants56(t); }
  }

  /** And so is every word of the initial hash value. */
  lemma InitialIsSquareRoots()
    ensures SquareRootFraction(2, 1, InitialHash.a as nat)
    ensures SquareRootFraction(3, 1, InitialHash.b as nat)
    ensures SquareRootFraction(5, 2, InitialHash.c as nat)
    ensures SquareRootFraction(7, 2, InitialHash.d as nat)
    ensures SquareRootFraction(11, 3, InitialHash.e as nat)
    ensures SquareRootFraction(13, 3, InitialHash.f as nat)
    ensures SquareRootFraction(17, 4, InitialHash.g as nat)
    ensures SquareRootFraction(19, 4, InitialHash.h as nat)
  {}
}
