/** The RXS-M-XS output permutation of the PCG engines and its inverse.  A machine word is the
    sequence of its bits, least significant first, so every statement holds at every width. */
module Output {
  import opened Arith
  import PcgEngine

  type Word = seq<bool>

  // ----- bitwise operations ----------------------------------------------------------------------

  function Xor(x: Word, y: Word): (r: Word)
    requires |x| == |y|
  {
    seq(|x|, i requires 0 <= i < |x| => x[i] != y[i])
  }

  function Shr(x: Word, s: nat): (r: Word) {
    seq(|x|, i requires 0 <= i < |x| => i + s < |x| && x[i + s])
  }

  function AndWord(x: Word, y: Word): (r: Word)
    requires |x| == |y|
  {
    seq(|x|, i requires 0 <= i < |x| => x[i] && y[i])
  }

  function OrWord(x: Word, y: Word): (r: Word)
    requires |x| == |y|
  {
    seq(|x|, i requires 0 <= i < |x| => x[i] || y[i])
  }

  function Not(x: Word): (r: Word) {
    seq(|x|, i requires 0 <= i < |x| => !x[i])
  }

  /** A word of the given width with its k low bits set: (1 << k) - 1. */
  function LowMask(width: nat, k: nat): Word {
    seq(width, i => i < k)
  }

  /** No bit from position k upwards is set: x < 2^k. */
  ghost predicate Below(x: Word, k: nat) {
    forall i | k <= i < |x| :: !x[i]
  }

  function XorShift(x: Word, s: nat): (r: Word)
    ensures |r| == |x|
  {
    Xor(x, Shr(x, s))
  }

  // ----- undoing an xorshift ---------------------------------------------------------------------

  /** The 2s top bits of the preimage: they need no bits that are still unknown. */
  function Top1(x: Word, bits: nat, s: nat): (r: Word)
    requires 2 * s < bits <= |x|
    ensures |r| == |x|
    ensures forall i | 0 <= i < |x| :: r[i] <==> bits - 2 * s <= i && XorShift(x, s)[i]
  {
    AndWord(XorShift(x, s), Not(LowMask(|x|, bits - s * 2)))
  }

  /** What is left to back out below the s top bits. */
  function Bottom2(x: Word, bits: nat, s: nat): (r: Word)
    requires 2 * s < bits <= |x|
    ensures |r| == |x|
    ensures forall i | 0 <= i < |x| :: r[i] <==> i < bits - s && (Top1(x, bits, s)[i] || (i < bits - 2 * s && x[i]))
  {
    var bottom1 := AndWord(x, LowMask(|x|, bits - s * 2));
    AndWord(OrWord(Top1(x, bits, s), bottom1), LowMask(|x|, bits - s))
  }

  /** The recursion that backs out an xorshift by s of a value that has the given number of bits. */
  function Unxorshift(x: Word, bits: nat, s: nat): (r: Word)
    requires 0 < s && bits <= |x|
    ensures |r| == |x|
    decreases bits
  {
    if 2 * s >= bits then XorShift(x, s)
    else
      var bottom2 := Unxorshift(Bottom2(x, bits, s), bits - s, s);
      OrWord(Top1(x, bits, s), AndWord(bottom2, LowMask(|x|, bits - s * 2)))
  }

  lemma XorShiftAt(x: Word, s: nat, i: nat)
    requires i < |x|
    ensures XorShift(x, s)[i] == (x[i] != (i + s < |x| && x[i + s]))
  {}

  lemma {:induction false} UnxorshiftUndoes(y: Word, bits: nat, s: nat)
    requires 0 < s && bits <= |y| && Below(y, bits)
    ensures Unxorshift(XorShift(y, s), bits, s) == y
    decreases bits
  {
    hide XorShift;
    var x := XorShift(y, s);
    if 2 * s < bits {
      var z := AndWord(y, LowMask(|y|, bits - s));
      UnxorshiftUndoes(z, bits - s, s);
      BottomIsXorShift(y, bits, s);
      TwiceKeepsTop(y, bits, s);
      assert Unxorshift(x, bits, s) == OrWord(Top1(x, bits, s), AndWord(z, LowMask(|x|, bits - s * 2)));
    } else {
      TwiceKeepsTop(y, bits, s);
    }
  }

  /** Shifting twice gives back the 2s top bits. */
  lemma TwiceKeepsTop(y: Word, bits: nat, s: nat)
    requires 0 < s && bits <= |y| && Below(y, bits)
    ensures forall i | 0 <= i < |y| && bits - 2 * s <= i :: XorShift(XorShift(y, s), s)[i] == y[i]
  {
    var x := XorShift(y, s);
    forall i | 0 <= i < |y| && bits - 2 * s <= i
      ensures XorShift(x, s)[i] == y[i]
    {
      XorShiftAt(x, s, i);
      XorShiftAt(y, s, i);
      if i + s < |y| {
        XorShiftAt(y, s, i + s);
      }
    }
  }

  lemma BottomIsXorShift(y: Word, bits: nat, s: nat)
    requires 0 < s && 2 * s < bits <= |y| && Below(y, bits)
    ensures Bottom2(XorShift(y, s), bits, s) == XorShift(AndWord(y, LowMask(|y|, bits - s)), s)
  {
    var x, z := XorShift(y, s), AndWord(y, LowMask(|y|, bits - s));
    forall i | 0 <= i < |y|
      ensures Bottom2(x, bits, s)[i] == XorShift(z, s)[i]
    {
      XorShiftAt(x, s, i);
      XorShiftAt(y, s, i);
      XorShiftAt(z, s, i);
      if i + s < |y| {
        XorShiftAt(y, s, i + s);
      }
    }
  }

  /** The other direction: whatever the value, the recursion finds a preimage under the xorshift. */
  lemma {:induction false} UnxorshiftIsPreimage(x: Word, bits: nat, s: nat)
    requires 0 < s && bits <= |x| && Below(x, bits)
    ensures Below(Unxorshift(x, bits, s), bits)
    ensures XorShift(Unxorshift(x, bits, s), s) == x
    decreases bits
  {
    hide XorShift;
    var y := Unxorshift(x, bits, s);
    if 2 * s < bits {
      var b := Bottom2(x, bits, s);
      UnxorshiftIsPreimage(b, bits - s, s);
      PreimageFromBottom(x, Unxorshift(b, bits - s, s), bits, s);
    } else {
      TwiceKeepsTop(x, bits, s);
      assert XorShift(y, s) == x;
      forall i | bits <= i < |x|
        ensures !y[i]
      {
        XorShiftAt(x, s, i);
      }
    }
  }

  lemma PreimageFromBottom(x: Word, r: Word, bits: nat, s: nat)
    requires 0 < s && 2 * s < bits <= |x| && Below(x, bits)
    requires |r| == |x| && Below(r, bits - s) && XorShift(r, s) == Bottom2(x, bits, s)
    ensures var y := OrWord(Top1(x, bits, s), AndWord(r, LowMask(|x|, bits - s * 2)));
            Below(y, bits) && XorShift(y, s) == x
  {
    var y := OrWord(Top1(x, bits, s), AndWord(r, LowMask(|x|, bits - s * 2)));
    forall i | 0 <= i < |x|
      ensures y[i] == if bits - 2 * s <= i then XorShift(x, s)[i] else r[i]
    {}
    forall i | 0 <= i < |x|
      ensures i < bits - s ==> y[i] == r[i]
    {
      XorShiftAt(r, s, i);
    }
    forall i | 0 <= i < |x|
      ensures XorShift(y, s)[i] == x[i]
    {
      XorShiftAt(y, s, i);
      XorShiftAt(r, s, i);
      XorShiftAt(x, s, i);
      if i + s < |x| {
        XorShiftAt(x, s, i + s);
      }
    }
    forall i | bits <= i < |x|
      ensures !y[i]
    {
      XorShiftAt(x, s, i);
    }
  }

  // ----- words as numbers ------------------------------------------------------------------------

  function ToNat(x: Word): nat {
    if x == [] then 0 else (if x[0] then 1 else 0) + 2 * ToNat(x[1..])
  }

  /** The word of the given width that holds v, wrapped. */
  function FromNat(v: nat, width: nat): (r: Word)
    ensures |r| == width
  {
    if width == 0 then [] else [v % 2 == 1] + FromNat(v / 2, width - 1)
  }

  lemma {:induction false} FromToNat(x: Word)
    ensures FromNat(ToNat(x), |x|) == x
  {
    if x != [] {
      FromToNat(x[1..]);
    }
  }

  lemma {:induction false} ToFromNat(v: nat, width: nat)
    ensures ToNat(FromNat(v, width)) == Low(v, width)
  {
    if width == 0 {
      LowMod4(v);
    } else {
      ToFromNat(v / 2, width - 1);
      LowHalf(v, width);
      assert FromNat(v, width)[1..] == FromNat(v / 2, width - 1);
    }
  }

  lemma LowHalf(v: nat, k: nat)
    requires k > 0
    ensures Low(v, k) == v % 2 + 2 * Low(v / 2, k - 1)
  {
    var c, h := Pow2(k - 1), v / 2;
    var q, r := h / c, h % c;
    assert q * (2 * c) == 2 * (q * c);
    DivModUnique(v, 2 * c, q, v % 2 + 2 * r);
  }

  lemma {:induction false} ToNatBound(x: Word)
    ensures ToNat(x) < Pow2(|x|)
  {
    if x != [] {
      ToNatBound(x[1..]);
    }
  }

  /** x *= m in a word. */
  function Times(x: Word, m: nat): (r: Word)
    ensures |r| == |x|
  {
    FromNat(ToNat(x) * m, |x|)
  }

  /** Multiplying by m and then by its inverse modulo 2^width changes nothing. */
  lemma {:induction false} TimesInverse(x: Word, m: nat, u: nat)
    requires Low(m * u, |x|) == Low(1, |x|)
    ensures Times(Times(x, m), u) == x
  {
    ToNatBound(x);
    ToFromNat(ToNat(x) * m, |x|);
    InverseWrapped(ToNat(x), m, u, |x|);
    FromNatLow(Low(ToNat(x) * m, |x|) * u, |x|);
    FromToNat(x);
  }

  lemma InverseWrapped(v: nat, m: nat, u: nat, n: nat)
    requires v < Pow2(n) && Low(m * u, n) == Low(1, n)
    ensures Low(Low(v * m, n) * u, n) == v
  {
    hide Low;
    LowLow(v * m, n);
    LowAffine(Low(v * m, n), v * m, u, u, 0, 0, n);
    Regroup(v, m, u);
    LowAffine(m * u, 1, v, v, 0, 0, n);
    LowSmall(v, n);
  }

  lemma Regroup(a: int, b: int, c: int)
    ensures (a * b) * c == (b * c) * a
  {}

  /** A word keeps the low bits of the value assigned to it. */
  lemma {:induction false} FromNatLow(v: nat, n: nat)
    ensures FromNat(v, n) == FromNat(Low(v, n), n)
  {
    hide Low;
    ToFromNat(v, n);
    FromToNat(FromNat(v, n));
  }

  // ----- the output permutation ------------------------------------------------------------------

  /** How many high bits choose the random shift. */
  function OpBits(bits: nat): (k: nat)
    ensures 2 <= k <= 6
  {
    if bits >= 128 then 6
    else if bits >= 64 then 5
    else if bits >= 32 then 4
    else if bits >= 16 then 3
    else 2
  }

  /** The value of the k top bits. */
  function Top(x: Word, k: nat): nat
    requires k <= |x|
  {
    ToNat(x[|x| - k..])
  }

  /** output, where the result is as wide as the state. */
  function Out(internal: Word, mult: nat): (r: Word)
    requires 8 <= |internal|
  {
    var opbits := OpBits(|internal|);
    var rshift := Top(internal, opbits);
    var x := XorShift(internal, opbits + rshift);
    var result := Times(x, mult);
    XorShift(result, (2 * |internal| + 2) / 3)
  }

  /** unoutput. */
  function Unout(internal: Word, unmult: nat): (r: Word)
    requires 8 <= |internal|
  {
    var bits := |internal|;
    var opbits := OpBits(bits);
    var x := Times(Unxorshift(internal, bits, (2 * bits + 2) / 3), unmult);
    var rshift := Top(x, opbits);
    Unxorshift(x, bits, opbits + rshift)
  }

  /** The bits of the number from j upwards are its quotient by 2^j. */
  lemma {:induction false} ToNatUpper(x: Word, j: nat)
    requires j <= |x|
    ensures ToNat(x) / Pow2(j) == ToNat(x[j..])
  {
    if j == 0 {
      assert x[0..] == x;
    } else {
      ToNatUpper(x[1..], j - 1);
      assert x[1..][j - 1..] == x[j..];
      HalfThenRest(ToNat(x), ToNat(x[1..]), j);
    }
  }

  lemma HalfThenRest(v: nat, h: nat, j: nat)
    requires j > 0 && (v == 2 * h || v == 2 * h + 1)
    ensures v / Pow2(j) == h / Pow2(j - 1)
  {
    var c := Pow2(j - 1);
    var q, r := h / c, h % c;
    assert h == q * c + r && q * (2 * c) == 2 * (q * c);
    DivModUnique(v, 2 * c, q, v - 2 * (q * c));
  }

  /** Bit i of a word is bit i of its number. */
  lemma ToNatBit(x: Word, i: nat)
    requires i < |x|
    ensures x[i] <==> ToNat(x) / Pow2(i) % 2 == 1
  {
    hide Pow2, ToNat;
    ToNatUpper(x, i);
    LowestBit(x[i..]);
  }

  lemma LowestBit(x: Word)
    requires x != []
    ensures x[0] <==> ToNat(x) % 2 == 1
  {
    hide ToNat;
    ToNatStep(x);
    LowestOf(if x[0] then 1 else 0, ToNat(x[1..]));
  }

  lemma ToNatStep(x: Word)
    requires x != []
    ensures ToNat(x) == (if x[0] then 1 else 0) + 2 * ToNat(x[1..])
  {}

  lemma LowestOf(b: nat, h: nat)
    requires b < 2
    ensures (b + 2 * h) % 2 == b
  {}

  /** For each width, how many top bits choose the first shift, and the last shift. */
  predicate Numbers(bits: nat, top: nat, last: nat): (listed: bool)
    ensures listed ==> 8 <= bits && top <= bits
  {
    (bits, top, last) in {(8, 2, 6), (16, 3, 11), (32, 4, 22), (64, 5, 43), (128, 6, 86)}
  }

  /** The output in three steps: a shift by as much as the top bits say, the multiplication, and a last
      shift. */
  lemma OutputSteps(x: Word, top: nat, last: nat) returns (y: Word, z: Word)
    requires Numbers(|x|, top, last)
    ensures |y| == |z| == |x|
    ensures var s := top + ToNat(x) / Pow2(|x| - top);
            forall i | 0 <= i < |x| :: y[i] == (x[i] != (i + s < |x| && x[i + s]))
    ensures ToNat(z) == ToNat(y) * McgMultiplier(|x|) % Pow2(|x|)
    ensures forall i | 0 <= i < |x| ::
              Out(x, McgMultiplier(|x|))[i] == (z[i] != (i + last < |x| && z[i + last]))
  {
    hide McgMultiplier, ToNat, FromNat, Pow2, Out, XorShift, OpBits, Numbers;
    OutAtWidth(x, top, last, McgMultiplier(|x|));
    ToNatUpper(x, |x| - top);
    var s := top + Top(x, top);
    y := XorShift(x, s);
    z := Times(y, McgMultiplier(|x|));
    ToFromNat(ToNat(y) * McgMultiplier(|x|), |x|);
    forall i | 0 <= i < |x|
      ensures y[i] == (x[i] != (i + s < |x| && x[i + s]))
      ensures XorShift(z, last)[i] == (z[i] != (i + last < |x| && z[i + last]))
    {
      XorShiftAt(x, s, i);
      XorShiftAt(z, last, i);
    }
  }

  lemma OutAtWidth(x: Word, top: nat, last: nat, mult: nat)
    requires Numbers(|x|, top, last)
    ensures Out(x, mult) == XorShift(Times(XorShift(x, top + Top(x, top)), mult), last)
  {
    hide XorShift, Times, Top;
  }

  /** An xorshift by at least k leaves the k top bits as they are. */
  lemma XorShiftKeepsTop(x: Word, k: nat, s: nat)
    requires k <= s && k <= |x|
    ensures XorShift(x, s)[|x| - k..] == x[|x| - k..]
  {}

  /** With inverse multipliers output and unoutput undo each other, at every width. */
  lemma {:induction false} UnoutUndoesOut(x: Word, mult: nat, unmult: nat)
    requires 8 <= |x| && Low(mult * unmult, |x|) == Low(1, |x|)
    ensures Unout(Out(x, mult), unmult) == x
  {
    hide Low, Unxorshift, Times, XorShift, ToNat;
    var bits, opbits := |x|, OpBits(|x|);
    var s := opbits + Top(x, opbits);
    UnxorshiftUndoes(Times(XorShift(x, s), mult), bits, (2 * bits + 2) / 3);
    TimesInverse(XorShift(x, s), mult, unmult);
    XorShiftKeepsTop(x, opbits, s);
    UnxorshiftUndoes(x, bits, s);
  }

  lemma {:induction false} OutUndoesUnout(x: Word, mult: nat, unmult: nat)
    requires 8 <= |x| && Low(mult * unmult, |x|) == Low(1, |x|)
    ensures Out(Unout(x, unmult), mult) == x
  {
    hide Low, Unxorshift, Times, XorShift, ToNat;
    var bits, opbits := |x|, OpBits(|x|);
    var b := Unxorshift(x, bits, (2 * bits + 2) / 3);
    var c := Times(b, unmult);
    var s := opbits + Top(c, opbits);
    UnxorshiftIsPreimage(c, bits, s);
    XorShiftKeepsTop(Unxorshift(c, bits, s), opbits, s);
    Commute(mult, unmult);
    TimesInverse(b, unmult, mult);
    UnxorshiftIsPreimage(x, bits, (2 * bits + 2) / 3);
  }

  lemma Commute(a: int, b: int)
    ensures a * b == b * a
  {}

  function McgMultiplier(bits: nat): nat {
    match bits
    case 8 => 217
    case 16 => 62169
    case 32 => 277803737
    case 64 => 12605985483714917081
    case _ => PcgEngine.Wide(17766728186571221404, 12605985483714917081)
  }

  function McgUnmultiplier(bits: nat): nat {
    match bits
    case 8 => 105
    case 16 => 28009
    case 32 => 2897767785
    case 64 => 15009553638781119849
    case _ => PcgEngine.Wide(14422606686972528997, 15009553638781119849)
  }

  lemma Pow2Of8()
    ensures Pow2(8) == 0x100
  {
    assert Pow2(4) == 16;
  }

  lemma Pow2Values()
    ensures Pow2(8) == 0x100 && Pow2(16) == 0x1_0000 && Pow2(32) == 0x1_0000_0000
    ensures Pow2(64) == 0x1_0000_0000_0000_0000
    ensures Pow2(128) == 0x1_0000_0000_0000_0000_0000_0000_0000_0000
  {
    hide Pow2;
    Pow2Of8();
    Pow2Add(8, 8);
    Pow2Add(16, 16);
    Pow2Add(32, 32);
    Pow2Add(64, 64);
  }

  /** The multiplier constants of each width are inverse to each other. */
  lemma MultipliersInverse(bits: nat)
    requires bits in {8, 16, 32, 64, 128}
    ensures Low(McgMultiplier(bits) * McgUnmultiplier(bits), bits) == Low(1, bits)
  {
    Pow2Values();
    LowSmall(1, bits);
    var product := McgMultiplier(bits) * McgUnmultiplier(bits);
    var q := match bits
      case 8 => 89
      case 16 => 26570
      case 32 => 187431164
      case 64 => 10257106323558699623
      case _ => 256242532749265411604086694698165912274;
    assert product == q * Pow2(bits) + 1;
    DivModUnique(product, Pow2(bits), q, 1);
  }

  /** At every width the library supports the output function is a permutation of the states. */
  lemma {:induction false} OutputIsPermutation(x: Word)
    requires |x| in {8, 16, 32, 64, 128}
    ensures Unout(Out(x, McgMultiplier(|x|)), McgUnmultiplier(|x|)) == x
    ensures Out(Unout(x, McgUnmultiplier(|x|)), McgMultiplier(|x|)) == x
  {
    hide McgMultiplier, McgUnmultiplier, Low, Out, Unout;
    MultipliersInverse(|x|);
    UnoutUndoesOut(x, McgMultiplier(|x|), McgUnmultiplier(|x|));
    OutUndoesUnout(x, McgMultiplier(|x|), McgUnmultiplier(|x|));
  }
}
