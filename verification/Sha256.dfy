/** The streaming SHA-256 hasher: octets in pieces of any size, a length in four limbs of 16 bits, and
    the padding at the end. */
module Sha256 {
  import Arith
  import opened Sha256Block

  // ----- FIPS 180-4 on octets --------------------------------------------------------------------

  function Octet(n: nat): bv8 {
    (n % 256) as bv8
  }

  /** A number in k octets, the most significant first. */
  function BigEndian(n: nat, k: nat): (s: seq<bv8>)
    ensures |s| == k
  {
    if k == 0 then [] else BigEndian(n / 256, k - 1) + [Octet(n)]
  }

  function Zeros(k: nat): (s: seq<bv8>)
    ensures |s| == k
  {
    seq(k, _ => 0)
  }

  const TWO_64 := 0x1_0000_0000_0000_0000

  /** How many octets of zero come after the octet with the first padding bit. */
  function ZerosAfter(length: nat): nat {
    if length % 64 <= 55 then 55 - length % 64 else 119 - length % 64
  }

  function BitLength(length: nat): nat {
    8 * length % TWO_64
  }

  /** Section 5.1.1, for a message of whole octets. */
  function Padded(m: seq<bv8>): (p: seq<bv8>)
    ensures |p| % 64 == 0
  {
    SameOffset(|m| % 64 + 9 + ZerosAfter(|m|), |m| / 64, 64);
    m + [0x80] + Zeros(ZerosAfter(|m|)) + BigEndian(BitLength(|m|), 8)
  }

  /** After the length in bits, a one and k zeros there is room for the 64 bits of the length. */
  predicate LeavesRoom(length: nat, k: nat) {
    (8 * length + 1 + k) % 512 == 448
  }

  /** The number of zero bits is the smallest that the standard allows. */
  lemma PaddingIsSmallest(length: nat, j: nat)
    ensures LeavesRoom(length, 7 + 8 * ZerosAfter(length))
    ensures LeavesRoom(length, j) ==> j >= 7 + 8 * ZerosAfter(length)
  {
    var q, r := length / 64, length % 64;
    SameOffset(8 * r + 8 + 8 * ZerosAfter(length), q, 512);
    SameOffset(8 * r + 1 + j, q, 512);
    assert 8 * length + 1 + j == 8 * r + 1 + j + q * 512;
  }

  lemma SameOffset(y: nat, q: nat, m: nat)
    requires m > 0
    ensures (y + q * m) % m == y % m
  {
    Arith.ModShift(y, q, m);
  }

  /** Section 6.2.2: block after block. */
  function HashBlocks(v: Words, data: seq<bv8>): Words
    requires |data| % 64 == 0
  {
    if data == [] then v else Compress(HashBlocks(v, data[..|data| - 64]), data[|data| - 64..])
  }

  function Hash(m: seq<bv8>): Words {
    HashBlocks(InitialHash, Padded(m))
  }

  lemma NothingHashed()
    ensures HashBlocks(InitialHash, []) == InitialHash
  {}

  lemma OneMoreBlock(v: Words, data: seq<bv8>, block: seq<bv8>)
    requires |data| % 64 == 0 && |block| == 64
    ensures HashBlocks(v, data + block) == Compress(HashBlocks(v, data), block)
  {
    hide Compress;
    var longer := data + block;
    assert longer[..|longer| - 64] == data && longer[|longer| - 64..] == block;
  }

  // ----- the hasher ------------------------------------------------------------------------------

  /** What four limbs of 16 bits represent. */
  function Value(d: seq<nat>): nat
    requires |d| == 4
  {
    d[0] + 0x1_0000 * d[1] + 0x1_0000_0000 * d[2] + 0x1_0000_0000_0000 * d[3]
  }

  /** What a carry into limb i is worth. */
  function Carried(carry: nat, i: nat): nat {
    if i == 0 then carry else if i == 1 then 0x1_0000 * carry else if i == 2 then 0x1_0000_0000 * carry
    else if i == 3 then 0x1_0000_0000_0000 * carry else TWO_64 * carry
  }

  ghost predicate Limbs(d: seq<nat>) {
    |d| == 4 && d[0] < 0x1_0000 && d[1] < 0x1_0000 && d[2] < 0x1_0000 && d[3] < 0x1_0000
  }

  /** What is hashed and what waits make up the message. */
  ghost predicate Tracks(m: seq<bv8>, waiting: seq<bv8>, h: seq<bv64>) {
    && |waiting| <= |m| && (|m| - |waiting|) % 64 == 0
    && waiting == m[|m| - |waiting|..]
    && Holds(h, HashBlocks(InitialHash, m[..|m| - |waiting|]))
  }

  ghost function Tracked(m: seq<bv8>, waiting: seq<bv8>, h: seq<bv64>): (v: Words)
    requires Tracks(m, waiting, h)
    ensures Holds(h, v)
  {
    HashBlocks(InitialHash, m[..|m| - |waiting|])
  }

  lemma MoreWaiting(m: seq<bv8>, waiting: seq<bv8>, h: seq<bv64>, data: seq<bv8>)
    requires Tracks(m, waiting, h)
    ensures Tracks(m + data, waiting + data, h)
  {
    hide Holds, HashBlocks;
    assert (m + data)[..|m| - |waiting|] == m[..|m| - |waiting|];
  }

  lemma BlockDone(m: seq<bv8>, waiting: seq<bv8>, before: seq<bv64>, after: seq<bv64>)
    requires Tracks(m, waiting, before) && |waiting| >= 64
    requires Holds(after, Compress(Tracked(m, waiting, before), waiting[..64]))
    ensures Tracks(m, waiting[64..], after)
  {
    hide Holds, HashBlocks, Compress;
    var k := |m| - |waiting|;
    OneMoreBlock(InitialHash, m[..k], waiting[..64]);
    assert m[..k + 64] == m[..k] + waiting[..64];
    Arith.ModShift(k, 1, 64);
  }

  /** All limbs from i on are of 16 bits, except that limb i may be larger where it is the first. */
  ghost predicate Adding(d: seq<nat>, carry: nat, i: nat) {
    && |d| == 4
    && d[0] < (if i == 0 then TWO_64 else 0x1_0000) && d[1] < 0x1_0000 && d[2] < 0x1_0000 && d[3] < 0x1_0000
    && carry < (if i == 0 then 1 else 0x1_0000_0000_0000)
  }

  lemma AddFirst(d: seq<nat>, n: nat)
    requires Limbs(d) && n < TWO_64
    ensures var d' := d[0 := (d[0] + n) % TWO_64];
            Adding(d', 0, 0) && Value(d') + Carried(0, 0) + (d[0] + n) / TWO_64 * TWO_64 == Value(d) + n
  {}

  /** One limb takes the carry without loss and passes on what is above its 16 bits. */
  lemma AddLimb(d: seq<nat>, carry: nat, i: nat)
    requires i < 4 && Adding(d, carry, i)
    ensures var x := d[i] + carry;
            && x < TWO_64
            && Adding(d[i := x % 0x1_0000], x / 0x1_0000, i + 1)
            && Value(d[i := x % 0x1_0000]) + Carried(x / 0x1_0000, i + 1) == Value(d) + Carried(carry, i)
  {
    if i == 0 {} else if i == 1 {} else if i == 2 {} else {}
  }

  lemma AddLast(d: seq<nat>, carry: nat, i: nat, lost: nat, total: nat)
    requires i <= 4 && Adding(d, carry, i) && i > 0 && (i < 4 ==> carry == 0)
    requires Value(d) + Carried(carry, i) + lost * TWO_64 == total
    ensures Limbs(d) && Value(d) == total % TWO_64
  {
    if i == 4 {
      Remainder(Value(d), lost + carry, total);
    } else {
      Remainder(Value(d), lost, total);
    }
  }

  class Hasher {
    var buffer: seq<bv8>
    const digits: array<nat>
    const h: array<bv64>
    /** Everything that was processed since the last initialization. */
    ghost var message: seq<bv8>

    ghost function Repr(): set<object> {
      {this, digits, h}
    }

    ghost predicate Apart() {
      digits.Length == 4 && h.Length == 8 && (digits as object) != h
    }

    ghost function Length(): nat
      reads digits
      requires digits.Length == 4
    {
      Value(digits[..])
    }

    /** The whole blocks of the message are hashed, the rest waits, and the limbs count all of it. */
    ghost predicate Valid()
      reads Repr()
    {
      && Apart() && Limbs(digits[..]) && Length() == |message| % TWO_64
      && |buffer| < 64 && Tracks(message, buffer, h[..])
    }

    constructor ()
      ensures Valid() && message == [] && fresh(Repr())
    {
      digits := new nat[4](_ => 0);
      h := new bv64[8];
      new;
      hide Holds, HashBlocks, Value, Limbs;
      Init();
    }

    method Init()
      requires Apart()
      modifies Repr()
      ensures Valid() && message == []
    {
      hide Wide, HashBlocks;
      buffer := [];
      message := [];
      for i := 0 to 4
        invariant forall k | 0 <= k < i :: digits[k] == 0
        invariant buffer == message == []
      {
        digits[i] := 0;
      }
      h[0], h[1], h[2], h[3] := Wide(InitialHash.a), Wide(InitialHash.b), Wide(InitialHash.c), Wide(InitialHash.d);
      h[4], h[5], h[6], h[7] := Wide(InitialHash.e), Wide(InitialHash.f), Wide(InitialHash.g), Wide(InitialHash.h);
      NothingHashed();
    }

    /** Takes more octets: the whole state afterwards is that of the longer message. */
    method Process(data: seq<bv8>)
      requires Valid() && |data| < TWO_64
      modifies Repr()
      ensures Valid() && message == old(message) + data
    {
      hide Tracks, Value, Limbs;
      AddToDataLength(|data|);
      LongerLength(|message|, |data|);
      ghost var counted := digits[..];
      MoreWaiting(message, buffer, h[..], data);
      buffer := buffer + data;
      message := message + data;
      var i: nat := 0;
      assert buffer[0..] == buffer;
      while i + 64 <= |buffer|
        invariant i <= |buffer| && Tracks(message, buffer[i..], h[..]) && digits[..] == counted
        modifies h
      {
        ghost var v := Tracked(message, buffer[i..], h[..]);
        ghost var hashed := h[..];
        assert buffer[i..][..64] == buffer[i..i + 64] && buffer[i..][64..] == buffer[i + 64..];
        HashBlock(h, buffer[i..i + 64], v);
        BlockDone(message, buffer[i..], hashed, h[..]);
        i := i + 64;
      }
      buffer := buffer[i..];
    }

    /** The padding: one or two more blocks, the length in the last one. */
    method Finish()
      requires Valid()
      modifies h
      ensures Holds(h[..], Hash(message))
    {
      hide Holds, HashBlocks, Value, Limbs, BigEndian, Hash, Compress;
      ghost var head := message[..|message| - |buffer|];
      ghost var v := HashBlocks(InitialHash, head);
      PaddedBlocks(message, head, buffer);
      var remains := |buffer|;
      var temp := new bv8[64](_ => 0);
      Copy(temp, buffer);
      temp[remains] := 0x80;
      if remains > 55 {
        Fill(temp, remains + 1, 64, 0);
        assert temp[..] == Opened(buffer, 64);
        HashBlock(h, temp[..], v);
        v := Compress(v, temp[..]);
        Fill(temp, 0, 60, 0);
        assert temp[..56] == Zeros(56);
      } else {
        Fill(temp, remains + 1, 60, 0);
        assert temp[..56] == Opened(buffer, 56);
      }
      WriteDataBitLength(temp, 56);
      assert temp[56..64] == temp[56..];
      BitsOfRemainder(|message|);
      assert temp[..] == temp[..56] + temp[56..];
      HashBlock(h, temp[..], v);
    }

    /** The octets of the digest, as many as there is room for. */
    method GetHashBytes(out: array<bv8>, ghost v: Words)
      requires h.Length == 8 && Holds(h[..], v)
      modifies out
      ensures forall k | 0 <= k < out.Length :: out[k] == if k < 32 then Digest(v)[k] else old(out[k])
    {
      hide Wide, OctetOf, OctetOf64, WordAt;
      var first: nat := 0;
      for j: nat := 0 to 8
        invariant first == if 4 * j < out.Length then 4 * j else out.Length
        invariant forall k | 0 <= k < out.Length :: out[k] == if k < first then Digest(v)[k] else old(out[k])
        modifies out
      {
        WordsHeld(h[..], v, j);
        var i: nat := 0;
        while i < 4 && first != out.Length
          invariant i <= 4 && first == if 4 * j + i < out.Length then 4 * j + i else out.Length
          invariant forall k | 0 <= k < out.Length :: out[k] == if k < first then Digest(v)[k] else old(out[k])
          modifies out
        {
          OctetHeld(WordAt(v, j), i);
          assert (4 * j + i) / 4 == j && (4 * j + i) % 4 == i;
          out[first] := OctetOf64(h[j], i);
          first := first + 1;
          i := i + 1;
        }
      }
    }

    /** Adds to the length limb by limb, modulo 2^64: neither a sum that wraps nor the last carry is lost. */
    method AddToDataLength(n: nat)
      requires digits.Length == 4 && Limbs(digits[..]) && n < TWO_64
      modifies digits
      ensures Limbs(digits[..]) && Length() == (old(Length()) + n) % TWO_64
    {
      hide Limbs, Adding, Value, Carried;
      var carry: nat := 0;
      ghost var total, lost: nat := Length() + n, (digits[0] + n) / TWO_64;
      AddFirst(digits[..], n);
      digits[0] := (digits[0] + n) % TWO_64;
      assert digits[..] == old(digits[..])[0 := digits[0]];
      var i: nat := 0;
      while i < 4
        invariant i <= 4 && Adding(digits[..], carry, i)
        invariant Value(digits[..]) + Carried(carry, i) + lost * TWO_64 == total
        decreases 4 - i
      {
        AddLimb(digits[..], carry, i);
        carry := TakeCarry(i, carry);
        if carry == 0 {
          AddLast(digits[..], 0, i + 1, lost, total);
          return;
        }
        i := i + 1;
      }
      AddLast(digits[..], carry, i, lost, total);
    }

    /** One limb takes a carry; what is above its 16 bits is the next one. */
    method TakeCarry(i: nat, carry: nat) returns (next: nat)
      requires digits.Length == 4 && i < 4 && digits[i] + carry < TWO_64
      modifies digits
      ensures var x := old(digits[i]) + carry;
              next == x / 0x1_0000 && digits[..] == old(digits[..])[i := x % 0x1_0000]
    {
      digits[i] := (digits[i] + carry) % TWO_64;
      if digits[i] >= 0x1_0000 {
        next := digits[i] / 0x1_0000;
        digits[i] := digits[i] % 0x1_0000;
      } else {
        next := 0;
      }
    }

    /** The length in bits, in eight octets. */
    method WriteDataBitLength(a: array<bv8>, begin: nat)
      requires digits.Length == 4 && Limbs(digits[..]) && begin + 8 <= a.Length
      modifies a
      ensures a[..begin] == old(a[..begin]) && a[begin + 8..] == old(a[begin + 8..])
      ensures a[begin..begin + 8] == BigEndian(8 * Length() % TWO_64, 8)
    {
      hide Value, Carried, BigEndian, Octet, Limbs, Arith.Or;
      var bits: seq<nat> := digits[..];
      ghost var start: seq<nat> := bits;
      var carry: nat := 0;
      BitsStart(start);
      for i := 0 to 4
        invariant |bits| == 4 && carry < 8 && a[..] == old(a[..])
        invariant Shifted(start, bits, carry, i)
      {
        ShiftLimb(start, bits, carry, i);
        var before := bits[i];
        bits := bits[i := Arith.Or(before * 8 % TWO_64, carry) % 0x1_0000];
        carry := before / 0x2000 % 0x1_0000;
      }
      AllShifted(start, bits, carry);
      BigEndianLimbs(bits);
      WriteLimb(a, begin, bits[3]);
      WriteLimb(a, begin + 2, bits[2]);
      WriteLimb(a, begin + 4, bits[1]);
      WriteLimb(a, begin + 6, bits[0]);
    }
  }

  /** The limbs below i are shifted to the left by three, and the carry is what went out of them. */
  ghost predicate Shifted(d: seq<nat>, bits: seq<nat>, carry: nat, i: nat) {
    && i <= 4 && carry < 8 && Limbs(d) && Limbs(bits)
    && d[i..] == bits[i..]
    && Value(bits) + Carried(carry, i) == Value(d) + 7 * Below(d, i)
  }

  /** What the limbs below i represent. */
  function Below(d: seq<nat>, i: nat): nat
    requires |d| == 4 && i <= 4
  {
    if i == 0 then 0 else if i == 1 then d[0] else if i == 2 then d[0] + 0x1_0000 * d[1]
    else if i == 3 then d[0] + 0x1_0000 * d[1] + 0x1_0000_0000 * d[2] else Value(d)
  }

  method WriteLimb(a: array<bv8>, begin: nat, limb: nat)
    requires begin + 2 <= a.Length
    modifies a
    ensures a[begin] == Octet(limb / 256) && a[begin + 1] == Octet(limb)
    ensures forall k | 0 <= k < a.Length && k != begin && k != begin + 1 :: a[k] == old(a[k])
  {
    a[begin], a[begin + 1] := Octet(limb / 256), Octet(limb);
  }

  method Copy(a: array<bv8>, s: seq<bv8>)
    requires |s| <= a.Length
    modifies a
    ensures a[..|s|] == s && a[|s|..] == old(a[|s|..])
  {
    for i := 0 to |s|
      invariant a[..i] == s[..i] && a[|s|..] == old(a[|s|..])
    {
      a[i] := s[i];
    }
  }

  method Fill(a: array<bv8>, lo: nat, hi: nat, x: bv8)
    requires lo <= hi <= a.Length
    modifies a
    ensures forall k | 0 <= k < a.Length :: a[k] == if lo <= k < hi then x else old(a[k])
  {
    for i := lo to hi
      invariant forall k | 0 <= k < a.Length :: a[k] == if lo <= k < i then x else old(a[k])
    {
      a[i] := x;
    }
  }

  lemma BitsStart(d: seq<nat>)
    requires Limbs(d)
    ensures Shifted(d, d, 0, 0)
  {}

  lemma ShiftLimb(d: seq<nat>, bits: seq<nat>, carry: nat, i: nat)
    requires i < 4 && Shifted(d, bits, carry, i)
    ensures var before := bits[i];
            && before / 0x2000 % 0x1_0000 < 8
            && Shifted(d, bits[i := Arith.Or(before * 8 % TWO_64, carry) % 0x1_0000],
                       before / 0x2000 % 0x1_0000, i + 1)
  {
    hide Arith.Or, Value, Below, Carried;
    var before := bits[i];
    assert before == d[i] < 0x1_0000;
    Arith.OrEightfold(before, carry);
    assert Arith.Or(before * 8 % TWO_64, carry) == 8 * before + carry;
    assert (8 * before + carry) / 0x1_0000 == before / 0x2000;
    ShiftedParts(d, bits, carry, i, (8 * before + carry) % 0x1_0000, before / 0x2000);
  }

  lemma ShiftedParts(d: seq<nat>, bits: seq<nat>, carry: nat, i: nat, x: nat, y: nat)
    requires i < 4 && Shifted(d, bits, carry, i) && y < 8 && x < 0x1_0000
    requires 8 * bits[i] + carry == x + 0x1_0000 * y
    ensures Shifted(d, bits[i := x], y, i + 1)
  {
    if i == 0 {} else if i == 1 {} else if i == 2 {} else {}
  }

  lemma AllShifted(d: seq<nat>, bits: seq<nat>, carry: nat)
    requires Shifted(d, bits, carry, 4)
    ensures Limbs(bits) && Value(bits) == 8 * Value(d) % TWO_64
  {
    Remainder(Value(bits), carry, 8 * Value(d));
  }

  lemma Remainder(x: nat, q: nat, total: nat)
    requires x < TWO_64 && x + q * TWO_64 == total
    ensures x == total % TWO_64
  {}

  lemma LongerLength(n: nat, k: nat)
    ensures (n % TWO_64 + k) % TWO_64 == (n + k) % TWO_64
  {
    Arith.ModShift(n % TWO_64 + k, n / TWO_64, TWO_64);
  }

  lemma BitsOfRemainder(n: nat)
    ensures 8 * (n % TWO_64) % TWO_64 == 8 * n % TWO_64
  {
    Arith.ModShift(8 * (n % TWO_64), 8 * (n / TWO_64), TWO_64);
  }

  /** The end of a message and the start of the padding, up to n octets. */
  function Opened(tail: seq<bv8>, n: nat): (s: seq<bv8>)
    requires |tail| < n
    ensures |s| == n
  {
    tail + [0x80] + Zeros(n - 1 - |tail|)
  }

  lemma PaddedParts(m: seq<bv8>, head: seq<bv8>, tail: seq<bv8>)
    requires m == head + tail && |head| % 64 == 0 && |tail| < 64
    ensures var length := BigEndian(BitLength(|m|), 8);
            && (|tail| <= 55 ==> Padded(m) == head + (Opened(tail, 56) + length))
            && (|tail| > 55 ==> Padded(m) == head + Opened(tail, 64) + (Zeros(56) + length))
  {
    hide BigEndian;
    Arith.ModShift(|tail|, |head| / 64, 64);
    if |tail| > 55 {
      assert Zeros(ZerosAfter(|m|)) == Zeros(63 - |tail|) + Zeros(56);
    }
  }

  /** The padded message is the hashed part and one or two blocks. */
  lemma PaddedBlocks(m: seq<bv8>, head: seq<bv8>, tail: seq<bv8>)
    requires m == head + tail && |head| % 64 == 0 && |tail| < 64
    ensures var v, length := HashBlocks(InitialHash, head), BigEndian(BitLength(|m|), 8);
            && (|tail| <= 55 ==> Hash(m) == Compress(v, Opened(tail, 56) + length))
            && (|tail| > 55 ==> Hash(m) == Compress(Compress(v, Opened(tail, 64)), Zeros(56) + length))
  {
    hide *;
    PaddedParts(m, head, tail);
    var length := BigEndian(BitLength(|m|), 8);
    if |tail| > 55 {
      HashOfTwo(m, head, Opened(tail, 64), Zeros(56) + length);
    } else {
      HashOfOne(m, head, Opened(tail, 56) + length);
    }
  }

  lemma HashOfOne(m: seq<bv8>, head: seq<bv8>, one: seq<bv8>)
    requires |head| % 64 == 0 && |one| == 64 && Padded(m) == head + one
    ensures Hash(m) == Compress(HashBlocks(InitialHash, head), one)
  {
    hide HashBlocks, Compress, Padded;
    OneMoreBlock(InitialHash, head, one);
  }

  lemma HashOfTwo(m: seq<bv8>, head: seq<bv8>, one: seq<bv8>, two: seq<bv8>)
    requires |head| % 64 == 0 && |one| == |two| == 64 && Padded(m) == head + one + two
    ensures Hash(m) == Compress(Compress(HashBlocks(InitialHash, head), one), two)
  {
    hide HashBlocks, Compress, Padded;
    Arith.ModShift(|head|, 1, 64);
    OneMoreBlock(InitialHash, head, one);
    OneMoreBlock(InitialHash, head + one, two);
  }

  lemma BigEndianLimb(x: nat, k: nat, d: nat, rest: nat)
    requires d < 0x1_0000 && x == d + 0x1_0000 * rest
    ensures BigEndian(x, k + 2) == BigEndian(rest, k) + [Octet(d / 256), Octet(d)]
  {
    assert x / 256 / 256 == rest && x % 256 == d % 256 && x / 256 % 256 == d / 256;
    assert BigEndian(x, k + 2) == BigEndian(x / 256, k + 1) + [Octet(x)];
    assert BigEndian(x / 256, k + 1) == BigEndian(rest, k) + [Octet(x / 256)];
  }

  lemma BigEndianLimbs(d: seq<nat>)
    requires Limbs(d)
    ensures BigEndian(Value(d), 8)
         == [Octet(d[3] / 256), Octet(d[3]), Octet(d[2] / 256), Octet(d[2]),
             Octet(d[1] / 256), Octet(d[1]), Octet(d[0] / 256), Octet(d[0])]
  {
    hide BigEndian, Octet;
    var x2 := d[2] + 0x1_0000 * d[3];
    var x1 := d[1] + 0x1_0000 * x2;
    BigEndianLimb(d[3], 0, d[3], 0);
    BigEndianLimb(x2, 2, d[2], d[3]);
    BigEndianLimb(x1, 4, d[1], x2);
    BigEndianLimb(Value(d), 6, d[0], x1);
    NoOctets(0);
  }

  lemma NoOctets(n: nat)
    ensures BigEndian(n, 0) == []
  {}

  // ----- the digest ------------------------------------------------------------------------------

  function WordAt(v: Words, j: nat): bv32
    requires j < 8
  {
    if j == 0 then v.a else if j == 1 then v.b else if j == 2 then v.c else if j == 3 then v.d
    else if j == 4 then v.e else if j == 5 then v.f else if j == 6 then v.g else v.h
  }

  /** The octet of a word that comes at place i, the most significant first. */
  function OctetOf(w: bv32, i: nat): bv8
    requires i < 4
  {
    if i == 0 then ((w >> 24) & 0xff) as bv8 else if i == 1 then ((w >> 16) & 0xff) as bv8
    else if i == 2 then ((w >> 8) & 0xff) as bv8 else (w & 0xff) as bv8
  }

  function OctetOf64(w: bv64, i: nat): bv8
    requires i < 4
  {
    if i == 0 then ((w >> 24) & 0xff) as bv8 else if i == 1 then ((w >> 16) & 0xff) as bv8
    else if i == 2 then ((w >> 8) & 0xff) as bv8 else (w & 0xff) as bv8
  }

  lemma OctetWide(w: bv32, i: nat)
    requires i < 4
    ensures OctetOf64(w as bv64, i) == OctetOf(w, i)
  {}

  lemma OctetHeld(w: bv32, i: nat)
    requires i < 4
    ensures OctetOf64(Wide(w), i) == OctetOf(w, i)
  {
    hide OctetOf64, OctetOf;
    OctetWide(w, i);
  }

  lemma WordsHeld(s: seq<bv64>, v: Words, j: nat)
    requires Holds(s, v) && j < 8
    ensures s[j] == Wide(WordAt(v, j))
  {
    hide Wide;
  }

  function Digest(v: Words): (s: seq<bv8>)
    ensures |s| == 32
  {
    seq(32, k requires 0 <= k < 32 => OctetOf(WordAt(v, k / 4), k % 4))
  }

  /** The octets of the digest read as words are the hash value. */
  lemma DigestReadsBack(v: Words, j: nat)
    requires j < 8
    ensures Word(Digest(v), 4 * j) == WordAt(v, j)
  {
    hide Join32, OctetOf;
    JoinOctets(WordAt(v, j));
    assert (4 * j + 1) / 4 == (4 * j + 2) / 4 == (4 * j + 3) / 4 == j;
    assert (4 * j + 1) % 4 == 1 && (4 * j + 2) % 4 == 2 && (4 * j + 3) % 4 == 3;
  }

  lemma JoinOctets(w: bv32)
    ensures Join32(OctetOf(w, 0), OctetOf(w, 1), OctetOf(w, 2), OctetOf(w, 3)) == w
  {}

  // ----- whole messages --------------------------------------------------------------------------

  function Joined(pieces: seq<seq<bv8>>): seq<bv8> {
    if pieces == [] then [] else Joined(pieces[..|pieces| - 1]) + pieces[|pieces| - 1]
  }

  /** However a message is cut into pieces, the digest is that of the whole. */
  method HashPieces(pieces: seq<seq<bv8>>) returns (digest: array<bv8>)
    requires forall k | 0 <= k < |pieces| :: |pieces[k]| < TWO_64
    ensures fresh(digest) && digest[..] == Digest(Hash(Joined(pieces)))
  {
    hide Hash, Digest;
    var hasher := new Hasher();
    for i := 0 to |pieces|
      invariant hasher.Valid() && hasher.message == Joined(pieces[..i]) && fresh(hasher.Repr())
    {
      assert pieces[..i + 1][..i] == pieces[..i];
      hasher.Process(pieces[i]);
    }
    assert pieces[..|pieces|] == pieces;
    hasher.Finish();
    digest := new bv8[32];
    hasher.GetHashBytes(digest, Hash(hasher.message));
  }

  /** Reads a stream through a buffer. */
  method HashStream(m: seq<bv8>, bufferSize: nat) returns (digest: array<bv8>)
    requires 0 < bufferSize < TWO_64
    ensures fresh(digest) && digest[..] == Digest(Hash(m))
  {
    hide Hash, Digest;
    var hasher := new Hasher();
    var first: nat := 0;
    while first != |m|
      invariant first <= |m| && hasher.Valid() && hasher.message == m[..first] && fresh(hasher.Repr())
      decreases |m| - first
    {
      var size := if |m| - first < bufferSize then |m| - first else bufferSize;
      hasher.Process(m[first..first + size]);
      first := first + size;
    }
    assert m[..|m|] == m;
    hasher.Finish();
    digest := new bv8[32];
    hasher.GetHashBytes(digest, Hash(hasher.message));
  }
}
