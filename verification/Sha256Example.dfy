/** Values of the functions of FIPS 180-4 at fixed words, among them those of its example "abc". */
module Sha256Example {
  import opened Sha256Block
  import opened Sha256

  /** Where the highest bit goes: to the three places that the rotations and the shift give. */
  lemma HighestBit()
    ensures BigSigma0(0x8000_0000) == 0x2004_0200 && BigSigma1(0x8000_0000) == 0x0210_0040
    ensures SmallSigma0(0x8000_0000) == 0x1100_2000 && SmallSigma1(0x8000_0000) == 0x0020_5000
  {}

  /** The tables of the choice and of the majority, in the eight lowest bits. */
  lemma ChoiceAndMajority()
    ensures Ch(0x0f, 0x33, 0x55) == 0x53 && Maj(0x0f, 0x33, 0x55) == 0x17
  {}

  /** A later word of the schedule is the sum of four: one bit in each of them. */
  lemma FourWordsBefore(block: seq<bv8>)
    requires |block| == 64
    requires Word(block, 0) == 0x1 && Word(block, 4) == 0x8000_0000
    requires Word(block, 36) == 0x10 && Word(block, 56) == 0x8000_0000
    ensures Schedule(block, 16) == 0x1120_7011
  {
    hide SmallSigma0, SmallSigma1, Word;
    HighestBit();
    assert Schedule(block, 0) == 0x1 && Schedule(block, 1) == 0x8000_0000;
    assert Schedule(block, 9) == 0x10 && Schedule(block, 14) == 0x8000_0000;
  }

  /** The first three rounds of the example. */
  lemma FirstRounds()
    ensures Round(InitialHash, K(0), 0x61626380)
         == Words(0x5d6aebcd, 0x6a09e667, 0xbb67ae85, 0x3c6ef372, 0xfa2a4622, 0x510e527f, 0x9b05688c, 0x1f83d9ab)
    ensures Round(Words(0x5d6aebcd, 0x6a09e667, 0xbb67ae85, 0x3c6ef372,
                        0xfa2a4622, 0x510e527f, 0x9b05688c, 0x1f83d9ab), K(1), 0)
         == Words(0x5a6ad9ad, 0x5d6aebcd, 0x6a09e667, 0xbb67ae85, 0x78ce7989, 0xfa2a4622, 0x510e527f, 0x9b05688c)
    ensures Round(Words(0x5a6ad9ad, 0x5d6aebcd, 0x6a09e667, 0xbb67ae85,
                        0x78ce7989, 0xfa2a4622, 0x510e527f, 0x9b05688c), K(2), 0)
         == Words(0xc8c347a7, 0x5a6ad9ad, 0x5d6aebcd, 0x6a09e667, 0xf92939eb, 0x78ce7989, 0xfa2a4622, 0x510e527f)
  {}

  // ----- the block of the example ----------------------------------------------------------------

  const ABC: seq<bv8> := [0x61, 0x62, 0x63]

  /** The message, a bit, zeros and the length of 24 bits. */
  lemma BlockOfExample()
    ensures var b := Padded(ABC);
            && |b| == 64 && b[..4] == [0x61, 0x62, 0x63, 0x80] && b[63] == 24
            && forall i | 4 <= i < 63 :: b[i] == 0
  {
    PaddedIs();
    LengthIs();
  }

  lemma PaddedIs()
    ensures Padded(ABC) == ABC + [0x80] + Zeros(52) + BigEndian(24, 8)
  {
    hide Zeros, BigEndian;
  }

  lemma LengthIs()
    ensures BigEndian(24, 8) == Zeros(7) + [24]
  {
    NothingIs(7);
    assert BigEndian(24, 8) == BigEndian(0, 7) + [Octet(24)];
  }

  lemma {:induction false} NothingIs(k: nat)
    ensures BigEndian(0, k) == Zeros(k)
  {
    if k > 0 {
      NothingIs(k - 1);
    }
  }
}
