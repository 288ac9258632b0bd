/** UTF-8 by its arithmetic, and the texts that the grammars of mailboxes and header fields take, written
    character by character. */
module Utf8 {
  import opened Mailbox

  // ----- code points -----------------------------------------------------------------------------

  /** What may be encoded in two octets or more: no surrogates. */
  predicate IsWide(cp: int) {
    0x80 <= cp < 0xD800 || 0xE000 <= cp < 0x110000
  }

  /** The octets of a code point: section 3 of RFC 3629. */
  function Encoded(cp: nat): (s: string)
    requires IsWide(cp)
    ensures 2 <= |s| <= 4
  {
    if cp < 0x800 then [(0xC0 + cp / 64) as char, (0x80 + cp % 64) as char]
    else if cp < 0x10000 then
      [(0xE0 + cp / 4096) as char, (0x80 + cp / 64 % 64) as char, (0x80 + cp % 64) as char]
    else
      [(0xF0 + cp / 262144) as char, (0x80 + cp / 4096 % 64) as char, (0x80 + cp / 64 % 64) as char,
       (0x80 + cp % 64) as char]
  }

  /** The code points that two, three and four octets stand for, whatever octets they are. */
  function Two(s: string): int
    requires |s| >= 2
  {
    (s[0] as int - 0xC0) * 64 + (s[1] as int - 0x80)
  }

  function Three(s: string): int
    requires |s| >= 3
  {
    ((s[0] as int - 0xE0) * 64 + (s[1] as int - 0x80)) * 64 + (s[2] as int - 0x80)
  }

  function Four(s: string): int
    requires |s| >= 4
  {
    (((s[0] as int - 0xF0) * 64 + (s[1] as int - 0x80)) * 64 + (s[2] as int - 0x80)) * 64 + (s[3] as int - 0x80)
  }

  lemma SixBits(hi: nat, lo: nat)
    requires lo < 64
    ensures (hi * 64 + lo) / 64 == hi && (hi * 64 + lo) % 64 == lo
  {}

  /** The grammar takes the encoding of each code point, whatever follows. */
  lemma EncodedIsTaken(cp: nat, t: string)
    requires IsWide(cp)
    ensures NonAscii(Encoded(cp) + t) == |Encoded(cp)|
  {
    hide NonAscii, Encoded;
    var s := Encoded(cp) + t;
    EncodedOctets(cp);
    assert forall i | 0 <= i < |Encoded(cp)| :: s[i] == Encoded(cp)[i];
    if cp < 0x800 {
      TakesTwo(s);
    } else if cp < 0x10000 {
      TakesThree(s);
    } else {
      TakesFour(s);
    }
  }

  lemma EncodedOctets(cp: nat)
    requires IsWide(cp)
    ensures var e := Encoded(cp);
            && (forall i | 1 <= i < |e| :: 0x80 <= e[i] as int < 0xC0)
            && (cp < 0x800 ==> |e| == 2 && 0xC0 <= e[0] as int && cp == Two(e))
            && (0x800 <= cp < 0x10000 ==> |e| == 3 && 0xE0 <= e[0] as int && cp == Three(e))
            && (0x10000 <= cp ==> |e| == 4 && 0xF0 <= e[0] as int && cp == Four(e))
  {
    var a, b := cp / 64, cp / 4096;
    assert b == a / 64 && cp / 262144 == b / 64;
  }

  lemma TakesTwo(s: string)
    requires |s| >= 2 && TailAt(s, 1) && 0xC0 <= s[0] as int && 0x80 <= Two(s) < 0x800
    ensures NonAscii(s) == 2
  {}

  lemma TakesThree(s: string)
    requires |s| >= 3 && TailAt(s, 1) && TailAt(s, 2) && 0xE0 <= s[0] as int
    requires 0x800 <= Three(s) < 0x10000 && IsWide(Three(s))
    ensures NonAscii(s) == 3
  {}

  lemma TakesFour(s: string)
    requires |s| >= 4 && TailAt(s, 1) && TailAt(s, 2) && TailAt(s, 3) && 0xF0 <= s[0] as int
    requires 0x10000 <= Four(s) < 0x110000
    ensures NonAscii(s) == 4
  {}

  /** And nothing else. */
  lemma TakenIsEncoded(s: string) returns (cp: nat)
    requires NonAscii(s) > 0
    ensures IsWide(cp) && s[..NonAscii(s)] == Encoded(cp)
  {
    hide Encoded, NonAscii;
    var n := NonAscii(s);
    TakenOctets(s);
    var a, b := s[0] as int, s[1] as int - 0x80;
    if n == 2 {
      cp := (a - 0xC0) * 64 + b;
      EncodedTwo(a - 0xC0, b);
      assert s[..2] == [s[0], s[1]];
    } else if n == 3 {
      var c := s[2] as int - 0x80;
      cp := ((a - 0xE0) * 64 + b) * 64 + c;
      EncodedThree(a - 0xE0, b, c);
      assert s[..3] == [s[0], s[1], s[2]];
    } else {
      var c, d := s[2] as int - 0x80, s[3] as int - 0x80;
      cp := (((a - 0xF0) * 64 + b) * 64 + c) * 64 + d;
      EncodedFour(a - 0xF0, b, c, d);
      assert s[..4] == [s[0], s[1], s[2], s[3]];
    }
  }

  lemma TakenOctets(s: string)
    requires NonAscii(s) > 0
    ensures var n := NonAscii(s);
            && 2 <= n <= 4 && n <= |s| && TailAt(s, 1)
            && (n >= 3 ==> TailAt(s, 2)) && (n == 4 ==> TailAt(s, 3))
            && (n == 2 ==> 0xC0 <= s[0] as int && 0x80 <= Two(s) < 0x800)
            && (n == 3 ==> 0xE0 <= s[0] as int && 0x800 <= Three(s) < 0x10000 && IsWide(Three(s)))
            && (n == 4 ==> 0xF0 <= s[0] as int && 0x10000 <= Four(s) < 0x110000)
  {}

  lemma EncodedTwo(a: nat, b: nat)
    requires b < 64 && 0x80 <= a * 64 + b < 0x800
    ensures Encoded(a * 64 + b) == [(0xC0 + a) as char, (0x80 + b) as char]
  {
    SixBits(a, b);
  }

  lemma EncodedThree(a: nat, b: nat, c: nat)
    requires b < 64 && c < 64 && 0x800 <= (a * 64 + b) * 64 + c < 0x10000 && IsWide((a * 64 + b) * 64 + c)
    ensures Encoded((a * 64 + b) * 64 + c) == [(0xE0 + a) as char, (0x80 + b) as char, (0x80 + c) as char]
  {
    var cp := (a * 64 + b) * 64 + c;
    SixBits(a * 64 + b, c);
    SixBits(a, b);
    assert cp / 4096 == cp / 64 / 64;
  }

  lemma EncodedFour(a: nat, b: nat, c: nat, d: nat)
    requires b < 64 && c < 64 && d < 64
    requires 0x10000 <= ((a * 64 + b) * 64 + c) * 64 + d < 0x110000
    ensures Encoded(((a * 64 + b) * 64 + c) * 64 + d)
         == [(0xF0 + a) as char, (0x80 + b) as char, (0x80 + c) as char, (0x80 + d) as char]
  {
    var cp := ((a * 64 + b) * 64 + c) * 64 + d;
    SixBits((a * 64 + b) * 64 + c, d);
    SixBits(a * 64 + b, c);
    SixBits(a, b);
    assert cp / 4096 == cp / 64 / 64 && cp / 262144 == cp / 64 / 64 / 64;
  }
}
