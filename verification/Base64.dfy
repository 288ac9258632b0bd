/** Base 64 with line breaks: an encoder that counts its lines and a decoder that skips them. */
module Base64 {
  import opened Options
  import Arith
  import Seqs

  type Octet = x: nat | x < 256
  type Sextet = x: nat | x < 64

  // ----- section 4 of RFC 4648 -------------------------------------------------------------------

  /** The alphabet. */
  function CharOf(v: Sextet): char {
    if v < 26 then (v + 65) as char
    else if v < 52 then (v + 71) as char
    else if v < 62 then (v - 4) as char
    else if v == 62 then '+'
    else '/'
  }

  /** Three octets as a number of 24 bits, and its four digits of six bits. */
  function Group(a: Octet, b: Octet, c: Octet): (s: string)
    ensures |s| == 4
  {
    var n := 0x1_0000 * a + 0x100 * b + c;
    [CharOf(n / 0x4_0000), CharOf(n / 0x1000 % 64), CharOf(n / 64 % 64), CharOf(n % 64)]
  }

  /** Octets in groups of three, with the padding at the end. */
  function Encoded(s: seq<Octet>): string {
    if |s| == 0 then ""
    else if |s| == 1 then Group(s[0], 0, 0)[..2] + "=="
    else if |s| == 2 then Group(s[0], s[1], 0)[..3] + "="
    else Group(s[0], s[1], s[2]) + Encoded(s[3..])
  }

  /** The digits are those of table 1 of RFC 4648, in its order. */
  lemma AlphabetIs(v: Sextet)
    ensures CharOf(0) == 'A' && CharOf(25) == 'Z' && CharOf(26) == 'a' && CharOf(51) == 'z'
    ensures CharOf(52) == '0' && CharOf(61) == '9' && CharOf(62) == '+' && CharOf(63) == '/'
    ensures v !in {25, 51, 61, 62, 63} ==> CharOf(v + 1) as int == CharOf(v) as int + 1
  {}

  /** Six bits at a time from the front; the bits of a last group are filled up with zeros, and its
      digits with the padding. */
  lemma SixBitsAtATime(a: Octet, b: Octet, c: Octet, rest: seq<Octet>)
    ensures Encoded([]) == ""
    ensures Encoded([a]) == [CharOf(a / 4), CharOf(a % 4 * 16), '=', '=']
    ensures Encoded([a, b]) == [CharOf(a / 4), CharOf(a % 4 * 16 + b / 16), CharOf(b % 16 * 4), '=']
    ensures Encoded([a, b, c] + rest)
         == [CharOf(a / 4), CharOf(a % 4 * 16 + b / 16), CharOf(b % 16 * 4 + c / 64), CharOf(c % 64)]
            + Encoded(rest)
  {
    hide CharOf;
    SplitOctets(a, 0, 0);
    SplitOctets(a, b, 0);
    SplitOctets(a, b, c);
    assert ([a, b, c] + rest)[3..] == rest;
  }

  function PaddedSize(n: nat): nat {
    (n + 2) / 3 * 4
  }

  lemma {:induction false} EncodedSize(s: seq<Octet>)
    ensures |Encoded(s)| == PaddedSize(|s|)
  {
    hide Group, PaddedSize;
    PaddedSizes(|s|);
    if |s| >= 3 {
      EncodedSize(s[3..]);
    }
  }

  lemma PaddedSizes(n: nat)
    ensures PaddedSize(n) == if n == 0 then 0 else if n < 3 then 4 else 4 + PaddedSize(n - 3)
  {}

  lemma {:induction false} EncodedAppend(s: seq<Octet>, t: seq<Octet>)
    requires |s| % 3 == 0
    ensures Encoded(s + t) == Encoded(s) + Encoded(t)
  {
    hide Encoded, Group;
    if s == [] {
      NothingEncoded();
      assert s + t == t;
    } else {
      var g, rest := s[..3], s[3..];
      assert s == g + rest;
      EncodedAppend(rest, t);
      EncodedStep(g, rest);
      EncodedStep(g, rest + t);
      Seqs.Assoc(g, rest, t);
      Seqs.Assoc(Group(g[0], g[1], g[2]), Encoded(rest), Encoded(t));
    }
  }

  lemma NothingEncoded()
    ensures Encoded([]) == ""
  {}

  lemma EncodedStep(g: seq<Octet>, rest: seq<Octet>)
    requires |g| == 3
    ensures Encoded(g + rest) == Group(g[0], g[1], g[2]) + Encoded(rest)
  {
    hide Group;
    assert (g + rest)[3..] == rest;
  }

  // ----- line breaks -----------------------------------------------------------------------------

  predicate IsBreak(c: char) {
    c == '\r' || c == '\n'
  }

  /** A text without its line breaks. */
  function Strip(s: string): string {
    if s == "" then "" else (if IsBreak(s[0]) then "" else [s[0]]) + Strip(s[1..])
  }

  lemma {:induction false} StripAppend(s: string, t: string)
    ensures Strip(s + t) == Strip(s) + Strip(t)
  {
    if s == "" {
      assert s + t == t;
    } else {
      assert (s + t)[0] == s[0] && (s + t)[1..] == s[1..] + t;
      StripAppend(s[1..], t);
    }
  }

  predicate NoBreaks(s: string) {
    forall i | 0 <= i < |s| :: !IsBreak(s[i])
  }

  lemma {:induction false} StripNothing(s: string)
    requires NoBreaks(s)
    ensures Strip(s) == s
  {
    if s != "" {
      StripNothing(s[1..]);
    }
  }

  /** How many lines the encoder breaks. */
  function Breaks(n: nat, wrap: nat): nat {
    if wrap == 0 then 0
    else if wrap % 4 == 0 then 4 * (n / 3) / wrap
    else if n % 3 == 0 || wrap / 4 != n / 3 then 0
    else if wrap == 1 then 3
    else 1
  }

  function TotalSize(n: nat, wrap: nat): nat {
    PaddedSize(n) + if wrap == 0 then 0 else PaddedSize(n) / wrap * 2
  }

  /** When the size that was computed first is that of the text. */
  predicate SizeForetold(n: nat, wrap: nat) {
    || wrap == 0
    || (wrap % 4 == 0 && (n % 3 == 0 || PaddedSize(n) % wrap != 0))
    || (wrap % 4 != 0 && (PaddedSize(n) < wrap || (n % 3 != 0 && wrap / 4 == n / 3 && wrap >= 3)))
  }

  lemma SizeForetoldIff(n: nat, wrap: nat)
    ensures PaddedSize(n) + 2 * Breaks(n, wrap) == TotalSize(n, wrap) <==> SizeForetold(n, wrap)
  {
    if wrap > 0 && wrap % 4 == 0 {
      LinesOfGroups(n, wrap);
    } else if wrap > 0 {
      OtherLines(n, wrap);
    }
  }

  lemma LinesOfGroups(n: nat, wrap: nat)
    requires wrap > 0 && wrap % 4 == 0
    ensures PaddedSize(n) + 2 * Breaks(n, wrap) == TotalSize(n, wrap) <==> SizeForetold(n, wrap)
  {
    var q := n / 3;
    assert PaddedSize(n) == if n % 3 == 0 then 4 * q else 4 * q + 4;
    hide PaddedSize;
    if n % 3 != 0 {
      NextMultiple(4 * q, wrap);
    }
  }

  lemma OtherLines(n: nat, wrap: nat)
    requires wrap % 4 != 0
    ensures PaddedSize(n) + 2 * Breaks(n, wrap) == TotalSize(n, wrap) <==> SizeForetold(n, wrap)
  {
    var q, p := n / 3, PaddedSize(n);
    assert p == if n % 3 == 0 then 4 * q else 4 * q + 4;
    assert wrap == 4 * (wrap / 4) + wrap % 4;
    hide PaddedSize;
    if p < wrap {
      Quotient(p, wrap, 0);
    } else if n % 3 != 0 && wrap / 4 == q && wrap >= 3 {
      Quotient(p, wrap, 1);
    } else if wrap <= 2 && q == 0 {
      assert wrap == 1 ==> p / wrap == p;
    } else {
      AtLeastOne(p, wrap);
    }
  }

  /** One octet in lines of four: the break that was counted after the padding is not made. */
  lemma FullPaddedLine()
    ensures !SizeForetold(1, 4) && TotalSize(1, 4) == 6 && PaddedSize(1) + 2 * Breaks(1, 4) == 4
  {}

  lemma Quotient(p: nat, w: nat, k: nat)
    requires w > 0 && k <= 1 && k * w <= p < (k + 1) * w
    ensures p / w == k
  {}

  lemma AtLeastOne(p: nat, w: nat)
    requires 0 < w <= p
    ensures p / w >= 1
  {}

  /** Four more than a multiple of four reaches one more multiple of w exactly when it is one. */
  lemma NextMultiple(x: nat, w: nat)
    requires w > 0 && w % 4 == 0 && x % 4 == 0
    ensures (x + 4) / w == x / w <==> (x + 4) % w != 0
  {
    var d, r := DivMod(x, w);
    NextMultipleAt(x, w, d, r);
  }

  lemma DivMod(x: nat, w: nat) returns (d: nat, r: nat)
    requires w > 0
    ensures x == d * w + r && r < w && x / w == d
  {
    d, r := x / w, x % w;
  }

  lemma NextMultipleAt(x: nat, w: nat, d: nat, r: nat)
    requires w > 0 && w % 4 == 0 && x % 4 == 0 && x == d * w + r && r < w
    ensures (x + 4) / w == d <==> (x + 4) % w != 0
  {
    MultipleOfFour(d, w);
    RestOfFours(x, d * w, r, w);
    if r + 4 < w {
      DivIs(x + 4, w, d, r + 4);
    } else {
      OneMore(d, w);
      DivIs(x + 4, w, d + 1, 0);
    }
  }

  lemma RestOfFours(x: nat, m: nat, r: nat, w: nat)
    requires x == m + r && x % 4 == 0 && m % 4 == 0 && w % 4 == 0 && r < w
    ensures r + 4 <= w
  {}

  lemma OneMore(d: nat, w: nat)
    ensures (d + 1) * w == d * w + w
  {}

  lemma MultipleOfFour(d: nat, w: nat)
    requires w % 4 == 0
    ensures d * w % 4 == 0
  {
    var k := w / 4;
    assert d * w == 4 * (d * k);
  }

  lemma DivIs(x: nat, w: nat, d: nat, r: nat)
    requires w > 0 && r < w && x == d * w + r
    ensures x / w == d && x % w == r
  {
    Arith.DivModUnique(x, w, d, r);
  }

  // ----- the encoder -----------------------------------------------------------------------------

  /** The four digits of three octets, cut out octet by octet. */
  method SplitGroup(group8: array<Octet>, group6: array<Sextet>)
    requires group8.Length == 3 && group6.Length == 4
    modifies group6
    ensures group8[..] == old(group8[..])
    ensures [CharOf(group6[0]), CharOf(group6[1]), CharOf(group6[2]), CharOf(group6[3])]
         == Group(group8[0], group8[1], group8[2])
  {
    hide CharOf;
    SplitOctets(group8[0], group8[1], group8[2]);
    group6[0] := group8[0] / 4;
    group6[1] := group8[0] % 4 * 16 + group8[1] / 16;
    group6[2] := group8[1] % 16 * 4 + group8[2] / 64;
    group6[3] := group8[2] % 64;
  }

  lemma SplitOctets(a: Octet, b: Octet, c: Octet)
    ensures var n := 0x1_0000 * a + 0x100 * b + c;
            && n / 0x4_0000 == a / 4 && n / 0x1000 % 64 == a % 4 * 16 + b / 16
            && n / 64 % 64 == b % 16 * 4 + c / 64 && n % 64 == c % 64
  {
    SixBitDigits(0x1_0000 * a + 0x100 * b + c, a / 4, a % 4 * 16 + b / 16, b % 16 * 4 + c / 64, c % 64);
  }

  lemma SixBitDigits(n: nat, w: nat, x: nat, y: nat, z: nat)
    requires n == 0x4_0000 * w + 0x1000 * x + 64 * y + z && w < 64 && x < 64 && y < 64 && z < 64
    ensures n / 0x4_0000 == w && n / 0x1000 % 64 == x && n / 64 % 64 == y && n % 64 == z
  {
    assert n / 0x1000 == 64 * w + x && n / 64 == 0x1000 * w + 64 * x + y;
  }

  /** A text whose first lines, as many as given, are ended after width characters each. */
  function Broken(s: string, width: nat, breaks: nat): string {
    if breaks == 0 || |s| < width then s else s[..width] + "\r\n" + Broken(s[width..], width, breaks - 1)
  }

  /** The text has room for that many lines, and so many characters are left behind them. */
  predicate Leaves(s: string, width: nat, breaks: nat, left: nat) {
    if breaks == 0 then |s| == left else width <= |s| && Leaves(s[width..], width, breaks - 1, left)
  }

  lemma {:induction false} BrokenAppend(s: string, t: string, width: nat, breaks: nat, left: nat)
    requires Leaves(s, width, breaks, left)
    ensures Broken(s + t, width, breaks) == Broken(s, width, breaks) + t
    ensures Leaves(s + t, width, breaks, left + |t|)
    decreases breaks
  {
    if breaks > 0 {
      assert (s + t)[..width] == s[..width] && (s + t)[width..] == s[width..] + t;
      BrokenAppend(s[width..], t, width, breaks - 1, left);
      Seqs.Assoc(s[..width] + "\r\n", Broken(s[width..], width, breaks - 1), t);
    }
  }

  lemma {:induction false} BreakOnce(s: string, width: nat, breaks: nat)
    requires Leaves(s, width, breaks, width)
    ensures Broken(s, width, breaks + 1) == Broken(s, width, breaks) + "\r\n"
    ensures Leaves(s, width, breaks + 1, 0)
    decreases breaks
  {
    if breaks > 0 {
      BreakOnce(s[width..], width, breaks - 1);
      Seqs.Assoc(s[..width] + "\r\n", Broken(s[width..], width, breaks - 1), "\r\n");
    } else {
      assert s[..width] == s && s[width..] == "";
      assert Broken("", width, 0) == "";
    }
  }

  /** The line breaks are all that is added. */
  lemma {:induction false} BrokenStrips(s: string, width: nat, breaks: nat, left: nat)
    requires NoBreaks(s) && Leaves(s, width, breaks, left)
    ensures Strip(Broken(s, width, breaks)) == s && |Broken(s, width, breaks)| == |s| + 2 * breaks
    decreases breaks
  {
    hide Strip;
    if breaks == 0 {
      StripNothing(s);
    } else {
      BrokenStrips(s[width..], width, breaks - 1, left);
      StripNothing(s[..width]);
      StripAppend(s[..width] + "\r\n", Broken(s[width..], width, breaks - 1));
      StripAppend(s[..width], "\r\n");
      BreakStrips();
      assert s == s[..width] + s[width..];
    }
  }

  lemma {:induction false} EncodedHasNoBreaks(s: seq<Octet>)
    ensures NoBreaks(Encoded(s))
  {
    hide Group;
    if |s| >= 3 {
      EncodedHasNoBreaks(s[3..]);
      GroupHasNoBreaks(s[0], s[1], s[2]);
    } else if |s| > 0 {
      GroupHasNoBreaks(s[0], if |s| == 2 then s[1] else 0, 0);
    }
  }

  /** The text after some octets is their encoding with so many lines ended and so much on the last. */
  ghost predicate TextIs(text: string, wrap: nat, breaks: nat, lineLen: nat, encoded: string) {
    text == Broken(encoded, wrap, breaks) && Leaves(encoded, wrap, breaks, lineLen)
  }

  /** The length of the line after n octets of which all are in full groups. */
  ghost predicate LineIs(lineLen: nat, breaks: nat, n: nat, wrap: nat) {
    && n % 3 == 0
    && (wrap == 0 || wrap % 4 != 0 ==> breaks == 0 && lineLen == 4 * (n / 3))
    && (wrap > 0 && wrap % 4 == 0 ==> lineLen < wrap && lineLen % 4 == 0 && breaks * wrap + lineLen == 4 * (n / 3))
  }

  lemma Start(wrap: nat)
    ensures TextIs("", wrap, 0, 0, Encoded([])) && LineIs(0, 0, 0, wrap)
  {}

  lemma GroupHasNoBreaks(a: Octet, b: Octet, c: Octet)
    ensures NoBreaks(Group(a, b, c))
  {}

  lemma OneGroup(a: Octet, b: Octet, c: Octet)
    ensures Encoded([a, b, c]) == Group(a, b, c)
  {
    assert [a, b, c][3..] == [];
  }

  lemma GroupWritten(text: string, wrap: nat, breaks: nat, lineLen: nat, s: seq<Octet>, g: seq<Octet>)
    requires TextIs(text, wrap, breaks, lineLen, Encoded(s)) && |s| % 3 == 0 && |g| == 3
    ensures TextIs(text + Group(g[0], g[1], g[2]), wrap, breaks, lineLen + 4, Encoded(s + g))
  {
    hide Group, Encoded, Broken, Leaves;
    EncodedAppend(s, g);
    OneGroup(g[0], g[1], g[2]);
    assert g == [g[0], g[1], g[2]];
    BrokenAppend(Encoded(s), Encoded(g), wrap, breaks, lineLen);
  }

  lemma BreakWritten(text: string, wrap: nat, breaks: nat, encoded: string)
    requires TextIs(text, wrap, breaks, wrap, encoded)
    ensures TextIs(text + "\r\n", wrap, breaks + 1, 0, encoded)
  {
    hide Broken, Leaves;
    BreakOnce(encoded, wrap, breaks);
  }

  lemma CharWritten(text: string, wrap: nat, breaks: nat, lineLen: nat, encoded: string, c: char)
    requires TextIs(text, wrap, breaks, lineLen, encoded)
    ensures TextIs(text + [c], wrap, breaks, lineLen + 1, encoded + [c])
  {
    hide Broken, Leaves;
    BrokenAppend(encoded, [c], wrap, breaks, lineLen);
  }

  /** The line after one more group: it is broken when it is full, which only lines of whole groups are. */
  lemma LineAfterGroup(lineLen: nat, breaks: nat, n: nat, wrap: nat)
    requires LineIs(lineLen, breaks, n, wrap)
    ensures wrap > 0 && lineLen + 4 == wrap && wrap % 4 == 0 ==> LineIs(0, breaks + 1, n + 3, wrap)
    ensures wrap == 0 || lineLen + 4 != wrap ==> LineIs(lineLen + 4, breaks, n + 3, wrap)
    ensures wrap % 4 != 0 ==> lineLen + 4 != wrap
    ensures n % 3 == 0
  {
    GroupsPlusOne(n);
    OneMore(breaks, wrap);
  }

  lemma BreakStrips()
    ensures Strip("\r\n") == ""
  {
    assert "\r\n"[1..] == "\n" && "\n"[1..] == "";
  }

  lemma GroupsPlusOne(n: nat)
    requires n % 3 == 0
    ensures (n + 3) / 3 == n / 3 + 1 && (n + 3) % 3 == 0
  {}

  /** How many lines are broken when k more characters come one by one. */
  function TailBreaks(lineLen: nat, wrap: nat, k: nat): nat
    decreases k
  {
    if k == 0 then 0
    else if wrap > 0 && lineLen == wrap then 1 + TailBreaks(1, wrap, k - 1)
    else TailBreaks(lineLen + 1, wrap, k - 1)
  }

  lemma AllBreaks(lineLen: nat, breaks: nat, n: nat, wrap: nat)
    requires LineIs(lineLen, breaks, n - n % 3, wrap)
    ensures breaks + (if n % 3 == 0 then 0 else TailBreaks(lineLen, wrap, 4)) == Breaks(n, wrap)
  {
    var q := n / 3;
    assert n - n % 3 == 3 * q;
    if wrap > 0 && wrap % 4 == 0 {
      DivIs(4 * q, wrap, breaks, lineLen);
      assert lineLen + 4 <= wrap;
    }
    FourMore(lineLen, wrap);
  }

  lemma FourMore(l: nat, wrap: nat)
    ensures wrap == 0 || l + 4 <= wrap || l > wrap ==> TailBreaks(l, wrap, 4) == 0
    ensures 4 <= l < wrap < l + 4 ==> TailBreaks(l, wrap, 4) == 1
    ensures l == 0 && wrap == 1 ==> TailBreaks(l, wrap, 4) == 3
    ensures l == 0 && 1 < wrap < 4 ==> TailBreaks(l, wrap, 4) == 1
  {
    var _ := TailBreaks(l + 1, wrap, 3);
    var _ := TailBreaks(l + 2, wrap, 2);
    var _ := TailBreaks(l + 3, wrap, 1);
    var _ := TailBreaks(1, wrap, 3);
    var _ := TailBreaks(1, wrap, 2);
    var _ := TailBreaks(1, wrap, 1);
    var _ := TailBreaks(2, wrap, 2);
    var _ := TailBreaks(2, wrap, 1);
    var _ := TailBreaks(3, wrap, 1);
  }

  /** The encoder.  The text it makes is the encoding with the first lines broken at the width, and so it
      is the encoding but for line breaks; the CHECK at its end holds exactly when the size was foretold. */
  method Enc(text: seq<Octet>, wrap: nat) returns (encText: string, checked: bool)
    ensures encText == Broken(Encoded(text), wrap, Breaks(|text|, wrap)) && Strip(encText) == Encoded(text)
    ensures checked <==> SizeForetold(|text|, wrap)
  {
    hide Encoded, Group, Strip, Broken, LineIs, TailBreaks, Breaks, SizeForetold, PaddedSize, TextIs, CharOf,
      TotalSize;
    var group8, group6 := new Octet[3](_ => 0), new Sextet[4](_ => 0);
    var count: nat, lineLen: nat := 0, 0;
    ghost var breaks: nat, whole: nat := 0, 0;
    encText := "";
    Start(wrap);
    assert group8[..0] == text[0..0] && text[..0] == [];
    for ch: nat := 0 to |text|
      invariant count < 3 && whole + count == ch && group8[..count] == text[whole..ch]
      invariant TextIs(encText, wrap, breaks, lineLen, Encoded(text[..whole])) && LineIs(lineLen, breaks, whole, wrap)
      invariant wrap > 0 ==> lineLen != wrap
    {
      ghost var before := group8[..count];
      group8[count] := text[ch];
      count := count + 1;
      Seqs.NextElement(text, whole, ch);
      assert group8[..count] == before + [text[ch]];
      if count == 3 {
        Seqs.PrefixThen(text, whole, ch + 1);
        LineAfterGroup(lineLen, breaks, whole, wrap);
        encText := EncGroup(group8, group6, encText, wrap, breaks, lineLen, text[..whole], text[whole..ch + 1]);
        count := 0;
        lineLen := lineLen + 4;
        whole := ch + 1;
      }
      if wrap > 0 && lineLen == wrap {
        BreakWritten(encText, wrap, breaks, Encoded(text[..whole]));
        encText := encText + "\r\n";
        lineLen := 0;
        breaks := breaks + 1;
      }
    }
    var n := |text|;
    LastGroup(lineLen, breaks, whole, wrap, count);
    AllBreaks(lineLen, breaks, n, wrap);
    assert text[whole..n] == text[whole..];
    ghost var left := lineLen;
    if count > 0 {
      encText, breaks, left := EncTail(group8, group6, count, encText, lineLen, wrap, breaks, text);
    } else {
      assert text[..n] == text;
    }
    Checked(encText, breaks, left, text, wrap);
    checked := |encText| == TotalSize(n, wrap);
  }

  lemma LastGroup(lineLen: nat, breaks: nat, whole: nat, wrap: nat, count: nat)
    requires LineIs(lineLen, breaks, whole, wrap) && count < 3
    ensures (whole + count) % 3 == count
  {}

  /** Writes the characters of one full group. */
  method EncGroup(group8: array<Octet>, group6: array<Sextet>, start: string, ghost wrap: nat, ghost breaks: nat,
                  ghost lineLen: nat, ghost s: seq<Octet>, ghost g: seq<Octet>)
      returns (encText: string)
    requires group8.Length == 3 && group6.Length == 4 && group8[..3] == g && |s| % 3 == 0
    requires TextIs(start, wrap, breaks, lineLen, Encoded(s))
    modifies group6
    ensures TextIs(encText, wrap, breaks, lineLen + 4, Encoded(s + g)) && group8[..] == old(group8[..])
  {
    hide Encoded, Group, TextIs, CharOf;
    assert g[0] == group8[0] && g[1] == group8[1] && g[2] == group8[2];
    SplitGroup(group8, group6);
    GroupWritten(start, wrap, breaks, lineLen, s, g);
    ghost var group := Group(g[0], g[1], g[2]);
    encText := start;
    for i: nat := 0 to 4
      invariant [CharOf(group6[0]), CharOf(group6[1]), CharOf(group6[2]), CharOf(group6[3])] == group
      invariant encText == start + group[..i] && group8[..] == old(group8[..])
    {
      assert group[i] == CharOf(group6[i]) && group[..i + 1] == group[..i] + [group[i]];
      Seqs.Assoc(start, group[..i], [group[i]]);
      encText := encText + [CharOf(group6[i])];
    }
    assert group[..4] == group;
  }

  lemma Checked(encText: string, breaks: nat, left: nat, text: seq<Octet>, wrap: nat)
    requires TextIs(encText, wrap, breaks, left, Encoded(text)) && breaks == Breaks(|text|, wrap)
    ensures encText == Broken(Encoded(text), wrap, Breaks(|text|, wrap)) && Strip(encText) == Encoded(text)
    ensures |encText| == TotalSize(|text|, wrap) <==> SizeForetold(|text|, wrap)
  {
    hide Encoded, Breaks, SizeForetold, PaddedSize, TotalSize, Broken, Leaves, Strip;
    EncodedSize(text);
    EncodedHasNoBreaks(text);
    BrokenStrips(Encoded(text), wrap, breaks, left);
    SizeForetoldIff(|text|, wrap);
  }

  /** The remaining octets, filled up with zeros, and the padding; a line may be broken before each
      character. */
  method EncTail(group8: array<Octet>, group6: array<Sextet>, count: nat, start: string, lineLen: nat, wrap: nat,
                 ghost breaks: nat, ghost text: seq<Octet>)
      returns (encText: string, ghost all: nat, ghost left: nat)
    requires group8.Length == 3 && group6.Length == 4 && 1 <= count <= 2 && |text| % 3 == count
    requires group8[..count] == text[|text| - count..]
    requires TextIs(start, wrap, breaks, lineLen, Encoded(text[..|text| - count]))
    modifies group8, group6
    ensures TextIs(encText, wrap, all, left, Encoded(text)) && all == breaks + TailBreaks(lineLen, wrap, 4)
  {
    hide Encoded, Strip, TextIs, Group, CharOf, TailBreaks;
    for i := count to 3
      invariant group8[..count] == old(group8[..count])
      invariant forall k | count <= k < i :: group8[k] == 0
    {
      group8[i] := 0;
    }
    SplitGroup(group8, group6);
    ghost var s, g := text[..|text| - count], text[|text| - count..];
    ghost var tail, group := Encoded(g), Group(group8[0], group8[1], group8[2]);
    TailIs(s, g, group);
    assert text == s + g;
    encText := start;
    all := breaks;
    var len := lineLen;
    NothingYet(start, wrap, breaks, lineLen, Encoded(s), tail);
    for i: nat := 0 to 4
      invariant TextIs(encText, wrap, all, len, Encoded(s) + tail[..i])
      invariant forall k | 0 <= k < 4 :: CharOf(group6[k]) == group[k]
      invariant all + TailBreaks(len, wrap, 4 - i) == breaks + TailBreaks(lineLen, wrap, 4)
    {
      var c := if i < count + 1 then CharOf(group6[i]) else '=';
      assert tail[..i + 1] == tail[..i] + [c];
      Seqs.Assoc(Encoded(s), tail[..i], [c]);
      TailBreaksStep(len, wrap, 4 - i);
      encText, len, all := PutChar(encText, len, wrap, c, all, Encoded(s) + tail[..i]);
    }
    assert tail[..4] == tail;
    left := len;
    NoTail(len, wrap);
  }

  /** One character of the tail, on a new line when the line is full. */
  method PutChar(start: string, lineLen: nat, wrap: nat, c: char, ghost breaks: nat, ghost encoded: string)
      returns (encText: string, len: nat, ghost all: nat)
    requires TextIs(start, wrap, breaks, lineLen, encoded)
    ensures TextIs(encText, wrap, all, len, encoded + [c])
    ensures if wrap > 0 && lineLen == wrap then len == 1 && all == breaks + 1 else len == lineLen + 1 && all == breaks
  {
    hide TextIs;
    encText, len, all := start, lineLen, breaks;
    if wrap > 0 && len == wrap {
      BreakWritten(encText, wrap, all, encoded);
      encText := encText + "\r\n";
      all := all + 1;
      len := 0;
    }
    CharWritten(encText, wrap, all, len, encoded, c);
    encText := encText + [c];
    len := len + 1;
  }

  lemma NoTail(lineLen: nat, wrap: nat)
    ensures TailBreaks(lineLen, wrap, 0) == 0
  {}

  lemma TailBreaksStep(lineLen: nat, wrap: nat, k: nat)
    requires k > 0
    ensures TailBreaks(lineLen, wrap, k)
         == if wrap > 0 && lineLen == wrap then 1 + TailBreaks(1, wrap, k - 1)
            else TailBreaks(lineLen + 1, wrap, k - 1)
  {}

  lemma NothingYet(start: string, wrap: nat, breaks: nat, lineLen: nat, encoded: string, tail: string)
    requires TextIs(start, wrap, breaks, lineLen, encoded)
    ensures TextIs(start, wrap, breaks, lineLen, encoded + tail[..0])
  {
    assert encoded + tail[..0] == encoded;
  }

  lemma TailIs(s: seq<Octet>, g: seq<Octet>, group: string)
    requires |s| % 3 == 0 && 1 <= |g| <= 2 && group == Group(g[0], if |g| == 2 then g[1] else 0, 0)
    ensures Encoded(s + g) == Encoded(s) + Encoded(g) && |Encoded(g)| == 4
    ensures forall i | 0 <= i < 4 :: Encoded(g)[i] == if i < |g| + 1 then group[i] else '='
  {
    EncodedAppend(s, g);
  }

  // ----- the decoder -----------------------------------------------------------------------------

  /** The place of a character in the array of the alphabet, which a zero octet ends. */
  function Find(c: char): nat {
    if 'A' <= c <= 'Z' then c as int - 65
    else if 'a' <= c <= 'z' then c as int - 71
    else if '0' <= c <= '9' then c as int + 4
    else if c == '+' then 62
    else if c == '/' then 63
    else if c == '\0' then 64
    else 65
  }

  predicate IsBase64Char(c: char) {
    'A' <= c <= 'Z' || 'a' <= c <= 'z' || '0' <= c <= '9' || c == '+' || c == '/'
  }

  /** The octets of four digits; what does not fit in an octet is cut off. */
  function Ungroup(a: nat, b: nat, c: nat, d: nat): (s: seq<Octet>)
    ensures |s| == 3
  {
    [(a * 4 + b / 16 % 4) % 256, (b % 16 * 16 + c / 4 % 16) % 256, (c % 4 * 64 + d) % 256]
  }

  function Prepend(c: char, rest: Option<string>): Option<string> {
    if rest.None? then None else Some([c] + rest.value)
  }

  /** The digits up to the padding, or nothing when there is a bad character before it. */
  function Digits(text: string): Option<string> {
    if text == "" || text[0] == '=' then Some("")
    else if IsBreak(text[0]) then Digits(text[1..])
    else if !IsBase64Char(text[0]) then None
    else Prepend(text[0], Digits(text[1..]))
  }

  /** The octets of digits, four by four; a rest is filled up with zero octets. */
  function FromDigits(v: string): seq<Octet> {
    if |v| == 0 then []
    else if |v| < 4 then
      Ungroup(Find(v[0]), if |v| > 1 then Find(v[1]) else 64, if |v| > 2 then Find(v[2]) else 64, 64)[..|v| - 1]
    else Ungroup(Find(v[0]), Find(v[1]), Find(v[2]), Find(v[3])) + FromDigits(v[4..])
  }

  function Decoded(text: string): Option<seq<Octet>> {
    var v := Digits(text);
    if v.None? then None else Some(FromDigits(v.value))
  }

  lemma {:induction false} FromDigitsAppend(v: string, w: string)
    requires |v| % 4 == 0
    ensures FromDigits(v + w) == FromDigits(v) + FromDigits(w)
  {
    hide Ungroup, Find, FromDigits;
    if v == "" {
      NoDigits();
      assert v + w == w;
    } else {
      var g, rest := v[..4], v[4..];
      assert v == g + rest;
      FromDigitsAppend(rest, w);
      FromDigitsStep(g, rest);
      FromDigitsStep(g, rest + w);
      Seqs.Assoc(g, rest, w);
      Seqs.Assoc(Ungroup(Find(g[0]), Find(g[1]), Find(g[2]), Find(g[3])), FromDigits(rest), FromDigits(w));
    }
  }

  lemma NoDigits()
    ensures FromDigits("") == []
  {}

  lemma FromDigitsStep(g: string, rest: string)
    requires |g| == 4
    ensures FromDigits(g + rest) == Ungroup(Find(g[0]), Find(g[1]), Find(g[2]), Find(g[3])) + FromDigits(rest)
  {
    hide Ungroup, Find;
    assert (g + rest)[4..] == rest;
  }

  /** The decoder; None stands for the exception. */
  method Dec(text: string) returns (decText: Option<seq<Octet>>)
    ensures decText == Decoded(text)
  {
    hide FromDigits, IsBase64Char, IsBreak, Ungroup, Prepend, PrependAll, Digits, Find;
    var octets: seq<Octet> := [];
    var group6 := new char[4](_ => '\0');
    var count: nat, ch: nat := 0, 0;
    ghost var head, pending := "", "";
    DecStart(text);
    while ch < |text| && text[ch] != '='
      invariant ch <= |text| && count == |pending| < 4 && |head| % 4 == 0
      invariant group6[..count] == pending && octets == FromDigits(head)
      invariant Digits(text) == PrependAll(head + pending, Digits(text[ch..]))
      decreases |text| - ch
    {
      NextDigit(text, ch, head + pending);
      if IsBreak(text[ch]) {
        ch := ch + 1;
        continue;
      }
      if !IsBase64Char(text[ch]) {
        return None;
      }
      Seqs.Assoc(head, pending, [text[ch]]);
      group6[count] := text[ch];
      count := count + 1;
      pending := pending + [text[ch]];
      assert group6[..count] == pending;
      if count == 4 {
        OneGroupRead(head, pending);
        octets := octets + Ungroup(Find(group6[0]), Find(group6[1]), Find(group6[2]), Find(group6[3]));
        count := 0;
        head, pending := head + pending, "";
      }
      ch := ch + 1;
    }
    DigitsEnd(text[ch..]);
    DecEnd(head + pending);
    if count > 0 {
      RestRead(head, pending);
      var rest := DecTail(group6, count, pending);
      octets := octets + rest;
    } else {
      assert head + pending == head;
    }
    return Some(octets);
  }

  /** The digits that do not make up four, filled up with zero octets. */
  method DecTail(group6: array<char>, count: nat, ghost g: string) returns (rest: seq<Octet>)
    requires group6.Length == 4 && 0 < count < 4 && group6[..count] == g
    modifies group6
    ensures rest == Ungroup(Find(g[0]), if |g| > 1 then Find(g[1]) else 64,
                            if |g| > 2 then Find(g[2]) else 64, 64)[..|g| - 1]
  {
    hide Ungroup;
    for i: nat := count to 4
      invariant group6[..count] == g
      invariant forall k | count <= k < i :: group6[k] == '\0'
    {
      group6[i] := '\0';
    }
    assert forall k | 0 <= k < count :: group6[..count][k] == group6[k] == g[k];
    rest := Ungroup(Find(group6[0]), Find(group6[1]), Find(group6[2]), Find(group6[3]))[..count - 1];
  }

  function PrependAll(v: string, rest: Option<string>): Option<string> {
    if rest.None? then None else Some(v + rest.value)
  }

  lemma DecStart(text: string)
    ensures FromDigits("") == [] && text[0..] == text && PrependAll("" + "", Digits(text)) == Digits(text)
  {
    if Digits(text).Some? {
      assert "" + Digits(text).value == Digits(text).value;
    }
  }

  lemma NextDigit(text: string, ch: nat, v: string)
    requires ch < |text| && text[ch] != '='
    requires Digits(text) == PrependAll(v, Digits(text[ch..]))
    ensures IsBreak(text[ch]) ==> Digits(text) == PrependAll(v, Digits(text[ch + 1..]))
    ensures !IsBreak(text[ch]) && !IsBase64Char(text[ch]) ==> Digits(text) == None
    ensures !IsBreak(text[ch]) && IsBase64Char(text[ch]) ==>
              Digits(text) == PrependAll(v + [text[ch]], Digits(text[ch + 1..]))
  {
    hide IsBreak, IsBase64Char;
    assert text[ch..][1..] == text[ch + 1..];
    PrependNext(v, text[ch], Digits(text[ch + 1..]));
  }

  lemma DecEnd(v: string)
    ensures PrependAll(v, Some("")) == Some(v)
  {
    assert v + "" == v;
  }

  lemma DigitsEnd(rest: string)
    requires rest == "" || rest[0] == '='
    ensures Digits(rest) == Some("")
  {}

  lemma PrependNext(v: string, c: char, rest: Option<string>)
    ensures PrependAll(v, Prepend(c, rest)) == PrependAll(v + [c], rest)
  {
    if rest.Some? {
      Seqs.Assoc(v, [c], rest.value);
    }
  }

  lemma OneGroupRead(head: string, g: string)
    requires |head| % 4 == 0 && |g| == 4
    ensures FromDigits(head + g) == FromDigits(head) + Ungroup(Find(g[0]), Find(g[1]), Find(g[2]), Find(g[3]))
    ensures head + g + "" == head + g && |head + g| % 4 == 0
  {
    hide Ungroup, Find;
    FromDigitsAppend(head, g);
    assert g[4..] == "";
    assert FromDigits("") == [];
  }

  lemma RestRead(head: string, g: string)
    requires |head| % 4 == 0 && 0 < |g| < 4
    ensures FromDigits(head + g) == FromDigits(head)
              + Ungroup(Find(g[0]), if |g| > 1 then Find(g[1]) else 64,
                        if |g| > 2 then Find(g[2]) else 64, 64)[..|g| - 1]
  {
    hide Ungroup, Find, FromDigits;
    FromDigitsAppend(head, g);
    FewDigits(g);
  }

  lemma FewDigits(g: string)
    requires 0 < |g| < 4
    ensures FromDigits(g) == Ungroup(Find(g[0]), if |g| > 1 then Find(g[1]) else 64,
                                     if |g| > 2 then Find(g[2]) else 64, 64)[..|g| - 1]
  {
    hide Ungroup, Find;
  }

  // ----- the round trip --------------------------------------------------------------------------

  lemma {:induction false} DigitsStrip(text: string)
    ensures Digits(Strip(text)) == Digits(text)
  {
    if text != "" {
      var rest := Strip(text[1..]);
      DigitsStrip(text[1..]);
      if IsBreak(text[0]) {
        assert Strip(text) == "" + rest == rest;
      } else {
        assert Strip(text) == [text[0]] + rest && ([text[0]] + rest)[1..] == rest;
      }
    }
  }

  lemma CharFound(v: Sextet)
    ensures Find(CharOf(v)) == v && IsBase64Char(CharOf(v)) && CharOf(v) != '=' && !IsBreak(CharOf(v))
  {}

  /** The digits of three octets, put together octet by octet. */
  lemma GroupUngroups(a: Octet, b: Octet, c: Octet)
    ensures var g := Group(a, b, c);
            && Ungroup(Find(g[0]), Find(g[1]), Find(g[2]), Find(g[3])) == [a, b, c]
            && (c == 0 ==> Ungroup(Find(g[0]), Find(g[1]), Find(g[2]), 64)[..2] == [a, b])
            && (b == 0 && c == 0 ==> Ungroup(Find(g[0]), Find(g[1]), 64, 64)[..1] == [a])
  {
    hide CharOf, Find, Ungroup, Group;
    GroupFound(a, b, c);
    Recombined(a, b, c);
  }

  lemma GroupFound(a: Octet, b: Octet, c: Octet)
    ensures var g := Group(a, b, c);
            && Find(g[0]) == a / 4 && Find(g[1]) == a % 4 * 16 + b / 16
            && Find(g[2]) == b % 16 * 4 + c / 64 && Find(g[3]) == c % 64
  {
    hide CharOf, Find;
    SplitOctets(a, b, c);
    CharFound(a / 4);
    CharFound(a % 4 * 16 + b / 16);
    CharFound(b % 16 * 4 + c / 64);
    CharFound(c % 64);
  }

  lemma Recombined(a: Octet, b: Octet, c: Octet)
    ensures Ungroup(a / 4, a % 4 * 16 + b / 16, b % 16 * 4 + c / 64, c % 64) == [a, b, c]
    ensures c == 0 ==> Ungroup(a / 4, a % 4 * 16 + b / 16, b % 16 * 4 + c / 64, 64)[..2] == [a, b]
    ensures b == 0 && c == 0 ==> Ungroup(a / 4, a % 4 * 16 + b / 16, 64, 64)[..1] == [a]
  {
    hide Ungroup;
    Ungrouped(a / 4, a % 4, b / 16, b % 16, c / 64, c % 64);
    Ungrouped(a / 4, a % 4, b / 16, b % 16, 0, 64);
    Ungrouped(a / 4, a % 4, 0, 0, 64, 64);
    assert 4 * (a / 4) + a % 4 == a && 16 * (b / 16) + b % 16 == b && 64 * (c / 64) + c % 64 == c;
  }

  lemma Ungrouped(a1: nat, a0: nat, b1: nat, b0: nat, c1: nat, c0: nat)
    requires a1 < 64 && a0 < 4 && b1 < 16 && b0 < 16 && c1 <= 64 && c0 <= 64
    ensures var s := Ungroup(a1, a0 * 16 + b1, b0 * 4 + c1, c0);
            && s[0] == 4 * a1 + a0
            && (c1 < 4 ==> s[1] == 16 * b1 + b0)
            && (c1 < 4 && c0 < 64 ==> s[2] == 64 * c1 + c0)
  {
    hide Ungroup;
    var x, y := a0 * 16 + b1, b0 * 4 + c1;
    assert x / 16 == a0 && x % 16 == b1;
    UngroupFirst(a1, x, y, c0);
    if c1 < 4 {
      assert y / 4 == b0 && y % 4 == c1;
      UngroupRest(a1, x, y, c0);
    }
  }

  lemma UngroupFirst(a: nat, b: nat, c: nat, d: nat)
    requires a < 64 && b / 16 < 4
    ensures Ungroup(a, b, c, d)[0] == 4 * a + b / 16
  {}

  lemma UngroupRest(a: nat, b: nat, c: nat, d: nat)
    requires c / 4 < 16
    ensures Ungroup(a, b, c, d)[1] == 16 * (b % 16) + c / 4
    ensures d < 64 ==> Ungroup(a, b, c, d)[2] == 64 * (c % 4) + d
  {}

  predicate IsDigits(s: string) {
    forall i | 0 <= i < |s| :: IsBase64Char(s[i]) && s[i] != '=' && !IsBreak(s[i])
  }

  lemma GroupIsDigits(a: Octet, b: Octet, c: Octet)
    ensures IsDigits(Group(a, b, c))
  {
    hide CharOf;
    var n := 0x1_0000 * a + 0x100 * b + c;
    CharFound(n / 0x4_0000);
    CharFound(n / 0x1000 % 64);
    CharFound(n / 64 % 64);
    CharFound(n % 64);
  }

  lemma {:induction false} DigitsOf(g: string, rest: string)
    requires IsDigits(g)
    ensures Digits(g + rest) == PrependAll(g, Digits(rest))
  {
    if g == "" {
      assert g + rest == rest;
      if Digits(rest).Some? {
        assert "" + Digits(rest).value == Digits(rest).value;
      }
    } else {
      assert (g + rest)[0] == g[0] && (g + rest)[1..] == g[1..] + rest;
      DigitsOf(g[1..], rest);
      if Digits(rest).Some? {
        assert [g[0]] + (g[1..] + Digits(rest).value) == g + Digits(rest).value;
      }
    }
  }

  lemma {:induction false} EncodedDecodes(s: seq<Octet>)
    ensures Decoded(Encoded(s)) == Some(s)
  {
    hide Group, Ungroup, Find, IsBase64Char;
    if |s| > 0 {
      var b: Octet, c: Octet := if |s| > 1 then s[1] else 0, if |s| > 2 then s[2] else 0;
      var g := Group(s[0], b, c);
      GroupIsDigits(s[0], b, c);
      GroupUngroups(s[0], b, c);
      if |s| >= 3 {
        EncodedDecodes(s[3..]);
        DigitsOf(g, Encoded(s[3..]));
        var v := Digits(Encoded(s[3..])).value;
        assert (g + v)[0] == g[0] && (g + v)[1] == g[1] && (g + v)[2] == g[2] && (g + v)[3] == g[3];
        assert (g + v)[4..] == v;
        assert s == [s[0], s[1], s[2]] + s[3..];
      } else {
        var t := g[..|s| + 1];
        var padding := if |s| == 1 then "==" else "=";
        DigitsOf(t, padding);
        DigitsEnd(padding);
        assert t + "" == t;
        assert s == if |s| == 1 then [s[0]] else [s[0], s[1]];
      }
    }
  }

  /** Decoding undoes encoding, wherever the lines are broken. */
  lemma RoundTrip(s: seq<Octet>, text: string)
    requires Strip(text) == Encoded(s)
    ensures Decoded(text) == Some(s)
  {
    DigitsStrip(text);
    EncodedDecodes(s);
  }

  /** Both in sequence: whenever the encoder returns, the decoder gives back its input. */
  method EncThenDec(s: seq<Octet>, wrap: nat) returns (checked: bool, back: Option<seq<Octet>>)
    ensures checked <==> SizeForetold(|s|, wrap)
    ensures back == Some(s)
  {
    hide Strip, Encoded, SizeForetold, Decoded;
    var text;
    text, checked := Enc(s, wrap);
    RoundTrip(s, text);
    back := Dec(text);
  }
}
