/** Numbers of 128 bits as decimal text: printing into a buffer of fixed size, and reading with a
    check for overflow. */
module Decimal {
  import Arith
  import Seqs

  const LIMIT: nat := 0x1_00000000_00000000_00000000_00000000

  type Wide = v: nat | v < LIMIT

  // ----- decimal notation ------------------------------------------------------------------------

  predicate IsDigit(c: char) {
    '0' <= c <= '9'
  }

  function DigitOf(d: nat): char
    requires d < 10
  {
    (d + 48) as char
  }

  function ValueOf(c: char): nat
    requires IsDigit(c)
  {
    c as nat - 48
  }

  /** The digits of a number without leading zeros. */
  function Notation(v: nat): (s: string)
    ensures s != "" && AllDigits(s)
  {
    if v < 10 then [DigitOf(v)] else Notation(v / 10) + [DigitOf(v % 10)]
  }

  predicate AllDigits(s: string) {
    forall i | 0 <= i < |s| :: IsDigit(s[i])
  }

  /** The number that digits stand for. */
  function Number(s: string): nat
    requires AllDigits(s)
  {
    if s == "" then 0 else 10 * Number(s[..|s| - 1]) + ValueOf(s[|s| - 1])
  }

  lemma {:induction false} NumberOfNotation(v: nat)
    ensures Number(Notation(v)) == v
  {
    if v >= 10 {
      NumberOfNotation(v / 10);
      var s := Notation(v);
      assert s[..|s| - 1] == Notation(v / 10);
    }
  }

  function Ten(k: nat): nat {
    if k == 0 then 1 else 10 * Ten(k - 1)
  }

  lemma {:induction false} NotationSize(v: nat, k: nat)
    requires k > 0 && v < Ten(k)
    ensures |Notation(v)| <= k
  {
    if v >= 10 {
      NotationSize(v / 10, k - 1);
    }
  }

  lemma LimitHas39Digits()
    ensures LIMIT <= Ten(39)
  {
    assert Ten(9) == 1_000_000_000;
    TenAdd(9, 9);
    TenAdd(18, 18);
    TenAdd(36, 3);
    assert Ten(3) == 1000;
  }

  lemma {:induction false} TenAdd(a: nat, b: nat)
    ensures Ten(a + b) == Ten(a) * Ten(b)
  {
    if b > 0 {
      TenAdd(a, b - 1);
      Regroup(Ten(a), Ten(b - 1));
    }
  }

  lemma Regroup(x: nat, y: nat)
    ensures 10 * (x * y) == x * (10 * y)
  {}

  // ----- printing --------------------------------------------------------------------------------

  const MAX_CHARS := 40

  /** The digits are put into the buffer from its end to the front, and there is always room. */
  method Print(value: Wide) returns (text: string)
    ensures text == Notation(value)
  {
    hide Notation;
    var buffer := new char[MAX_CHARS](_ => ' ');
    var pos: nat := MAX_CHARS - 1;
    buffer[pos] := '\0';
    LimitHas39Digits();
    NotationSize(value, 39);
    var rest: nat := value;
    var first := true;
    while first || rest != 0
      invariant 0 <= pos <= MAX_CHARS - 1
      invariant Notation(value) == StillToPrint(rest, first) + buffer[pos..MAX_CHARS - 1]
      decreases first, rest
    {
      ghost var tail := buffer[pos..MAX_CHARS - 1];
      PrintStep(value, rest, tail);
      var div, mod := rest / 10, rest - rest / 10 * 10;
      pos := pos - 1;
      buffer[pos] := DigitOf(mod);
      assert buffer[pos..MAX_CHARS - 1] == [DigitOf(mod)] + tail;
      rest := div;
      first := false;
    }
    text := buffer[pos..MAX_CHARS - 1];
  }

  /** What the digits in the buffer come after. */
  function StillToPrint(rest: nat, first: bool): string {
    if first || rest != 0 then Notation(rest) else ""
  }

  lemma PrintStep(value: nat, rest: nat, tail: string)
    requires Notation(value) == Notation(rest) + tail && |Notation(value)| <= 39
    ensures |tail| < 39 && rest - rest / 10 * 10 == rest % 10
    ensures Notation(value) == StillToPrint(rest / 10, false) + ([DigitOf(rest % 10)] + tail)
  {
    hide Notation, StillToPrint;
    NotationStep(rest);
    Seqs.Assoc(StillToPrint(rest / 10, false), [DigitOf(rest % 10)], tail);
  }

  lemma NotationStep(v: nat)
    ensures v - v / 10 * 10 == v % 10
    ensures Notation(v) == StillToPrint(v / 10, false) + [DigitOf(v % 10)]
  {}

  // ----- reading ---------------------------------------------------------------------------------

  /** One digit more: multiplied and added modulo 2^128, and each of the two checked for a wrap. */
  function TimesTen(current: Wide): Wide {
    current * 10 % LIMIT
  }

  function PlusDigit(current: Wide, c: char): Wide
    requires IsDigit(c)
  {
    (TimesTen(current) + ValueOf(c)) % LIMIT
  }

  predicate SeesOverflow(current: Wide, c: char)
    requires IsDigit(c)
  {
    TimesTen(current) < current || PlusDigit(current, c) < ValueOf(c)
  }

  function DigitsFrom(s: string): (k: nat)
    ensures k <= |s| && AllDigits(s[..k])
  {
    if s == "" || !IsDigit(s[0]) then 0
    else
      assert forall i | 1 <= i < 1 + DigitsFrom(s[1..]) :: s[i] == s[1..][..DigitsFrom(s[1..])][i - 1];
      1 + DigitsFrom(s[1..])
  }

  /** The value after some digits, and whether an overflow was seen. */
  function ReadDigits(s: string): (Wide, bool)
    requires AllDigits(s)
  {
    if s == "" then (0, false)
    else
      var (v, seen) := ReadDigits(s[..|s| - 1]);
      (PlusDigit(v, s[|s| - 1]), seen || SeesOverflow(v, s[|s| - 1]))
  }

  /** Reads from a stream: the value, whether the stream fails, and what is left of it.  A stream that
      ends in the digits fails as well; from one that is empty nothing is read and the value stays. */
  method Read(input: string, before: Wide) returns (value: Wide, failed: bool, rest: string)
    ensures var k := DigitsFrom(input);
            var digits := input[..k];
            && value == (if input == "" then before
                         else if Flagged(digits) then LIMIT - 1
                         else Number(digits) % LIMIT)
            && (failed <==> Flagged(digits) || k == 0 || k == |input|)
            && rest == input[k..]
  {
    hide TimesTen, PlusDigit, SeesOverflow, Flagged;
    ReadDigitsIs(input[..DigitsFrom(input)]);
    if input == "" {
      return before, true, "";
    }
    var current: Wide, overflow, didNothing := 0, false, true;
    var i: nat := 0;
    failed := false;
    DigitsAt(input, 0);
    while true
      invariant i <= DigitsFrom(input) && (didNothing <==> i == 0) && !failed
      invariant AllDigits(input[..i]) && ReadDigits(input[..i]) == (current, overflow)
      decreases |input| - i
    {
      DigitsAt(input, i);
      if i == |input| {
        failed := true;
        break;
      }
      var c := input[i];
      if !IsDigit(c) {
        break;
      }
      didNothing := false;
      assert input[..i + 1][..i] == input[..i];
      overflow := overflow || SeesOverflow(current, c);
      current := PlusDigit(current, c);
      i := i + 1;
    }
    if didNothing || overflow {
      failed := true;
      if overflow {
        current := LIMIT - 1;
      }
    }
    value := current;
    rest := input[i..];
  }

  /** The digits at the front end at the first place that is none. */
  lemma {:induction false} DigitsAt(s: string, i: nat)
    requires i <= DigitsFrom(s)
    ensures i == |s| || !IsDigit(s[i]) ==> i == DigitsFrom(s)
    ensures i < |s| && IsDigit(s[i]) ==> i < DigitsFrom(s)
  {
    if i > 0 {
      DigitsAt(s[1..], i - 1);
    }
  }

  // ----- what is read ----------------------------------------------------------------------------

  /** The two tests of a round, said of the number n that the digits stand for after it: the product
      wraps to less than what was multiplied, or the sum to less than what was added. */
  predicate Noticed(n: nat) {
    10 * (n / 10) % LIMIT < n / 10 % LIMIT || n % LIMIT < n % 10
  }

  predicate NoticedAt(s: string, i: nat)
    requires AllDigits(s) && i <= |s|
  {
    Noticed(Number(s[..i]))
  }

  /** An overflow is flagged when one of the numbers on the way is noticed. */
  ghost predicate Flagged(s: string)
    requires AllDigits(s)
  {
    exists i: nat | i <= |s| :: NoticedAt(s, i)
  }

  /** One round on remainders is one round on the numbers themselves. */
  lemma RoundIs(m: nat, c: char)
    requires IsDigit(c)
    ensures var n := 10 * m + ValueOf(c);
            && n / 10 == m && n % 10 == ValueOf(c)
            && PlusDigit(m % LIMIT, c) == n % LIMIT
            && (SeesOverflow(m % LIMIT, c) <==> Noticed(n))
  {
    var q, d := m / LIMIT, ValueOf(c);
    assert m == q * LIMIT + m % LIMIT;
    Arith.ModShift(10 * (m % LIMIT), 10 * q, LIMIT);
    Arith.ModShift(10 * (m % LIMIT) + d, 10 * q, LIMIT);
    var t := 10 * (m % LIMIT);
    Arith.ModShift(t % LIMIT + d, t / LIMIT, LIMIT);
  }

  lemma FlaggedMore(t: string, c: char)
    requires AllDigits(t) && IsDigit(c)
    ensures AllDigits(t + [c])
    ensures Flagged(t + [c]) <==> Flagged(t) || Noticed(Number(t + [c]))
  {
    hide Noticed, Number;
    var s := t + [c];
    assert s[..|s|] == s && forall i: nat | i <= |t| :: s[..i] == t[..i];
    assert NoticedAt(s, |s|) <==> Noticed(Number(s));
    if Flagged(t) {
      var i: nat :| i <= |t| && NoticedAt(t, i);
      assert NoticedAt(s, i);
    }
    if Flagged(s) {
      var i: nat :| i <= |s| && NoticedAt(s, i);
      assert i <= |t| ==> NoticedAt(t, i);
    }
  }

  lemma NothingFlagged()
    ensures !Flagged("")
  {}

  /** For all digits: the value is their number modulo 2^128, and what is flagged. */
  lemma {:induction false} ReadDigitsIs(s: string)
    requires AllDigits(s)
    ensures ReadDigits(s) == (Number(s) % LIMIT, Flagged(s))
    decreases |s|
  {
    hide PlusDigit, SeesOverflow, Noticed, Flagged;
    if s == "" {
      NothingFlagged();
    } else {
      var t, c := s[..|s| - 1], s[|s| - 1];
      assert s == t + [c];
      ReadDigitsIs(t);
      RoundIs(Number(t), c);
      FlaggedMore(t, c);
    }
  }

  lemma SmallNotNoticed(n: nat)
    requires n < LIMIT
    ensures !Noticed(n)
  {}

  lemma {:induction false} SmallNotFlagged(s: string)
    requires AllDigits(s) && Number(s) < LIMIT
    ensures !Flagged(s)
    decreases |s|
  {
    hide Noticed, Flagged;
    if s == "" {
      NothingFlagged();
    } else {
      var t, c := s[..|s| - 1], s[|s| - 1];
      assert s == t + [c];
      SmallNotFlagged(t);
      FlaggedMore(t, c);
      SmallNotNoticed(Number(s));
    }
  }

  /** A number that fits is never flagged.  A number with at most one digit too many is flagged exactly
      when its quotient and remainder by ten show the wrap in the last round. */
  lemma FlaggedIffNoticed(s: string)
    requires AllDigits(s) && Number(s) < 10 * LIMIT
    ensures Number(s) < LIMIT ==> !Flagged(s)
    ensures var n := Number(s);
            Flagged(s) <==> 10 * (n / 10) % LIMIT < n / 10 || n % LIMIT < n % 10
  {
    NoticedInLast(Number(s));
    hide Noticed, Flagged;
    if s == "" {
      NothingFlagged();
      SmallNotNoticed(0);
    } else {
      var t, c := s[..|s| - 1], s[|s| - 1];
      assert s == t + [c];
      SmallNotFlagged(t);
      FlaggedMore(t, c);
      if Number(s) < LIMIT {
        SmallNotNoticed(Number(s));
      }
    }
  }

  lemma NoticedInLast(n: nat)
    requires n < 10 * LIMIT
    ensures Noticed(n) <==> 10 * (n / 10) % LIMIT < n / 10 || n % LIMIT < n % 10
  {}

  /** Digits are read as their number, without a flag, exactly when it fits. */
  lemma ReadsNumberIff(s: string)
    requires AllDigits(s)
    ensures ReadDigits(s) == (Number(s), false) <==> Number(s) < LIMIT
  {
    ReadDigitsIs(s);
    if Number(s) < LIMIT {
      SmallNotFlagged(s);
    }
  }

  /** Every value that is printed is read back, when something that is no digit follows it. */
  lemma PrintedReadsBack(v: Wide, c: char, rest: string)
    requires !IsDigit(c)
    ensures var s := Notation(v) + [c] + rest;
            && DigitsFrom(s) == |Notation(v)| && s[..|Notation(v)|] == Notation(v)
            && Number(Notation(v)) == v && !Flagged(Notation(v)) && s[|Notation(v)|..] == [c] + rest
  {
    hide Notation;
    NumberOfNotation(v);
    SmallNotFlagged(Notation(v));
    DigitsBefore(Notation(v), [c] + rest);
    assert Notation(v) + [c] + rest == Notation(v) + ([c] + rest);
  }

  lemma {:induction false} DigitsBefore(a: string, b: string)
    requires AllDigits(a) && (b == "" || !IsDigit(b[0]))
    ensures DigitsFrom(a + b) == |a|
  {
    if a == "" {
      assert a + b == b;
    } else {
      assert (a + b)[0] == a[0] && (a + b)[1..] == a[1..] + b;
      DigitsBefore(a[1..], b);
    }
  }

  /** The two in sequence. */
  method PrintThenRead(v: Wide, c: char, more: string, before: Wide) returns (back: Wide, failed: bool, rest: string)
    requires !IsDigit(c)
    ensures back == v && !failed && rest == [c] + more
  {
    hide Notation, Flagged, Number;
    var text := Print(v);
    PrintedReadsBack(v, c, more);
    assert |text + [c] + more| > |text|;
    back, failed, rest := Read(text + [c] + more, before);
  }

  // ----- an overflow that is not seen ------------------------------------------------------------

  /** The digits of a number followed by k zeros. */
  function Zeros(s: string, k: nat): (t: string)
    requires AllDigits(s)
    ensures AllDigits(t)
  {
    if k == 0 then s else Zeros(s, k - 1) + "0"
  }

  lemma {:induction false} NumberOfZeros(s: string, k: nat)
    requires AllDigits(s)
    ensures Number(Zeros(s, k)) == Number(s) * Ten(k)
  {
    if k > 0 {
      NumberOfZeros(s, k - 1);
      var t := Zeros(s, k);
      assert t[..|t| - 1] == Zeros(s, k - 1) && t[|t| - 1] == '0';
      Regroup(Number(s), Ten(k - 1));
    }
  }

  /** Ten times four times the 37th power of ten wraps around 2^128 to something larger: the check of
      the product does not see it. */
  lemma UnseenOverflow()
    ensures var s := Zeros("4", 38);
            && Number(s) >= LIMIT && !Flagged(s)
            && Number(s) % LIMIT == 59717633079061536536625392568231788544
  {
    hide Number, Ten, Flagged;
    NumberOfZeros("4", 38);
    NumberOfFour();
    Ten37();
    FlaggedIffNoticed(Zeros("4", 38));
  }

  lemma NumberOfFour()
    ensures Number("4") == 4
  {
    assert "4"[..0] == "";
  }

  lemma Ten37()
    ensures Ten(37) == 10000000000000000000000000000000000000 && Ten(38) == 10 * Ten(37)
  {
    assert Ten(9) == 1_000_000_000;
    TenAdd(9, 9);
    TenAdd(18, 18);
    TenAdd(36, 1);
  }
}
