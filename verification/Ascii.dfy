/** Letters and comparisons without regard to case, for ASCII only. */
module Ascii {
  function LowerChar(c: char): char {
    if 'A' <= c <= 'Z' then (c as int + 32) as char else c
  }

  function UpperChar(c: char): char {
    if 'a' <= c <= 'z' then (c as int - 32) as char else c
  }

  function Lower(s: string): (r: string)
    ensures |r| == |s|
  {
    seq(|s|, i requires 0 <= i < |s| => LowerChar(s[i]))
  }

  predicate EqualIgnoringCase(a: string, b: string) {
    |a| == |b| && forall i | 0 <= i < |a| :: UpperChar(a[i]) == UpperChar(b[i])
  }

  /** Only the 26 letters have two cases, 32 apart. */
  lemma EqualIgnoringCaseIff(a: string, b: string)
    ensures EqualIgnoringCase(a, b) <==>
              |a| == |b| && forall i | 0 <= i < |a| ::
                || a[i] == b[i]
                || (65 <= a[i] as int <= 90 && b[i] as int == a[i] as int + 32)
                || (65 <= b[i] as int <= 90 && a[i] as int == b[i] as int + 32)
  {}

  predicate StartsWith(s: string, prefix: string) {
    |s| >= |prefix| && EqualIgnoringCase(s[..|prefix|], prefix)
  }

  predicate EndsWith(s: string, suffix: string) {
    |s| >= |suffix| && EqualIgnoringCase(s[|s| - |suffix|..], suffix)
  }

  /** The place of the first c, or the length. */
  function FirstIndex(s: string, c: char): (k: nat)
    ensures k <= |s|
    ensures k < |s| ==> s[k] == c
    ensures c !in s[..k]
  {
    if s == "" || s[0] == c then 0
    else
      assert s[..1 + FirstIndex(s[1..], c)] == [s[0]] + s[1..][..FirstIndex(s[1..], c)];
      1 + FirstIndex(s[1..], c)
  }

  /** The place of the last c, or -1. */
  function LastIndex(s: string, c: char): (k: int)
    ensures -1 <= k < |s|
    ensures k >= 0 ==> s[k] == c
    ensures c !in s[k + 1..]
  {
    if s == "" then -1
    else if s[|s| - 1] == c then |s| - 1
    else LastIndex(s[..|s| - 1], c)
  }

  lemma {:induction false} FirstIndexIs(a: string, c: char, b: string)
    requires c !in a
    ensures FirstIndex(a + [c] + b, c) == |a|
  {
    if a != "" {
      assert (a + [c] + b)[1..] == a[1..] + [c] + b;
      FirstIndexIs(a[1..], c, b);
    }
  }

  lemma {:induction false} LastIndexIs(a: string, c: char, b: string)
    requires c !in b
    ensures LastIndex(a + [c] + b, c) == |a|
  {
    var s := a + [c] + b;
    if b != "" {
      assert s[..|s| - 1] == a + [c] + b[..|b| - 1];
      assert s[|s| - 1] == b[|b| - 1];
      LastIndexIs(a, c, b[..|b| - 1]);
    }
  }
}
