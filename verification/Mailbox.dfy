/** The grammar of mailboxes, on octets: a local part, an at sign, and a domain or an address
    literal. */
module Mailbox {
  import opened Options
  import opened Ascii

  // ----- characters ------------------------------------------------------------------------------

  predicate In(c: char, lo: int, hi: int) {
    lo <= c as int <= hi
  }

  predicate TailAt(s: string, i: nat) {
    i < |s| && In(s[i], 0x80, 0xBF)
  }

  /** The length of the UTF-8 sequence of several octets at the front, or 0: section 4 of RFC 3629. */
  function NonAscii(s: string): (n: nat)
    ensures n <= |s| && n != 1 && n <= 4
  {
    if |s| < 2 then 0
    else if In(s[0], 0xC2, 0xDF) && TailAt(s, 1) then 2
    else if s[0] as int == 0xE0 && In(s[1], 0xA0, 0xBF) && TailAt(s, 2) then 3
    else if In(s[0], 0xE1, 0xEC) && TailAt(s, 1) && TailAt(s, 2) then 3
    else if s[0] as int == 0xED && In(s[1], 0x80, 0x9F) && TailAt(s, 2) then 3
    else if In(s[0], 0xEE, 0xEF) && TailAt(s, 1) && TailAt(s, 2) then 3
    else if s[0] as int == 0xF0 && In(s[1], 0x90, 0xBF) && TailAt(s, 2) && TailAt(s, 3) then 4
    else if In(s[0], 0xF1, 0xF3) && TailAt(s, 1) && TailAt(s, 2) && TailAt(s, 3) then 4
    else if s[0] as int == 0xF4 && In(s[1], 0x80, 0x8F) && TailAt(s, 2) && TailAt(s, 3) then 4
    else 0
  }

  predicate IsLetDig(c: char) {
    'a' <= c <= 'z' || 'A' <= c <= 'Z' || '0' <= c <= '9'
  }

  predicate IsSpecial(c: char) {
    || c == '!' || c == '#' || c == '$' || c == '%' || c == '&' || c == '\'' || c == '*' || c == '+' || c == '-'
    || c == '/' || c == '=' || c == '?' || c == '^' || c == '_' || c == '`' || c == '{' || c == '|' || c == '}'
    || c == '~'
  }

  function Atext(s: string): (n: nat)
    ensures n <= |s|
  {
    if s == "" then 0
    else if IsLetDig(s[0]) || IsSpecial(s[0]) then 1
    else NonAscii(s)
  }

  function LetDig(s: string, unicode: bool): (n: nat)
    ensures n <= |s|
  {
    if s == "" then 0 else if IsLetDig(s[0]) then 1 else if unicode then NonAscii(s) else 0
  }

  // ----- local parts -----------------------------------------------------------------------------

  /** Atoms with single dots between them; start says that an atom must begin here. */
  predicate Dots(s: string, start: bool) {
    if s == "" then !start
    else if s[0] == '.' then !start && Dots(s[1..], true)
    else Atext(s) > 0 && Dots(s[Atext(s)..], false)
  }

  predicate DotString(s: string) {
    Dots(s, true)
  }

  /** The length of one quoted character at the front, or 0. */
  function Qcontent(s: string): (n: nat)
    ensures n <= |s|
  {
    if s == "" then 0
    else if In(s[0], 32, 33) || In(s[0], 35, 91) || In(s[0], 93, 126) then 1
    else if NonAscii(s) > 0 then NonAscii(s)
    else if s[0] == '\\' && |s| > 1 && In(s[1], 32, 126) then 2
    else 0
  }

  /** The length of the characters up to the closing quote and with it, or 0. */
  function Quoted(s: string): (n: nat)
    ensures n <= |s|
  {
    var k := Qcontent(s);
    if k > 0 then
      var n := Quoted(s[k..]);
      if n > 0 then k + n else 0
    else if s != "" && s[0] == '"' then 1
    else 0
  }

  function QuotedString(s: string): (n: nat)
    ensures n <= |s|
  {
    if s != "" && s[0] == '"' && Quoted(s[1..]) > 0 then 1 + Quoted(s[1..]) else 0
  }

  // ----- domains ---------------------------------------------------------------------------------

  /** Letters, digits and hyphens that are followed by a letter or digit in the end. */
  predicate LabelTail(s: string, unicode: bool) {
    if s == "" then true
    else if s[0] == '-' then |s| > 1 && LabelTail(s[1..], unicode)
    else LetDig(s, unicode) > 0 && LabelTail(s[LetDig(s, unicode)..], unicode)
  }

  predicate Label(s: string, unicode: bool) {
    LetDig(s, unicode) > 0 && LabelTail(s[LetDig(s, unicode)..], unicode)
  }

  /** The choice between the two kinds of labels is made by the first character, for good. */
  predicate SubDomain(s: string) {
    s != "" && Label(s, !IsLetDig(s[0]))
  }

  predicate Domain(s: string)
    decreases |s|
  {
    var k := FirstIndex(s, '.');
    SubDomain(s[..k]) && (k == |s| || Domain(s[k + 1..]))
  }

  /** The grammars of the three address literals are a parameter; all of them have brackets around
      printable characters. */
  predicate Literal(s: string, grammar: string -> bool) {
    && |s| >= 2 && s[0] == '[' && s[|s| - 1] == ']'
    && (forall i | 0 <= i < |s| :: In(s[i], 33, 126))
    && grammar(s)
  }

  // ----- mailboxes -------------------------------------------------------------------------------

  datatype Parsed = Parsed(local: string, domain: string, quoted: bool, literal: bool)

  /** Where the local part ends; what follows it must be an at sign. */
  function LocalEnd(s: string): (k: nat)
    ensures k <= |s|
  {
    if QuotedString(s) > 0 then QuotedString(s) else FirstIndex(s, '@')
  }

  function Parse(s: string, grammar: string -> bool): Option<Parsed> {
    var k, quoted := LocalEnd(s), QuotedString(s) > 0;
    if k == |s| || s[k] != '@' || (!quoted && !DotString(s[..k])) then None
    else if Domain(s[k + 1..]) then Some(Parsed(s[..k], s[k + 1..], quoted, false))
    else if Literal(s[k + 1..], grammar) then Some(Parsed(s[..k], s[k + 1..], quoted, true))
    else None
  }

  // ----- what is in them -------------------------------------------------------------------------

  /** A sequence at the front is the same whatever comes after it. */
  lemma FrontIsSame(s: string, t: string, unicode: bool)
    ensures NonAscii(s) > 0 ==> NonAscii(s + t) == NonAscii(s)
    ensures Atext(s) > 0 ==> Atext(s + t) == Atext(s)
    ensures LetDig(s, unicode) > 0 ==> LetDig(s + t, unicode) == LetDig(s, unicode)
  {
    var u := s + t;
    assert forall i | 0 <= i < |s| :: u[i] == s[i];
  }

  predicate OctetsOnly(s: string) {
    forall i | 0 <= i < |s| :: In(s[i], 1, 255)
  }

  lemma NonAsciiOctets(s: string)
    ensures forall i | 0 <= i < NonAscii(s) :: In(s[i], 0x80, 0xFF)
  {}

  /** A dot string has neither zero octets nor any of the signs that are around other parts. */
  lemma {:induction false} DotsClean(s: string, start: bool)
    requires Dots(s, start)
    ensures OctetsOnly(s) && '@' !in s && '"' !in s && '[' !in s
    decreases |s|
  {
    if s != "" {
      var n := if s[0] == '.' then 1 else Atext(s);
      DotsClean(s[n..], s[0] == '.');
      NonAsciiOctets(s);
      assert s == s[..n] + s[n..];
    }
  }

  lemma DotStringClean(s: string)
    requires DotString(s)
    ensures OctetsOnly(s) && '@' !in s && '"' !in s && '[' !in s
  {
    DotsClean(s, true);
  }

  lemma {:induction false} QuotedClean(s: string)
    ensures OctetsOnly(s[..Quoted(s)])
    decreases |s|
  {
    hide NonAscii;
    var k := Qcontent(s);
    if k > 0 && Quoted(s[k..]) > 0 {
      QuotedClean(s[k..]);
      NonAsciiOctets(s);
      assert s[..Quoted(s)] == s[..k] + s[k..][..Quoted(s[k..])];
    }
  }

  /** What a label may be made of. */
  predicate LabelChars(s: string) {
    forall i | 0 <= i < |s| :: IsLetDig(s[i]) || s[i] == '-' || In(s[i], 0x80, 0xFF)
  }

  lemma {:induction false} TailChars(s: string, unicode: bool)
    requires LabelTail(s, unicode)
    ensures LabelChars(s)
    decreases |s|
  {
    hide NonAscii;
    if s != "" {
      NonAsciiOctets(s);
      var n := if s[0] == '-' then 1 else LetDig(s, unicode);
      TailChars(s[n..], unicode);
      assert s == s[..n] + s[n..];
    }
  }

  lemma LetDigIsAtext(s: string, unicode: bool)
    requires LetDig(s, unicode) > 0
    ensures s[0] != '.' && Atext(s) == LetDig(s, unicode)
  {
    hide NonAscii;
    NonAsciiOctets(s);
  }

  /** A label goes on the atom that it is part of. */
  lemma {:induction false} TailIsAtext(s: string, t: string, unicode: bool)
    requires LabelTail(s, unicode)
    ensures Dots(s + t, false) == Dots(t, false)
    decreases |s|
  {
    hide NonAscii;
    if s == "" {
      assert s + t == t;
    } else {
      var n := if s[0] == '-' then 1 else LetDig(s, unicode);
      if s[0] != '-' {
        LetDigIsAtext(s, unicode);
      }
      assert Atext(s) == n && s[0] != '.';
      FrontIsSame(s, t, unicode);
      assert (s + t)[0] == s[0] && (s + t)[n..] == s[n..] + t;
      TailIsAtext(s[n..], t, unicode);
    }
  }

  lemma LabelIsAtext(s: string, t: string)
    requires SubDomain(s)
    ensures Dots(s + t, true) == Dots(t, false)
    ensures LabelChars(s)
  {
    hide NonAscii, LabelTail, LetDig, Atext;
    var unicode := !IsLetDig(s[0]);
    var n := LetDig(s, unicode);
    LetDigIsAtext(s, unicode);
    FrontIsSame(s, t, unicode);
    LetDigChars(s, unicode);
    TailChars(s[n..], unicode);
    TailIsAtext(s[n..], t, unicode);
    assert s == s[..n] + s[n..];
    assert (s + t)[0] == s[0] && (s + t)[n..] == s[n..] + t;
  }

  lemma LetDigChars(s: string, unicode: bool)
    ensures LabelChars(s[..LetDig(s, unicode)])
  {
    hide NonAscii;
    NonAsciiOctets(s);
  }

  predicate DomainChars(s: string) {
    forall i | 0 <= i < |s| :: s[i] == '.' || IsLetDig(s[i]) || s[i] == '-' || In(s[i], 0x80, 0xFF)
  }

  /** A domain is a dot string of letters, digits, hyphens and the rest of Unicode: it has none of
      the characters that separate the parts of a reply address. */
  lemma {:induction false} DomainClean(s: string)
    requires Domain(s)
    ensures DotString(s) && DomainChars(s)
    decreases |s|
  {
    hide SubDomain, Atext;
    var k := FirstIndex(s, '.');
    var first := s[..k];
    if k == |s| {
      LabelIsAtext(first, "");
      assert s == first + "" == first;
    } else {
      DomainClean(s[k + 1..]);
      LabelIsAtext(first, s[k..]);
      assert s == first + s[k..] && s[k..][1..] == s[k + 1..];
      OneMoreLabel(first, s[k + 1..]);
      assert s == first + "." + s[k + 1..];
    }
  }

  lemma OneMoreLabel(first: string, rest: string)
    requires LabelChars(first) && DomainChars(rest)
    ensures DomainChars(first + "." + rest)
  {}

  // ----- putting local parts together ------------------------------------------------------------

  lemma {:induction false} DotsAppend(a: string, b: string, start: bool)
    requires Dots(a, start)
    ensures Dots(a + b, start) == Dots(b, false)
    decreases |a|
  {
    hide NonAscii;
    if a == "" {
      assert a + b == b;
    } else {
      var n := if a[0] == '.' then 1 else Atext(a);
      FrontIsSame(a, b, false);
      assert (a + b)[0] == a[0] && (a + b)[n..] == a[n..] + b;
      DotsAppend(a[n..], b, a[0] == '.');
    }
  }

  /** Two dot strings with a separator that is part of an atom between them are one. */
  lemma Join(a: string, sep: char, b: string)
    requires DotString(a) && DotString(b) && (sep == '_' || sep == '=')
    ensures DotString(a + [sep] + b)
  {
    hide NonAscii;
    DotsAppend(a, [sep] + b, true);
    assert a + [sep] + b == a + ([sep] + b);
    assert ([sep] + b)[1..] == b;
    assert Atext([sep] + b) == 1;
  }

  /** A whole local part is a mailbox with a domain behind it. */
  lemma LocalIsMailbox(s: string, domain: string, grammar: string -> bool)
    requires DotString(s) && Domain(domain)
    ensures Parse(s + "@" + domain, grammar) == Some(Parsed(s, domain, false, false))
  {
    hide NonAscii, Domain, Dots;
    var m := s + "@" + domain;
    DotsClean(s, true);
    FirstIndexIs(s, '@', domain);
    NoQuote(s);
    assert m[..|s|] == s && m[|s| + 1..] == domain && m[0] == s[0];
  }

  lemma NoQuote(s: string)
    requires DotString(s)
    ensures s != "" && s[0] != '"'
  {}

  /** The domain that stands in for ours. */
  const OURS := "x.y"

  lemma OursIsDomain()
    ensures Domain(OURS)
  {
    assert FirstIndex("x.y", '.') == 1;
    assert FirstIndex("y", '.') == 1;
    assert Label("x", false) && Label("y", false);
    assert OURS[2..] == "y" && "y"[..1] == "y" && OURS[..1] == "x";
  }

  /** What a local part is that is accepted with our domain behind it. */
  lemma LocalParts(s: string, grammar: string -> bool)
    requires Parse(s + "@" + OURS, grammar).Some?
    ensures var p := Parse(s + "@" + OURS, grammar).value;
            p.local == s && s != "" && OctetsOnly(s) && (!p.quoted ==> DotString(s))
  {
    hide Parse, Domain, DotString, Literal;
    var m := s + "@" + OURS;
    var p := Parse(m, grammar).value;
    ParsedClean(m, grammar);
    var k := |p.local|;
    if k < |s| {
      assert p.domain == m[k + 1..] && p.domain[|s| - k - 1] == m[|s|] == '@';
      NoAtBeforeOurs(p.domain, grammar);
    } else {
      OnlyAtInOurs(s, k);
      assert s == m[..k];
    }
  }

  lemma OnlyAtInOurs(s: string, k: nat)
    requires var m := s + "@" + OURS; |s| <= k < |m| && m[k] == '@'
    ensures k == |s|
  {
    var m := s + "@" + OURS;
    assert m[k] == ("@" + OURS)[k - |s|];
  }

  /** Our domain behind an at sign is not the end of a domain or a literal. */
  lemma NoAtBeforeOurs(d: string, grammar: string -> bool)
    requires Domain(d) || Literal(d, grammar)
    ensures d != "" && (d[|d| - 1] == 'y' ==> '@' !in d)
  {
    hide Domain;
    if Domain(d) {
      DomainClean(d);
      DomainOctets(d);
    }
  }

  /** An accepted text has no zero octets, and its parts are what they are said to be. */
  lemma ParsedClean(s: string, grammar: string -> bool)
    requires Parse(s, grammar).Some?
    ensures var p := Parse(s, grammar).value;
            && s == p.local + "@" + p.domain && OctetsOnly(s) && p.local != "" && p.domain != ""
            && (!p.quoted ==> DotString(p.local))
            && (if p.literal then Literal(p.domain, grammar) else Domain(p.domain))
  {
    hide Domain, Quoted, Dots;
    var p, k := Parse(s, grammar).value, LocalEnd(s);
    assert s == s[..k] + "@" + s[k + 1..];
    if !p.literal {
      DomainClean(p.domain);
      DomainOctets(p.domain);
    }
    if p.quoted {
      QuotedClean(s[1..]);
      assert s[..k] == [s[0]] + s[1..][..k - 1];
    } else {
      DotsClean(p.local, true);
      NoQuote(p.local);
    }
  }

  lemma DomainOctets(s: string)
    requires Domain(s)
    ensures OctetsOnly(s) && s != ""
  {
    hide Dots;
    DomainClean(s);
    DotsClean(s, true);
    NoQuote(s);
  }
}
