/** Local parts and domains written out character by character: exactly the texts that the grammar of
    mailboxes takes. */
module MailboxTexts {
  import opened Mailbox
  import opened Utf8
  import opened Ascii

  // ----- characters ------------------------------------------------------------------------------

  predicate LetterOrDigit(c: string) {
    |c| == 1 && (97 <= c[0] as int <= 122 || 65 <= c[0] as int <= 90 || 48 <= c[0] as int <= 57)
  }

  ghost predicate Wide(c: string) {
    exists cp: nat | IsWide(cp) :: c == Encoded(cp)
  }

  ghost predicate AtomChar(c: string) {
    LetterOrDigit(c) || (|c| == 1 && c[0] in "!#$%&'*+-/=?^_`{|}~") || Wide(c)
  }

  function Joined(cs: seq<string>): string {
    if cs == [] then "" else cs[0] + Joined(cs[1..])
  }

  lemma WideIsTaken(c: string, t: string)
    requires Wide(c)
    ensures c != "" && NonAscii(c + t) == |c| && 0x80 <= (c + t)[0] as int
  {
    hide NonAscii, Encoded;
    var cp: nat :| IsWide(cp) && c == Encoded(cp);
    EncodedIsTaken(cp, t);
    NonAsciiOctets(c + t);
    assert In((c + t)[0], 0x80, 0xFF);
  }

  lemma NonAsciiIsWide(s: string)
    requires NonAscii(s) > 0
    ensures Wide(s[..NonAscii(s)])
  {
    hide NonAscii, Encoded;
    var cp := TakenIsEncoded(s);
  }

  lemma LetDigIs(c: char)
    ensures IsLetDig(c) <==> LetterOrDigit([c])
  {}

  lemma SpecialIs(c: char)
    ensures IsSpecial(c) <==> c in "!#$%&'*+-/=?^_`{|}~"
  {}

  lemma AtomCharIsTaken(c: string, t: string)
    requires AtomChar(c)
    ensures c != "" && Atext(c + t) == |c| && (c + t)[0] != '.'
  {
    hide NonAscii, LetterOrDigit, Wide, IsLetDig, IsSpecial;
    if Wide(c) {
      WideIsTaken(c, t);
      LargeIsOther((c + t)[0]);
    } else {
      OneOctet(c);
      LetDigIs(c[0]);
      SpecialIs(c[0]);
      DotIsOther();
      assert [c[0]] == c;
    }
  }

  lemma OneOctet(c: string)
    ensures LetterOrDigit(c) ==> |c| == 1
  {}

  lemma LargeIsOther(c: char)
    requires 0x80 <= c as int
    ensures !IsLetDig(c) && !IsSpecial(c)
  {}

  lemma DotIsOther()
    ensures !IsLetDig('.') && !IsSpecial('.')
  {}

  lemma AtextIsAtomChar(s: string)
    requires Atext(s) > 0
    ensures AtomChar(s[..Atext(s)])
  {
    hide NonAscii, LetterOrDigit, Wide, IsLetDig, IsSpecial;
    LetDigIs(s[0]);
    SpecialIs(s[0]);
    if !IsLetDig(s[0]) && !IsSpecial(s[0]) {
      NonAsciiIsWide(s);
    } else {
      assert s[..1] == [s[0]];
    }
  }

  // ----- local parts -----------------------------------------------------------------------------

  /** More atoms, each with a dot before it. */
  function DotAtoms(atoms: seq<seq<string>>): string {
    if atoms == [] then "" else "." + Joined(atoms[0]) + DotAtoms(atoms[1..])
  }

  ghost predicate Atom(cs: seq<string>) {
    cs != [] && forall c | c in cs :: AtomChar(c)
  }

  ghost predicate WrittenAtoms(s: string, first: seq<string>, more: seq<seq<string>>) {
    Atom(first) && (forall a | a in more :: Atom(a)) && s == Joined(first) + DotAtoms(more)
  }

  lemma {:induction false} AtomGoesOn(cs: seq<string>, t: string, start: bool)
    requires (forall c | c in cs :: AtomChar(c)) && (start ==> cs != [])
    ensures Dots(Joined(cs) + t, start) == Dots(t, false)
  {
    hide Atext, AtomChar;
    if cs == [] {
      assert Joined(cs) + t == t;
    } else {
      var rest := Joined(cs[1..]) + t;
      assert Joined(cs) + t == cs[0] + rest;
      assert cs[0] in cs;
      assert forall c | c in cs[1..] :: c in cs;
      AtomCharIsTaken(cs[0], rest);
      assert (cs[0] + rest)[|cs[0]|..] == rest;
      AtomGoesOn(cs[1..], t, false);
    }
  }

  lemma {:induction false} DotAtomsAreDots(atoms: seq<seq<string>>)
    requires forall a | a in atoms :: Atom(a)
    ensures Dots(DotAtoms(atoms), false)
  {
    hide *;
    if atoms == [] {
      NothingMore();
    } else {
      assert atoms[0] in atoms;
      assert forall a | a in atoms[1..] :: a in atoms;
      DotAtomsAreDots(atoms[1..]);
      AfterDot(Joined(atoms[0]) + DotAtoms(atoms[1..]));
      AtomThen(atoms[0], DotAtoms(atoms[1..]));
      DotAtomsStep(atoms);
    }
  }

  lemma AtomThen(a: seq<string>, t: string)
    requires Atom(a)
    ensures Dots(Joined(a) + t, true) == Dots(t, false)
  {
    AtomGoesOn(a, t, true);
  }

  lemma DotAtomsStep(atoms: seq<seq<string>>)
    requires atoms != []
    ensures DotAtoms(atoms) == "." + (Joined(atoms[0]) + DotAtoms(atoms[1..]))
  {
    hide Joined;
  }

  lemma NothingMore()
    ensures DotAtoms([]) == "" && Dots("", false)
  {}

  lemma AfterDot(rest: string)
    ensures Dots("." + rest, false) == Dots(rest, true)
  {
    assert ("." + rest)[1..] == rest;
  }

  lemma {:induction false} DotsAreAtoms(s: string, start: bool) returns (first: seq<string>, more: seq<seq<string>>)
    requires Dots(s, start)
    ensures (forall c | c in first :: AtomChar(c)) && (start ==> first != [])
    ensures (forall a | a in more :: Atom(a)) && s == Joined(first) + DotAtoms(more)
    decreases |s|
  {
    hide *;
    if s == "" {
      first, more := [], [];
      EmptyText();
    } else if s[0] == '.' {
      DotsStep(s, start);
      var cs, rest := DotsAreAtoms(s[1..], true);
      AtomHere(cs);
      first, more := [], [cs] + rest;
      DotBefore(cs, rest);
      assert s == "." + s[1..];
    } else {
      DotsStep(s, start);
      var n := Atext(s);
      AtextIsAtomChar(s);
      var cs, rest := DotsAreAtoms(s[n..], false);
      first, more := [s[..n]] + cs, rest;
      CharBefore(s[..n], cs, DotAtoms(rest));
      assert s == s[..n] + s[n..];
    }
  }

  lemma EmptyText()
    ensures Joined([]) + DotAtoms([]) == "" && !Dots("", true)
  {}

  lemma DotsStep(s: string, start: bool)
    requires Dots(s, start) && s != ""
    ensures s[0] == '.' ==> !start && Dots(s[1..], true)
    ensures s[0] != '.' ==> 0 < Atext(s) <= |s| && Dots(s[Atext(s)..], false)
  {
    hide Atext;
  }

  lemma AtomHere(cs: seq<string>)
    requires cs != [] && forall c | c in cs :: AtomChar(c)
    ensures Atom(cs)
  {
    hide AtomChar;
  }

  lemma DotBefore(cs: seq<string>, rest: seq<seq<string>>)
    ensures Joined([]) + DotAtoms([cs] + rest) == "." + (Joined(cs) + DotAtoms(rest))
  {
    DotAtomsStep([cs] + rest);
    assert ([cs] + rest)[1..] == rest;
  }

  lemma CharBefore(c: string, cs: seq<string>, t: string)
    ensures Joined([c] + cs) + t == c + (Joined(cs) + t)
  {
    assert ([c] + cs)[1..] == cs;
  }

  /** The unquoted local parts are exactly the atoms of letters, digits, the signs of section 3.2.3 of
      RFC 5322 and the rest of Unicode, with single dots between them. */
  lemma DotStringIff(s: string)
    ensures DotString(s) <==> exists first: seq<string>, more: seq<seq<string>> :: WrittenAtoms(s, first, more)
  {
    hide Dots, AtomChar, Joined, DotAtoms;
    if DotString(s) {
      var first, more := DotsAreAtoms(s, true);
      assert WrittenAtoms(s, first, more);
    }
    forall first: seq<string>, more: seq<seq<string>> | WrittenAtoms(s, first, more)
      ensures DotString(s)
    {
      AtomGoesOn(first, DotAtoms(more), true);
      DotAtomsAreDots(more);
    }
  }

  // ----- quoted local parts ----------------------------------------------------------------------

  /** A character between quotes: ASCII from the space on but the quote and the backslash, the rest of
      Unicode, or a backslash and any printable ASCII. */
  ghost predicate QuotedChar(c: string) {
    || (|c| == 1 && 32 <= c[0] as int <= 126 && c[0] != '"' && c[0] != '\\')
    || Wide(c)
    || (|c| == 2 && c[0] == '\\' && 32 <= c[1] as int <= 126)
  }

  lemma QuotedCharIsTaken(c: string, t: string)
    requires QuotedChar(c)
    ensures c != "" && Qcontent(c + t) == |c|
  {
    hide NonAscii, Wide;
    if Wide(c) {
      WideIsTaken(c, t);
    } else {
      NonAsciiOctets(c + t);
      assert NonAscii(c + t) > 0 ==> In((c + t)[0], 0x80, 0xFF);
    }
  }

  lemma {:induction false} QuotedIsTaken(cs: seq<string>, t: string)
    requires forall c | c in cs :: QuotedChar(c)
    ensures Quoted(Joined(cs) + "\"" + t) == |Joined(cs)| + 1
  {
    hide Qcontent, QuotedChar;
    if cs == [] {
      assert Joined(cs) + "\"" + t == "\"" + t;
      NoQuotedQuote(t);
    } else {
      var rest := Joined(cs[1..]) + "\"" + t;
      assert Joined(cs) + "\"" + t == cs[0] + rest;
      assert cs[0] in cs;
      assert forall c | c in cs[1..] :: c in cs;
      QuotedCharIsTaken(cs[0], rest);
      assert (cs[0] + rest)[|cs[0]|..] == rest;
      QuotedIsTaken(cs[1..], t);
    }
  }

  lemma NoQuotedQuote(t: string)
    ensures Qcontent("\"" + t) == 0
  {
    hide NonAscii;
    NonAsciiOctets("\"" + t);
    assert NonAscii("\"" + t) > 0 ==> In(("\"" + t)[0], 0x80, 0xFF);
  }

  lemma QcontentIsChar(s: string)
    requires Qcontent(s) > 0
    ensures QuotedChar(s[..Qcontent(s)])
  {
    hide NonAscii, Wide;
    if NonAscii(s) > 0 {
      NonAsciiIsWide(s);
      NonAsciiOctets(s);
      assert In(s[0], 0x80, 0xFF);
    }
  }

  lemma {:induction false} QuotedIsWritten(s: string) returns (cs: seq<string>)
    requires Quoted(s) > 0
    ensures (forall c | c in cs :: QuotedChar(c)) && s[..Quoted(s)] == Joined(cs) + "\""
    decreases |s|
  {
    hide Qcontent, QuotedChar;
    var k := Qcontent(s);
    if k > 0 {
      var rest := QuotedIsWritten(s[k..]);
      QcontentIsChar(s);
      cs := [s[..k]] + rest;
      assert cs[1..] == rest;
      assert s[..Quoted(s)] == s[..k] + s[k..][..Quoted(s[k..])];
    } else {
      cs := [];
      assert s[..1] == "\"" && Joined(cs) + "\"" == "\"";
    }
  }

  ghost predicate WrittenQuoted(s: string, cs: seq<string>) {
    (forall c | c in cs :: QuotedChar(c)) && s == "\"" + Joined(cs) + "\""
  }

  /** The quoted local parts are exactly such characters between quotes. */
  lemma QuotedStringIff(s: string)
    ensures s != "" && QuotedString(s) == |s| <==> exists cs: seq<string> :: WrittenQuoted(s, cs)
  {
    hide Quoted, QuotedChar, Joined;
    if s != "" && QuotedString(s) == |s| {
      var cs := QuotedIsWritten(s[1..]);
      assert s[1..][..|s| - 1] == s[1..];
      assert s == "\"" + s[1..] == "\"" + Joined(cs) + "\"";
      assert WrittenQuoted(s, cs);
    }
    forall cs: seq<string> | WrittenQuoted(s, cs)
      ensures s != "" && QuotedString(s) == |s|
    {
      QuotedIsTaken(cs, "");
      assert Joined(cs) + "\"" + "" == Joined(cs) + "\"" == s[1..];
    }
  }

  // ----- domains ---------------------------------------------------------------------------------

  ghost predicate LabelChar(c: string, unicode: bool) {
    c == "-" || LetterOrDigit(c) || (unicode && Wide(c))
  }

  /** Letters, digits and hyphens, the latter neither first nor last; and the rest of Unicode in a label
      that begins with such a character. */
  ghost predicate ProperLabel(cs: seq<string>) {
    && cs != [] && cs[0] != "-" && cs[|cs| - 1] != "-"
    && forall c | c in cs :: LabelChar(c, Wide(cs[0]))
  }

  function DotLabels(labels: seq<seq<string>>): string {
    if labels == [] then "" else "." + Joined(labels[0]) + DotLabels(labels[1..])
  }

  ghost predicate WrittenLabels(s: string, first: seq<string>, more: seq<seq<string>>) {
    ProperLabel(first) && (forall l | l in more :: ProperLabel(l)) && s == Joined(first) + DotLabels(more)
  }

  lemma LabelCharIsTaken(c: string, t: string, unicode: bool)
    requires LabelChar(c, unicode)
    ensures c != "" && (c != "-" ==> LetDig(c + t, unicode) == |c| && (c + t)[0] != '-')
    ensures c != "-" ==> (IsLetDig((c + t)[0]) <==> LetterOrDigit(c))
    ensures LetterOrDigit(c) ==> !Wide(c)
  {
    hide NonAscii, LetterOrDigit, Wide, IsLetDig;
    HyphenIsOther();
    OneOctet(c);
    if Wide(c) {
      WideIsTaken(c, t);
      LargeIsOther((c + t)[0]);
      WideIsTaken(c, "");
      assert c + "" == c;
    } else if c != "-" {
      LetDigIs(c[0]);
      assert [c[0]] == c;
    }
  }

  lemma HyphenIsOther()
    ensures !IsLetDig('-') && !LetterOrDigit("-")
  {}

  lemma {:induction false} TailIsTaken(cs: seq<string>, unicode: bool)
    requires (forall c | c in cs :: LabelChar(c, unicode)) && (cs == [] || cs[|cs| - 1] != "-")
    ensures LabelTail(Joined(cs), unicode)
  {
    hide LetDig, LabelChar, IsLetDig;
    if cs != [] {
      assert cs[0] in cs;
      assert forall c | c in cs[1..] :: c in cs;
      TailIsTaken(cs[1..], unicode);
      LabelCharIsTaken(cs[0], Joined(cs[1..]), unicode);
      assert Joined(cs)[|cs[0]|..] == Joined(cs[1..]);
      if |cs| > 1 {
        assert cs[1] in cs;
        LabelCharIsTaken(cs[1], Joined(cs[2..]), unicode);
        assert cs[1..][1..] == cs[2..];
      }
    }
  }

  lemma LabelIsTaken(cs: seq<string>)
    requires ProperLabel(cs)
    ensures SubDomain(Joined(cs)) && '.' !in Joined(cs)
  {
    hide LetDig, LabelChar, IsLetDig, LabelTail, LetterOrDigit, Wide;
    var s, rest := Joined(cs), Joined(cs[1..]);
    assert cs[0] in cs;
    assert forall c | c in cs[1..] :: c in cs;
    LabelCharIsTaken(cs[0], rest, Wide(cs[0]));
    LabelCharCases(cs[0], Wide(cs[0]));
    TailIsTaken(cs[1..], Wide(cs[0]));
    assert s == cs[0] + rest && s[|cs[0]|..] == rest;
    NoDot(s);
  }

  lemma LabelCharCases(c: string, unicode: bool)
    requires LabelChar(c, unicode) && c != "-"
    ensures LetterOrDigit(c) || Wide(c)
  {}

  lemma NoDot(s: string)
    requires SubDomain(s)
    ensures '.' !in s
  {
    hide SubDomain;
    LabelIsAtext(s, "");
    DotIsOther();
    assert !In('.', 0x80, 0xFF);
  }

  lemma LetDigIsChar(s: string, unicode: bool)
    requires LetDig(s, unicode) > 0
    ensures var c := s[..LetDig(s, unicode)];
            LabelChar(c, unicode) && c != "-" && (if IsLetDig(s[0]) then LetterOrDigit(c) else Wide(c))
  {
    hide NonAscii, LetterOrDigit, Wide, IsLetDig;
    HyphenIsOther();
    if IsLetDig(s[0]) {
      LetDigIs(s[0]);
      assert s[..1] == [s[0]];
    } else {
      NonAsciiIsWide(s);
      assert |s[..NonAscii(s)]| != 1;
    }
  }

  lemma {:induction false} TailIsWritten(s: string, unicode: bool) returns (cs: seq<string>)
    requires LabelTail(s, unicode)
    ensures (forall c | c in cs :: LabelChar(c, unicode)) && (cs == [] || cs[|cs| - 1] != "-") && s == Joined(cs)
    decreases |s|
  {
    hide LetDig, LabelChar, IsLetDig;
    if s == "" {
      cs := [];
    } else {
      var n := if s[0] == '-' then 1 else LetDig(s, unicode);
      if s[0] == '-' {
        assert s[..1] == "-";
        HyphenIsChar(unicode);
      } else {
        LetDigIsChar(s, unicode);
      }
      var rest := TailIsWritten(s[n..], unicode);
      cs := [s[..n]] + rest;
      assert cs[1..] == rest;
      assert s == s[..n] + s[n..];
      assert s[0] == '-' ==> rest != [];
    }
  }

  lemma HyphenIsChar(unicode: bool)
    ensures LabelChar("-", unicode)
  {}

  lemma LabelIsWritten(s: string) returns (cs: seq<string>)
    requires SubDomain(s)
    ensures ProperLabel(cs) && s == Joined(cs)
  {
    hide LetDig, IsLetDig, LabelTail, LetterOrDigit, Wide, LabelChar;
    var unicode := !IsLetDig(s[0]);
    var n := LetDig(s, unicode);
    LetDigIsChar(s, unicode);
    LabelCharIsTaken(s[..n], s[n..], unicode);
    var rest := TailIsWritten(s[n..], unicode);
    cs := [s[..n]] + rest;
    assert cs[1..] == rest;
    assert s == s[..n] + s[n..];
    assert Wide(cs[0]) == unicode;
  }

  lemma {:induction false} DomainIsWritten(s: string) returns (first: seq<string>, more: seq<seq<string>>)
    requires Domain(s)
    ensures WrittenLabels(s, first, more)
    decreases |s|
  {
    hide *;
    var k := FirstIndex(s, '.');
    FirstLabel(s);
    first := LabelIsWritten(s[..k]);
    if k == |s| {
      more := [];
      OneLabel(first);
      assert s[..k] == s;
    } else {
      var second, others := DomainIsWritten(s[k + 1..]);
      more := [second] + others;
      LabelBefore(first, s[k + 1..], second, others);
      assert s == s[..k] + "." + s[k + 1..];
    }
  }

  lemma FirstLabel(s: string)
    requires Domain(s)
    ensures var k := FirstIndex(s, '.');
            && k <= |s| && SubDomain(s[..k])
            && (k < |s| ==> s[k] == '.' && Domain(s[k + 1..]))
  {
    hide SubDomain;
  }

  lemma OneLabel(first: seq<string>)
    requires ProperLabel(first)
    ensures WrittenLabels(Joined(first), first, [])
  {
    hide ProperLabel, Joined;
    assert Joined(first) + "" == Joined(first);
  }

  lemma LabelBefore(first: seq<string>, s: string, second: seq<string>, others: seq<seq<string>>)
    requires ProperLabel(first) && WrittenLabels(s, second, others)
    ensures WrittenLabels(Joined(first) + "." + s, first, [second] + others)
  {
    hide ProperLabel, Joined;
    var more := [second] + others;
    assert more[1..] == others;
    assert DotLabels(more) == "." + Joined(second) + DotLabels(others);
    assert "." + s == "." + Joined(second) + DotLabels(others);
    assert Joined(first) + "." + s == Joined(first) + ("." + s);
  }

  lemma {:induction false} LabelsAreDomain(s: string, first: seq<string>, more: seq<seq<string>>)
    requires WrittenLabels(s, first, more)
    ensures Domain(s)
    decreases |more|
  {
    hide SubDomain, ProperLabel, Joined, FirstIndex;
    var l := Joined(first);
    LabelIsTaken(first);
    if more == [] {
      assert s == l;
      NoIndex(s);
      assert s[..|s|] == s;
    } else {
      var rest := Joined(more[0]) + DotLabels(more[1..]);
      assert more[0] in more;
      assert forall other | other in more[1..] :: other in more;
      LabelsAreDomain(rest, more[0], more[1..]);
      assert s == l + ['.'] + rest;
      FirstIndexIs(l, '.', rest);
      assert s[..|l|] == l && s[|l| + 1..] == rest;
    }
  }

  lemma NoIndex(s: string)
    requires '.' !in s
    ensures FirstIndex(s, '.') == |s|
  {}

  /** The domains are exactly such labels with dots between them. */
  lemma DomainIff(s: string)
    ensures Domain(s) <==> exists first: seq<string>, more: seq<seq<string>> :: WrittenLabels(s, first, more)
  {
    hide Domain, WrittenLabels;
    if Domain(s) {
      var first, more := DomainIsWritten(s);
    }
    forall first: seq<string>, more: seq<seq<string>> | WrittenLabels(s, first, more)
      ensures Domain(s)
    {
      LabelsAreDomain(s, first, more);
    }
  }
}
