/** Messages as header fields and a body: the grammar, the actions that collect the parts, and the
    text that is printed of them. */
module Message {
  import opened Options
  import Mailbox
  import Seqs

  datatype Header = Header(name: string, value: string)

  // ----- the grammar: how many octets each rule takes at the front -------------------------------

  predicate IsWsp(c: char) {
    c == ' ' || c == '\t'
  }

  function Wsps(s: string): (n: nat)
    ensures n <= |s|
  {
    if s != "" && IsWsp(s[0]) then 1 + Wsps(s[1..]) else 0
  }

  /** A line end is LF or CR LF. */
  function Eol(s: string): (n: nat)
    ensures n <= |s|
  {
    if s != "" && s[0] == '\n' then 1
    else if |s| > 1 && s[0] == '\r' && s[1] == '\n' then 2
    else 0
  }

  function Vuchar(s: string): (n: nat)
    ensures n <= |s|
  {
    if s != "" && Mailbox.In(s[0], 0x21, 0x7E) then 1 else Mailbox.NonAscii(s)
  }

  /** White space that may be folded; the choice of a line end in it is not taken back. */
  function Fws(s: string): (n: nat)
    ensures n <= |s|
  {
    var a := Wsps(s);
    var e := Eol(s[a..]);
    if e == 0 then a
    else
      var b := Wsps(s[a + e..]);
      if b > 0 then a + e + b else 0
  }

  /** Characters, each after optional white space. */
  function Chars(s: string): (n: nat)
    ensures n <= |s|
  {
    var f := Fws(s);
    var v := Vuchar(s[f..]);
    if v == 0 then 0 else f + v + Chars(s[f + v..])
  }

  function FieldValue(s: string): (n: nat)
    ensures n <= |s|
  {
    Chars(s) + Wsps(s[Chars(s)..])
  }

  predicate IsFtext(c: char) {
    Mailbox.In(c, 33, 57) || Mailbox.In(c, 59, 126)
  }

  function FieldName(s: string): (n: nat)
    ensures n <= |s|
  {
    if s != "" && IsFtext(s[0]) then 1 + FieldName(s[1..]) else 0
  }

  /** A name, a colon and a value, with what follows still to be matched. */
  function RawField(s: string): (n: nat)
    ensures n <= |s|
    ensures n > 0 ==> FieldName(s) < n
  {
    var n := FieldName(s);
    if n == 0 || n == |s| || s[n] != ':' then 0 else n + 1 + FieldValue(s[n + 1..])
  }

  /** A field with its line end. */
  function Field(s: string): (n: nat)
    ensures n <= |s| && (n > 0 ==> RawField(s) > 0)
  {
    var n := RawField(s);
    if n == 0 || Eol(s[n..]) == 0 then 0 else n + Eol(s[n..])
  }

  function HeaderAt(s: string): Header
    requires RawField(s) > 0
  {
    Header(s[..FieldName(s)], s[FieldName(s) + 1..RawField(s)])
  }

  /** How far the fields at the front go. */
  function FieldsEnd(s: string): (n: nat)
    ensures n <= |s|
  {
    var n := Field(s);
    if n == 0 then 0 else n + FieldsEnd(s[n..])
  }

  /** The headers of all the fields at the front. */
  function Headers(s: string): seq<Header> {
    var n := Field(s);
    if n == 0 then [] else [HeaderAt(s)] + Headers(s[n..])
  }

  datatype Content = Content(headers: seq<Header>, body: string)

  /** What follows the fields: nothing, or a line end and the body. */
  predicate Ends(s: string) {
    s == "" || Eol(s) > 0
  }

  function Parse(s: string): Option<Content> {
    var rest := s[FieldsEnd(s)..];
    if !Ends(rest) then None else Some(Content(Headers(s), rest[Eol(rest)..]))
  }

  // ----- printing --------------------------------------------------------------------------------

  function HeaderText(h: Header): string {
    h.name + ":" + h.value
  }

  function HeadersText(hs: seq<Header>): string {
    if hs == [] then "" else HeaderText(hs[0]) + "\r\n" + HeadersText(hs[1..])
  }

  function BodyText(body: string): string {
    if body == "" then "" else "\r\n" + body
  }

  function Text(c: Content): string {
    HeadersText(c.headers) + BodyText(c.body)
  }

  // ----- the parser object -----------------------------------------------------------------------

  class Parsed {
    var headers: seq<Header>
    var fieldName: string
    var fieldValue: string
    var body: string

    constructor ()
      ensures headers == [] && body == ""
    {
      headers, fieldName, fieldValue, body := [], "", "", "";
    }

    /** The actions of a field: its parts are kept and then pushed as a header. */
    method TakeField(s: string)
      requires RawField(s) > 0
      modifies this
      ensures headers == old(headers) + [HeaderAt(s)] && body == old(body)
    {
      fieldName := s[..FieldName(s)];
      fieldValue := s[FieldName(s) + 1..RawField(s)];
      headers := headers + [Header(fieldName, fieldValue)];
    }

    /** Collects the fields and the body; what was pushed stays when the parse fails. */
    method ParseMessage(input: string) returns (ok: bool)
      modifies this
      ensures ok == Parse(input).Some?
      ensures headers == old(headers) + Headers(input)
      ensures body == if ok && FieldsEnd(input) < |input| then Parse(input).value.body else old(body)
    {
      hide Field, RawField, HeaderAt, Eol;
      var rest := input;
      assert old(headers) + Headers(input) == headers + Headers(rest);
      while Field(rest) > 0
        invariant old(headers) + Headers(input) == headers + Headers(rest) && body == old(body)
        invariant |rest| <= |input| && rest[FieldsEnd(rest)..] == input[FieldsEnd(input)..]
        decreases |rest|
      {
        var n := Field(rest);
        OneMoreField(headers, rest);
        TakeField(rest);
        rest := rest[n..];
      }
      assert rest == input[FieldsEnd(input)..];
      if Eol(rest) > 0 {
        EolTakes(rest);
        body := rest[Eol(rest)..];
        return true;
      }
      return rest == "";
    }

    /** Takes one more header, which goes to the front. */
    method ParseHdr(input: string) returns (ok: bool)
      modifies this
      ensures ok == (RawField(input) > 0 && RawField(input) == |input|)
      ensures headers == if ok then [HeaderAt(input)] + old(headers) else old(headers)
      ensures body == old(body)
    {
      if RawField(input) == 0 || RawField(input) < |input| {
        return false;
      }
      TakeField(input);
      headers := [headers[|headers| - 1]] + headers[..|headers| - 1];
      return true;
    }

    /** The loop that prints. */
    method AsString() returns (s: string)
      ensures s == Text(Content(headers, body))
    {
      s := "";
      for i := 0 to |headers|
        invariant HeadersText(headers) == s + HeadersText(headers[i..])
      {
        assert headers[i..][1..] == headers[i + 1..];
        s := s + HeaderText(headers[i]) + "\r\n";
      }
      if body != "" {
        s := s + "\r\n" + body;
      }
    }
  }

  lemma EolTakes(s: string)
    requires Eol(s) > 0
    ensures s != ""
  {}

  lemma OneMoreField(before: seq<Header>, s: string)
    requires Field(s) > 0
    ensures before + Headers(s) == before + [HeaderAt(s)] + Headers(s[Field(s)..])
    ensures s[Field(s)..][FieldsEnd(s[Field(s)..])..] == s[FieldsEnd(s)..]
  {
    hide *;
    HeadersStep(s);
    Seqs.Assoc(before, [HeaderAt(s)], Headers(s[Field(s)..]));
  }

  lemma HeadersStep(s: string)
    requires Field(s) > 0
    ensures Headers(s) == [HeaderAt(s)] + Headers(s[Field(s)..])
    ensures FieldsEnd(s) == Field(s) + FieldsEnd(s[Field(s)..])
  {
    hide Field, RawField, HeaderAt;
  }

  // ----- the rules in context --------------------------------------------------------------------

  lemma {:induction false} WspsAppend(s: string, t: string)
    ensures Wsps(s) < |s| ==> Wsps(s + t) == Wsps(s)
    ensures Wsps(s) == |s| ==> Wsps(s + t) == |s| + Wsps(t)
  {
    if s == "" {
      assert s + t == t;
    } else {
      assert (s + t)[0] == s[0] && (s + t)[1..] == s[1..] + t;
      WspsAppend(s[1..], t);
    }
  }

  lemma {:induction false} NameAppend(s: string, t: string)
    ensures FieldName(s) < |s| ==> FieldName(s + t) == FieldName(s)
    ensures FieldName(s) == |s| ==> FieldName(s + t) == |s| + FieldName(t)
  {
    if s == "" {
      assert s + t == t;
    } else {
      assert (s + t)[0] == s[0] && (s + t)[1..] == s[1..] + t;
      NameAppend(s[1..], t);
    }
  }

  lemma Cut(s: string, k: nat)
    requires k <= |s|
    ensures s == s[..k] + s[k..]
  {}

  lemma WspsPrefix(s: string, k: nat)
    requires Wsps(s) <= k <= |s|
    ensures Wsps(s[..k]) == Wsps(s)
  {
    Cut(s, k);
    WspsAppend(s[..k], s[k..]);
  }

  lemma NamePrefix(s: string, k: nat)
    requires FieldName(s) <= k <= |s|
    ensures FieldName(s[..k]) == FieldName(s)
  {
    Cut(s, k);
    NameAppend(s[..k], s[k..]);
  }

  lemma VucharAppend(s: string, t: string)
    requires Vuchar(s) > 0
    ensures Vuchar(s + t) == Vuchar(s)
  {
    Mailbox.FrontIsSame(s, t, false);
    assert (s + t)[0] == s[0];
  }

  lemma VucharPrefix(s: string, k: nat)
    requires 0 < Vuchar(s) <= k <= |s|
    ensures Vuchar(s[..k]) == Vuchar(s)
  {}

  /** A character begins with an octet that is neither white space nor part of a line end. */
  lemma VucharStart(s: string)
    requires Vuchar(s) > 0
    ensures s != "" && !IsWsp(s[0]) && Eol(s) == 0 && s[0] != '\r' && s[0] != '\n'
  {
    Mailbox.NonAsciiOctets(s);
  }

  lemma WspsStart(s: string)
    ensures Wsps(s) > 0 ==> s != "" && IsWsp(s[0])
    ensures Wsps(s) == 0 ==> s == "" || !IsWsp(s[0])
  {}

  lemma EolAppend(s: string, t: string)
    ensures Eol(s) > 0 ==> Eol(s + t) == Eol(s)
    ensures s != "" && s[0] != '\r' ==> Eol(s + t) == Eol(s)
  {}

  lemma EolPrefix(s: string, k: nat)
    requires 0 < Eol(s) <= k <= |s|
    ensures Eol(s[..k]) == Eol(s)
  {}

  /** The white space before a character is the same whatever comes after that character. */
  lemma FwsAppend(s: string, t: string)
    requires Vuchar(s[Fws(s)..]) > 0
    ensures Fws(s + t) == Fws(s)
  {
    hide Vuchar, Wsps, Eol;
    var a := Wsps(s);
    var e := Eol(s[a..]);
    VucharStart(s[Fws(s)..]);
    WspsStart(s);
    WspsAppend(s, t);
    assert (s + t)[a..] == s[a..] + t;
    EolAppend(s[a..], t);
    if e > 0 {
      assert (s + t)[a + e..] == s[a + e..] + t;
      WspsAppend(s[a + e..], t);
      if a == 0 {
        assert s[0..] == s;
      }
    }
  }

  lemma FwsPrefix(s: string, k: nat)
    requires Fws(s) < k <= |s| && Vuchar(s[Fws(s)..]) > 0
    ensures Fws(s[..k]) == Fws(s)
  {
    hide Vuchar, Wsps;
    var a := Wsps(s);
    var e := Eol(s[a..]);
    VucharStart(s[Fws(s)..]);
    WspsStart(s);
    if e > 0 {
      if a == 0 {
        assert s[0..] == s;
      }
      WspsPrefix(s, k);
      assert s[..k][a..] == s[a..][..k - a];
      EolPrefix(s[a..], k - a);
      assert s[..k][a + e..] == s[a + e..][..k - a - e];
      WspsPrefix(s[a + e..], k - a - e);
    } else {
      WspsPrefix(s, k);
      assert s[..k][a] == s[a];
    }
  }

  lemma {:induction false} CharsAppend(s: string, t: string)
    requires Chars(s) == |s|
    ensures Chars(s + t) == |s| + Chars(t)
    decreases |s|
  {
    hide Fws, Vuchar;
    var f := Fws(s);
    var v := Vuchar(s[f..]);
    if v == 0 {
      assert s + t == t;
    } else {
      FwsAppend(s, t);
      VucharAppend(s[f..], t);
      assert (s + t)[f..] == s[f..] + t;
      assert (s + t)[f + v..] == s[f + v..] + t;
      CharsAppend(s[f + v..], t);
    }
  }

  lemma CharsOfWsps(w: string)
    requires Wsps(w) == |w|
    ensures Chars(w) == 0
  {}

  /** The characters of a text cut off in the white space behind them. */
  lemma {:induction false} CharsPrefix(s: string, k: nat)
    requires Chars(s) <= k <= |s| && Wsps(s[Chars(s)..k]) == k - Chars(s)
    ensures Chars(s[..k]) == Chars(s)
    decreases |s|
  {
    hide Fws, Vuchar, Wsps;
    var f := Fws(s);
    var v := Vuchar(s[f..]);
    if v == 0 {
      assert s[0..k] == s[..k];
      CharsOfWsps(s[..k]);
    } else {
      FwsPrefix(s, k);
      assert s[..k][f..] == s[f..][..k - f];
      VucharPrefix(s[f..], k - f);
      assert s[..k][f + v..] == s[f + v..][..k - f - v];
      assert s[f + v..][Chars(s[f + v..])..k - f - v] == s[Chars(s)..k];
      CharsPrefix(s[f + v..], k - f - v);
    }
  }

  lemma ValuePrefix(s: string)
    ensures FieldValue(s[..FieldValue(s)]) == FieldValue(s)
  {
    hide Chars, Wsps;
    var n, k := Chars(s), FieldValue(s);
    assert s[n..k] == s[n..][..k - n];
    WspsPrefix(s[n..], k - n);
    CharsPrefix(s, k);
    assert s[..k][n..] == s[n..k];
  }

  /** A text that the white space of a field cannot go on with. */
  predicate NoFold(t: string) {
    t == "" || !IsWsp(t[0])
  }

  lemma NothingMore(w: string, t: string)
    requires Wsps(w) == |w| && NoFold(t)
    ensures Chars(w + "\r\n" + t) == 0 && Wsps(w + "\r\n" + t) == |w|
  {
    hide Vuchar;
    var s, x := w + "\r\n" + t, "\r\n" + t;
    assert s == w + x;
    WspsAppend(w, x);
    assert s[|w|..] == x && x[2..] == t;
    WspsStart(w);
    assert Fws(s) == 0 && s[0..] == s;
    assert s[0] == if w == "" then '\r' else w[0];
    if Vuchar(s) > 0 {
      VucharStart(s);
    }
  }

  /** A value ends where its line ends, unless the next line begins with white space. */
  lemma ValueInContext(v: string, t: string)
    requires FieldValue(v) == |v| && NoFold(t)
    ensures FieldValue(v + "\r\n" + t) == |v|
  {
    hide Chars, Wsps;
    var n := Chars(v);
    var c, w := v[..n], v[n..];
    NoWsps();
    assert v[n..n] == "";
    CharsPrefix(v, n);
    CharsAppend(c, w + "\r\n" + t);
    assert v + "\r\n" + t == c + (w + "\r\n" + t);
    NothingMore(w, t);
    assert (v + "\r\n" + t)[n..] == w + "\r\n" + t;
  }

  lemma NoWsps()
    ensures Wsps("") == 0
  {}

  // ----- headers ---------------------------------------------------------------------------------

  /** A header that the grammar can give: a name and a value, possibly folded. */
  predicate WellFormed(h: Header) {
    h.name != "" && FieldName(h.name) == |h.name| && FieldValue(h.value) == |h.value|
  }

  predicate AllWellFormed(hs: seq<Header>) {
    forall i | 0 <= i < |hs| :: WellFormed(hs[i])
  }

  /** What the actions take from a text is well-formed and is the text. */
  lemma HeaderTaken(s: string)
    requires RawField(s) > 0
    ensures WellFormed(HeaderAt(s)) && HeaderText(HeaderAt(s)) == s[..RawField(s)]
  {
    hide FieldName, FieldValue;
    var n := FieldName(s);
    NamePrefix(s, n);
    ValuePrefix(s[n + 1..]);
    assert s[n + 1..][..FieldValue(s[n + 1..])] == s[n + 1..RawField(s)];
  }

  /** A well-formed header is read back from its line. */
  lemma HeaderReadsBack(h: Header, t: string)
    requires WellFormed(h) && NoFold(t)
    ensures var s := HeaderText(h) + "\r\n" + t;
            && RawField(s) == |HeaderText(h)| && Field(s) == |HeaderText(h)| + 2
            && HeaderAt(s) == h && s[Field(s)..] == t
  {
    hide FieldName, FieldValue;
    var s := HeaderText(h) + "\r\n" + t;
    var tail := h.value + "\r\n" + t;
    NameAppend(h.name, ":" + tail);
    ColonEnds(tail);
    assert s == h.name + (":" + tail);
    assert s[|h.name|] == ':' && s[|h.name| + 1..] == tail;
    ValueInContext(h.value, t);
    assert s[|HeaderText(h)|..] == "\r\n" + t;
  }

  lemma ColonEnds(tail: string)
    ensures FieldName(":" + tail) == 0
  {}

  lemma {:induction false} FieldsWellFormed(s: string)
    ensures AllWellFormed(Headers(s))
    decreases |s|
  {
    hide Field, RawField, HeaderAt, WellFormed;
    if Field(s) > 0 {
      HeaderTaken(s);
      FieldsWellFormed(s[Field(s)..]);
    }
  }

  /** Printed headers are read back up to a text that is no field and does not go on with the last. */
  lemma {:induction false} FieldsReadBack(hs: seq<Header>, t: string)
    requires AllWellFormed(hs) && Field(t) == 0 && NoFold(t)
    ensures Headers(HeadersText(hs) + t) == hs && FieldsEnd(HeadersText(hs) + t) == |HeadersText(hs)|
  {
    hide Field, RawField, HeaderAt, WellFormed, HeaderText;
    if hs == [] {
      assert HeadersText(hs) + t == t;
    } else {
      FieldsReadBack(hs[1..], t);
      HeadersNoFold(hs[1..], t);
      OneHeader(hs[0], HeadersText(hs[1..]) + t);
      Seqs.Assoc(HeaderText(hs[0]) + "\r\n", HeadersText(hs[1..]), t);
      assert [hs[0]] + hs[1..] == hs;
    }
  }

  lemma OneHeader(h: Header, rest: string)
    requires WellFormed(h) && NoFold(rest)
    ensures Headers(HeaderText(h) + "\r\n" + rest) == [h] + Headers(rest)
    ensures FieldsEnd(HeaderText(h) + "\r\n" + rest) == |HeaderText(h) + "\r\n"| + FieldsEnd(rest)
  {
    hide Field, RawField, HeaderAt, WellFormed, HeaderText;
    HeaderReadsBack(h, rest);
  }

  lemma HeadersNoFold(hs: seq<Header>, t: string)
    requires AllWellFormed(hs) && NoFold(t)
    ensures NoFold(HeadersText(hs) + t)
  {
    if hs == [] {
      assert HeadersText(hs) + t == t;
    } else {
      assert IsFtext(hs[0].name[0]);
      assert (HeadersText(hs) + t)[0] == hs[0].name[0];
    }
  }

  // ----- the round trips -------------------------------------------------------------------------

  /** Parsing what is printed of well-formed headers and any body gives them back. */
  lemma PrintThenParse(c: Content)
    requires AllWellFormed(c.headers)
    ensures Parse(Text(c)) == Some(c)
  {
    hide AllWellFormed, Field, HeadersText, HeaderAt;
    BodyIsNoField(c.body);
    FieldsReadBack(c.headers, BodyText(c.body));
    assert Text(c)[|HeadersText(c.headers)|..] == BodyText(c.body);
  }

  lemma BodyIsNoField(body: string)
    ensures Field(BodyText(body)) == 0 && NoFold(BodyText(body))
    ensures Ends(BodyText(body)) && BodyText(body)[Eol(BodyText(body))..] == body
  {
    hide FieldValue;
    var t := BodyText(body);
    if body != "" {
      assert t[0] == '\r' && FieldName(t) == 0 && t[2..] == body;
    }
  }

  /** Only contents of well-formed headers come back, and printing and parsing again changes nothing. */
  lemma ParseIsStable(s: string)
    requires Parse(s).Some?
    ensures AllWellFormed(Parse(s).value.headers)
    ensures Parse(Text(Parse(s).value)) == Parse(s)
  {
    hide AllWellFormed;
    FieldsWellFormed(s);
    PrintThenParse(Parse(s).value);
  }

  lemma PrintThenParseIff(c: Content)
    ensures Parse(Text(c)) == Some(c) <==> AllWellFormed(c.headers)
  {
    hide AllWellFormed, Text, Parse;
    if AllWellFormed(c.headers) {
      PrintThenParse(c);
    }
    if Parse(Text(c)) == Some(c) {
      ParseIsStable(Text(c));
    }
  }

  /** Every field of a text ends in CR LF. */
  predicate CrlfEnds(s: string) {
    Field(s) == 0 || (Eol(s[RawField(s)..]) == 2 && CrlfEnds(s[Field(s)..]))
  }

  /** The line that separates the body is printed: it is CR LF and there is a body. */
  predicate SeparatorKept(rest: string) {
    rest == "" || (Eol(rest) == 2 && |rest| > 2)
  }

  lemma {:induction false} HeadersPrintedIff(s: string, t: string)
    ensures HeadersText(Headers(s)) + t == s <==> CrlfEnds(s) && t == s[FieldsEnd(s)..]
    decreases |s|
  {
    hide RawField, HeaderAt, HeaderText, Eol;
    if Field(s) > 0 {
      var r, n := RawField(s), Field(s);
      HeaderTaken(s);
      HeadersPrintedIff(s[n..], t);
      var more := HeadersText(Headers(s[n..])) + t;
      assert (HeadersText(Headers(s)) + t) == s[..r] + "\r\n" + more;
      SameLineIff(s, r, n, more);
      assert s[n..][FieldsEnd(s[n..])..] == s[FieldsEnd(s)..];
    } else {
      assert HeadersText(Headers(s)) + t == t && s[0..] == s;
    }
  }

  lemma SameLineIff(s: string, r: nat, n: nat, more: string)
    requires r < n <= |s| && n == r + Eol(s[r..])
    ensures s[..r] + "\r\n" + more == s <==> Eol(s[r..]) == 2 && more == s[n..]
  {
    var printed := s[..r] + "\r\n" + more;
    assert printed[r] == '\r' && s[r..][0] == s[r];
    if Eol(s[r..]) == 2 {
      assert s[r..][1] == s[r + 1];
      assert s == s[..r] + "\r\n" + s[n..];
      assert printed[r + 2..] == more;
    }
  }

  /** Printing what was parsed gives the text itself exactly when all the fields end in CR LF and the
      separating line, if there is one, ends in CR LF and has a body behind it. */
  lemma ParseThenPrintIff(s: string)
    requires Parse(s).Some?
    ensures Text(Parse(s).value) == s <==> CrlfEnds(s) && SeparatorKept(s[FieldsEnd(s)..])
  {
    hide Field, HeadersText, CrlfEnds, HeaderAt;
    var rest := s[FieldsEnd(s)..];
    HeadersPrintedIff(s, BodyText(rest[Eol(rest)..]));
    BodyPrintedIff(rest);
  }

  lemma BodyPrintedIff(rest: string)
    requires Ends(rest)
    ensures BodyText(rest[Eol(rest)..]) == rest <==> SeparatorKept(rest)
  {
    var body := rest[Eol(rest)..];
    if rest != "" && body != "" {
      assert Eol(rest) == 2 ==> rest == "\r\n" + body;
      assert Eol(rest) == 1 ==> |"\r\n" + body| > |rest|;
    }
  }

  /** A field that ends in LF is printed with CR LF. */
  lemma LineFeedIsNotKept()
    ensures Parse("a:\n").Some? && Text(Parse("a:\n").value) != "a:\n"
  {
    hide Parse, Text, CrlfEnds;
    ShortParse("a:\n");
    ParseThenPrintIff("a:\n");
  }

  lemma ShortParse(s: string)
    requires s == "a:\n"
    ensures Parse(s).Some? && !CrlfEnds(s)
  {
    hide Field, RawField, HeaderAt, FieldsEnd, Headers;
    ShortField(s);
    HeadersStep(s);
    assert s[3..] == "" && FieldsEnd("") == 0 by {
      NoFields();
    }
  }

  lemma NoFields()
    ensures FieldsEnd("") == 0
  {
    hide RawField;
  }

  lemma ShortField(s: string)
    requires s == "a:\n"
    ensures RawField(s) == 2 && Field(s) == 3 && Field("") == 0 && Eol(s[2..]) == 1
  {
    assert s[2..] == "\n" && s[1..][0] == ':';
    assert FieldName(s[1..]) == 0 && FieldName(s) == 1;
    assert Fws("\n") == 0 && Vuchar("\n"[0..]) == 0;
    assert Chars("\n") == 0 && FieldValue("\n") == 0;
  }

  /** A separating line without a body is not printed. */
  lemma EmptyBodyIsNotKept()
    ensures Parse("\r\n") == Some(Content([], "")) && Text(Parse("\r\n").value) == ""
  {
    assert FieldName("\r\n") == 0 && Field("\r\n") == 0;
    assert "\r\n"[0..] == "\r\n" && "\r\n"[2..] == "";
  }
}
