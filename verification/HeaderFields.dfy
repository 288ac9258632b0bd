/** Header fields written out: which names and values a message may have, folded or not. */
module HeaderFields {
  import opened Options
  import opened Message
  import opened Utf8
  import Mailbox
  import Seqs

  // ----- values as they are written --------------------------------------------------------------

  /** Spaces and tabs. */
  predicate Blank(s: string) {
    forall i | 0 <= i < |s| :: s[i] == ' ' || s[i] == '\t'
  }

  /** What may stand before a character: white space or nothing, or a fold, which is a line end with white
      space after it and perhaps before it. */
  datatype Gap = Space(white: string) | Fold(before: string, crlf: bool, after: string)

  predicate ProperGap(g: Gap) {
    match g
    case Space(white) => Blank(white)
    case Fold(before, _, after) => Blank(before) && Blank(after) && after != ""
  }

  function GapText(g: Gap): string {
    match g
    case Space(white) => white
    case Fold(before, crlf, after) => before + (if crlf then "\r\n" else "\n") + after
  }

  /** A printable character of ASCII, or any other character in UTF-8. */
  ghost predicate Visible(c: string) {
    (|c| == 1 && 33 <= c[0] as int <= 126) || exists cp: nat | IsWide(cp) :: c == Encoded(cp)
  }

  datatype Item = Item(gap: Gap, character: string)

  ghost predicate ProperItem(i: Item) {
    ProperGap(i.gap) && Visible(i.character)
  }

  function ItemsText(items: seq<Item>): string {
    if items == [] then "" else GapText(items[0].gap) + items[0].character + ItemsText(items[1..])
  }

  // ----- what is written so is taken -------------------------------------------------------------

  lemma {:induction false} BlankIsWsps(w: string, t: string)
    requires Blank(w) && (t == "" || !IsWsp(t[0]))
    ensures Wsps(w + t) == |w|
  {
    if w == "" {
      assert w + t == t;
    } else {
      assert (w + t)[0] == w[0] && (w + t)[1..] == w[1..] + t;
      BlankIsWsps(w[1..], t);
    }
  }

  /** The front of a text after a gap: a character. */
  predicate Starts(t: string) {
    t != "" && !IsWsp(t[0]) && t[0] != '\r' && t[0] != '\n'
  }

  lemma GapIsFws(g: Gap, t: string)
    requires ProperGap(g) && Starts(t)
    ensures Fws(GapText(g) + t) == |GapText(g)|
  {
    hide Wsps;
    var s := GapText(g) + t;
    match g
    case Space(white) =>
      BlankIsWsps(white, t);
      assert s[|white|..] == t;
      assert Eol(t) == 0;
    case Fold(before, crlf, after) =>
      FoldIsFws(before, if crlf then "\r\n" else "\n", after, t);
      assert s == before + (if crlf then "\r\n" else "\n") + after + t;
  }

  lemma FoldIsFws(before: string, e: string, after: string, t: string)
    requires Blank(before) && Blank(after) && after != "" && Starts(t) && (e == "\n" || e == "\r\n")
    ensures Fws(before + e + after + t) == |before + e + after|
  {
    hide Wsps, Blank;
    var s, rest := before + e + after + t, after + t;
    assert s == before + (e + rest);
    BlankIsWsps(before, e + rest);
    assert s[|before|..] == e + rest && Eol(e + rest) == |e|;
    assert s[|before| + |e|..] == rest;
    BlankIsWsps(after, t);
  }

  lemma VisibleIsVuchar(c: string, t: string)
    requires Visible(c)
    ensures c != "" && Vuchar(c + t) == |c| && Starts(c + t)
  {
    if !(|c| == 1 && 33 <= c[0] as int <= 126) {
      var cp: nat :| IsWide(cp) && c == Encoded(cp);
      WideIsVuchar(cp, t);
    }
  }

  lemma WideIsVuchar(cp: nat, t: string)
    requires IsWide(cp)
    ensures Vuchar(Encoded(cp) + t) == |Encoded(cp)| && Starts(Encoded(cp) + t)
  {
    hide Encoded, Mailbox.NonAscii;
    var s := Encoded(cp) + t;
    EncodedIsTaken(cp, t);
    Mailbox.NonAsciiOctets(s);
    assert Mailbox.In(s[0], 0x80, 0xFF);
  }

  lemma {:induction false} ItemsAreChars(items: seq<Item>, tail: string)
    requires (forall i | i in items :: ProperItem(i)) && Blank(tail)
    ensures Chars(ItemsText(items) + tail) == |ItemsText(items)|
  {
    hide Chars, ProperItem, Blank;
    var s := ItemsText(items) + tail;
    if items == [] {
      assert s == tail;
      BlankIsWsps(tail, "");
      assert tail + "" == tail;
      CharsOfWsps(tail);
    } else {
      assert ProperItem(items[0]);
      assert forall i | i in items[1..] :: i in items;
      ItemsAreChars(items[1..], tail);
      var front, rest := GapText(items[0].gap) + items[0].character, ItemsText(items[1..]);
      OneItem(items[0], rest + tail);
      Seqs.Assoc(front, rest, tail);
    }
  }

  lemma OneItem(i: Item, rest: string)
    requires ProperItem(i)
    ensures Chars(GapText(i.gap) + i.character + rest) == |GapText(i.gap) + i.character| + Chars(rest)
  {
    hide Fws, Vuchar, GapText, ProperGap, Visible, Chars;
    var g, c := GapText(i.gap), i.character;
    var s := g + c + rest;
    Seqs.Assoc(g, c, rest);
    VisibleIsVuchar(c, rest);
    GapIsFws(i.gap, c + rest);
    assert s[|g|..] == c + rest && s[|g| + |c|..] == rest;
    CharsStep(s);
  }

  lemma CharsStep(s: string)
    requires Vuchar(s[Fws(s)..]) > 0
    ensures var n := Fws(s) + Vuchar(s[Fws(s)..]); Chars(s) == n + Chars(s[n..])
  {
    hide Fws, Vuchar;
  }

  // ----- what is taken is written so -------------------------------------------------------------

  lemma {:induction false} WspsAreBlank(s: string)
    ensures Blank(s[..Wsps(s)])
  {
    if s != "" && IsWsp(s[0]) {
      WspsAreBlank(s[1..]);
      assert s[..Wsps(s)] == [s[0]] + s[1..][..Wsps(s[1..])];
    }
  }

  lemma FwsIsGap(s: string) returns (g: Gap)
    ensures ProperGap(g) && s[..Fws(s)] == GapText(g)
  {
    hide Wsps;
    var a := Wsps(s);
    var e := Eol(s[a..]);
    WspsAreBlank(s);
    if e == 0 {
      g := Space(s[..a]);
    } else if Wsps(s[a + e..]) == 0 {
      g := Space("");
    } else {
      var b := Wsps(s[a + e..]);
      WspsAreBlank(s[a + e..]);
      g := Fold(s[..a], e == 2, s[a + e..][..b]);
      EolOctets(s[a..]);
      assert s[a..][..e] == s[a..a + e];
      assert s[..a + e + b] == s[..a] + s[a..a + e] + s[a + e..][..b];
    }
  }

  lemma EolOctets(s: string)
    requires Eol(s) > 0
    ensures s[..Eol(s)] == if Eol(s) == 2 then "\r\n" else "\n"
  {}

  lemma VucharIsVisible(s: string)
    requires Vuchar(s) > 0
    ensures Visible(s[..Vuchar(s)])
  {
    hide Mailbox.NonAscii, Encoded;
    if !(33 <= s[0] as int <= 126) {
      var cp := TakenIsEncoded(s);
    }
  }

  lemma {:induction false} CharsAreItems(s: string) returns (items: seq<Item>)
    ensures (forall i | i in items :: ProperItem(i)) && s[..Chars(s)] == ItemsText(items)
    decreases |s|
  {
    hide Fws, Vuchar, GapText, ProperGap, Visible;
    var f := Fws(s);
    var v := Vuchar(s[f..]);
    if v == 0 {
      items := [];
    } else {
      var g := FwsIsGap(s);
      VucharIsVisible(s[f..]);
      var rest := CharsAreItems(s[f + v..]);
      items := [Item(g, s[f..][..v])] + rest;
      assert items[1..] == rest;
      var n := Chars(s[f + v..]);
      assert s[..f + v + n] == s[..f] + s[f..][..v] + s[f + v..][..n];
    }
  }

  // ----- names, values, headers ------------------------------------------------------------------

  ghost predicate Written(v: string, items: seq<Item>, tail: string) {
    (forall i | i in items :: ProperItem(i)) && Blank(tail) && v == ItemsText(items) + tail
  }

  /** The values of the grammar are exactly the texts of visible characters, each after a gap, and white
      space at the end. */
  lemma ValueIff(v: string)
    ensures FieldValue(v) == |v| <==> exists items: seq<Item>, tail: string :: Written(v, items, tail)
  {
    hide Chars, Wsps, ItemsText, ProperItem;
    if FieldValue(v) == |v| {
      var items := CharsAreItems(v);
      var n := Chars(v);
      WspsAreBlank(v[n..]);
      assert v[n..][..Wsps(v[n..])] == v[n..];
      assert v == v[..n] + v[n..];
      assert Written(v, items, v[n..]);
    }
    forall items: seq<Item>, tail: string | Written(v, items, tail)
      ensures FieldValue(v) == |v|
    {
      ItemsAreChars(items, tail);
      assert v[|ItemsText(items)|..] == tail;
      BlankIsWsps(tail, "");
      assert tail + "" == tail;
    }
  }

  /** Printable ASCII without the colon. */
  lemma {:induction false} NameIff(n: string)
    ensures FieldName(n) == |n| <==> forall i | 0 <= i < |n| :: 33 <= n[i] as int <= 126 && n[i] != ':'
  {
    if n != "" {
      NameIff(n[1..]);
      assert forall i | 1 <= i < |n| :: n[i] == n[1..][i - 1];
    }
  }

  /** The headers that come back when they are printed and parsed: a name of printable ASCII other than
      the colon, and a value of visible characters, folded or not. */
  lemma WellFormedIff(h: Header)
    ensures WellFormed(h) <==>
              && h.name != "" && (forall i | 0 <= i < |h.name| :: 33 <= h.name[i] as int <= 126 && h.name[i] != ':')
              && exists items: seq<Item>, tail: string :: Written(h.value, items, tail)
  {
    hide FieldName, FieldValue, Written;
    NameIff(h.name);
    ValueIff(h.value);
  }

  /** A whole message of one folded field, and a body: the fold stays in the value. */
  lemma FoldedFieldParses(name: string, items: seq<Item>, tail: string, body: string)
    requires name != "" && forall i | 0 <= i < |name| :: 33 <= name[i] as int <= 126 && name[i] != ':'
    requires (forall i | i in items :: ProperItem(i)) && Blank(tail) && body != ""
    ensures var v := ItemsText(items) + tail;
            Parse(name + ":" + v + "\r\n" + "\r\n" + body) == Some(Content([Header(name, v)], body))
  {
    hide Parse, WellFormed, Blank, ItemsText, ProperItem;
    var v := ItemsText(items) + tail;
    var h := Header(name, v);
    assert Written(v, items, tail);
    WellFormedIff(h);
    PrintThenParse(Content([h], body));
    assert [h][1..] == [];
    assert HeadersText([h]) == name + ":" + v + "\r\n" + "";
    assert Message.Text(Content([h], body)) == name + ":" + v + "\r\n" + "\r\n" + body;
  }
}
