/** Sending a message with DATA: the client that stuffs dots, the server grammar that takes the
    octets apart, and what arrives. */
module DataTransfer {
  import opened Store
  import opened SmtpSession
  import Seqs

  // ----- the grammar of the server ---------------------------------------------------------------

  predicate CrlfAt(s: Octets, i: nat) {
    i + 1 < |s| && s[i] == '\r' && s[i + 1] == '\n'
  }

  /** The length of the run of octets from the front that are neither CR nor LF. */
  function TextRun(s: Octets): (n: nat)
    ensures n <= |s|
  {
    if s == "" || s[0] == '\r' || s[0] == '\n' then 0 else 1 + TextRun(s[1..])
  }

  /** The position of the first LF, or the length. */
  function FirstLf(s: Octets): (n: nat)
    ensures n <= |s|
  {
    if s == "" || s[0] == '\n' then 0 else 1 + FirstLf(s[1..])
  }

  /** What the grammar finds at the front of the input. */
  datatype Match =
    | DataEnd
    | Blank
    | DotLine(size: nat)
    | PlainLine(size: nat)
    | NotDataEnd
    | Anything(size: nat)
    | NoMatch

  const MAX_TEXT := 998

  /** The alternatives in the order of the rules: data_end first, then the lines. */
  function MatchLine(s: Octets): (m: Match)
    ensures m.DotLine? ==> 1 <= m.size <= |s|
    ensures m.PlainLine? || m.Anything? ==> 0 < m.size <= |s|
    ensures m.DataEnd? ==> |s| >= 3
    ensures m.Blank? ==> |s| >= 2
  {
    if |s| > 0 && s[0] == '.' && CrlfAt(s, 1) then DataEnd
    else if CrlfAt(s, 0) then Blank
    else if |s| > 0 && s[0] == '.' && 1 <= TextRun(s[1..]) <= MAX_TEXT && CrlfAt(s, 1 + TextRun(s[1..]))
    then DotLine(TextRun(s[1..]) + 3)
    else if 1 <= TextRun(s) <= MAX_TEXT && CrlfAt(s, TextRun(s)) then PlainLine(TextRun(s) + 2)
    else if |s| > 1 && s[0] == '.' && s[1] == '\n' then NotDataEnd
    else if FirstLf(s) < |s| then Anything(FirstLf(s) + 1)
    else NoMatch
  }

  function Max(a: nat, b: nat): nat {
    if a < b then b else a
  }

  /** How many octets the rule for a run of text and a line end looks at. */
  function RunLooks(s: Octets): nat {
    var n := TextRun(s);
    if n == 0 then 1 else if n > MAX_TEXT then MAX_TEXT + 1 else n + 2
  }

  /** How many octets the rules look at until one matches or all have failed. */
  function Looks(s: Octets): nat {
    var dot := |s| > 0 && s[0] == '.';
    var dotted := if dot then Max(3, 1 + RunLooks(s[1..])) else 2;
    var plain := Max(dotted, RunLooks(s));
    match MatchLine(s)
    case DataEnd => 3
    case Blank => 2
    case DotLine(_) => dotted
    case PlainLine(_) => plain
    case NotDataEnd => plain
    case _ => Max(plain, FirstLf(s) + 1)
  }

  /** The pieces that are written to the message, how the data ends, and the input that is left. */
  datatype Parsed = Parsed(pieces: seq<Octets>, ending: DataEnding, rest: Octets)

  predicate IsLine(m: Match) {
    m.Blank? || m.DotLine? || m.PlainLine? || m.Anything?
  }

  /** How many octets a line takes. */
  function LineSize(s: Octets): (n: nat)
    ensures n <= |s| && (IsLine(MatchLine(s)) ==> 0 < n)
  {
    match MatchLine(s)
    case DotLine(n) => n
    case PlainLine(n) => n
    case Anything(n) => n
    case Blank => 2
    case _ => 0
  }

  /** What the action of the matched rule writes: a stuffed dot is taken away from a line that
      matches the strict rule, every other line is kept as it is. */
  function Piece(s: Octets): Octets {
    if MatchLine(s).DotLine? then s[1..LineSize(s)] else s[..LineSize(s)]
  }

  /** The buffer of the parser holds bfr octets of a line; looking further throws. */
  function ParseData(s: Octets, bfr: nat): Parsed
    decreases |s|
  {
    if Looks(s) > bfr then Parsed([], Overflow, if bfr <= |s| then s[bfr..] else "")
    else
      match MatchLine(s)
      case DataEnd => Parsed([], FinalDot, s[3..])
      case NotDataEnd => Parsed([], BareLf, s)
      case NoMatch => Parsed([], Fault, "")
      case _ =>
        var p := ParseData(s[LineSize(s)..], bfr);
        Parsed([Piece(s)] + p.pieces, p.ending, p.rest)
  }

  /** How a fault shows: as an error unless the connection was cut. */
  function Ending(e: DataEnding, cut: bool): DataEnding {
    if e == Fault && cut then Cut else e
  }

  /** The DATA command of the server on the input of the connection. */
  method DataAct(session: Session, input: Octets, headers: Octets, bfr: nat, cut: bool) returns (rest: Octets)
    requires session.Valid()
    modifies session.Repr()
    ensures var p := ParseData(input, bfr);
            session.View() == DataOp(old(session.View()), headers, p.pieces, Ending(p.ending, cut))
    ensures session.Valid() && fresh(session.Repr() - old(session.Repr()))
    ensures rest == if DataStartOp(old(session.View()), headers).0 then ParseData(input, bfr).rest else input
  {
    hide Inv, LogRight, ParseData, MsgWriteOp, DataDoneOp, MatchLine, Looks, MsgNewOp, Piece, MsgWritesOp;
    ghost var start := session.View();
    DataInv(start, headers, ParseData(input, bfr).pieces, Ending(ParseData(input, bfr).ending, cut));
    var ok := session.DataStart(headers);
    rest := input;
    if !ok {
      return;
    }
    ghost var t, done: seq<Octets> := session.View(), [];
    StartInv(start, headers);
    ghost var written := t;
    StartParsing(input, bfr);
    NoWrites(t);
    while true
      invariant session.Repr() == {session, session.msg} && session.msg != null
      invariant fresh(session.Repr() - old(session.Repr()))
      invariant Inv(session.View()) && session.View().step == Data && session.View().store.Some?
      invariant session.View() == MsgWritesOp(t, ByData, done)
      invariant ParsedSoFar(input, bfr, done, rest)
      decreases |rest|
    {
      ParseStep(input, bfr, done, rest);
      if Looks(rest) > bfr {
        rest := if bfr <= |rest| then rest[bfr..] else "";
        session.Reply(421);
        return;
      }
      if MatchLine(rest).DataEnd? {
        rest := rest[3..];
        session.DataDone();
        return;
      } else if MatchLine(rest).NotDataEnd? {
        session.Reply(554);
        session.exited := true;
        return;
      } else if MatchLine(rest).NoMatch? {
        rest := "";
        if !cut {
          session.Reply(421);
        }
        return;
      }
      WritesSnoc(t, ByData, done, Piece(rest));
      MsgWriteInv(session.View(), ByData, Piece(rest));
      done := done + [Piece(rest)];
      rest := ActOnLine(session, rest);
    }
  }

  /** The actions of the rules that match a line: each writes its octets to the message. */
  method ActOnLine(session: Session, input: Octets) returns (rest: Octets)
    requires IsLine(MatchLine(input))
    modifies session.Repr()
    ensures session.View() == MsgWriteOp(old(session.View()), ByData, Piece(input)).1
    ensures session.msg == old(session.msg) && rest == input[LineSize(input)..]
  {
    hide MatchLine, MsgWriteOp;
    MatchSizes(input);
    var m := MatchLine(input);
    if m.Blank? {
      var _ := session.MsgWrite(ByData, "\r\n");
      rest := input[2..];
    } else if m.DotLine? {
      var _ := session.MsgWrite(ByData, input[1..m.size]);
      rest := input[m.size..];
    } else {
      var _ := session.MsgWrite(ByData, input[..m.size]);
      rest := input[m.size..];
    }
  }

  lemma NoWrites(s: State)
    ensures MsgWritesOp(s, ByData, []) == s
  {}

  lemma StartInv(s: State, headers: Octets)
    requires Inv(s) && DataStartOp(s, headers).0
    ensures var t := DataStartOp(s, headers).1;
            Inv(t) && t.step == Data && t.store.Some?
  {
    MsgNewInv(s, headers);
    ReplyInv(MsgNewOp(s, headers), 354);
  }

  ghost predicate ParsedSoFar(input: Octets, bfr: nat, done: seq<Octets>, rest: Octets) {
    var p := ParseData(rest, bfr);
    ParseData(input, bfr) == Parsed(done + p.pieces, p.ending, p.rest)
  }

  lemma StartParsing(input: Octets, bfr: nat)
    ensures ParsedSoFar(input, bfr, [], input)
  {
    assert [] + ParseData(input, bfr).pieces == ParseData(input, bfr).pieces;
  }

  lemma ParseStep(input: Octets, bfr: nat, done: seq<Octets>, rest: Octets)
    requires ParsedSoFar(input, bfr, done, rest)
    ensures Looks(rest) > bfr ==>
              ParseData(input, bfr) == Parsed(done, Overflow, if bfr <= |rest| then rest[bfr..] else "")
    ensures Looks(rest) <= bfr && MatchLine(rest).DataEnd? ==>
              |rest| >= 3 && ParseData(input, bfr) == Parsed(done, FinalDot, rest[3..])
    ensures Looks(rest) <= bfr && MatchLine(rest).NotDataEnd? ==>
              ParseData(input, bfr) == Parsed(done, BareLf, rest)
    ensures Looks(rest) <= bfr && MatchLine(rest).NoMatch? ==>
              ParseData(input, bfr) == Parsed(done, Fault, "")
    ensures Looks(rest) <= bfr && IsLine(MatchLine(rest)) ==>
              ParsedSoFar(input, bfr, done + [Piece(rest)], rest[LineSize(rest)..])
  {
    hide MatchLine, Looks;
    if Looks(rest) <= bfr && IsLine(MatchLine(rest)) {
      Seqs.Assoc(done, [Piece(rest)], ParseData(rest[LineSize(rest)..], bfr).pieces);
    } else {
      assert done + [] == done;
    }
  }

  lemma MatchSizes(s: Octets)
    ensures var m := MatchLine(s);
            && (m.DotLine? ==> 1 <= m.size <= |s| && Piece(s) == s[1..m.size] && LineSize(s) == m.size)
            && (m.PlainLine? || m.Anything? ==> 0 < m.size <= |s| && Piece(s) == s[..m.size] && LineSize(s) == m.size)
            && (m.Blank? ==> |s| >= 2 && Piece(s) == "\r\n" && LineSize(s) == 2)
  {}

  lemma {:induction false} WritesSnoc(s: State, via: Kind, pieces: seq<Octets>, more: Octets)
    ensures MsgWritesOp(s, via, pieces + [more]) == MsgWriteOp(MsgWritesOp(s, via, pieces), via, more).1
    decreases |pieces|
  {
    hide MsgWriteOp;
    if pieces == [] {
      assert [more][1..] == [];
      assert [] + [more] == [more];
    } else {
      assert (pieces + [more])[1..] == pieces[1..] + [more];
      WritesSnoc(MsgWriteOp(s, via, pieces[0]).1, via, pieces[1..], more);
    }
  }

  // ----- the client ------------------------------------------------------------------------------

  predicate EndsInCr(line: Octets) {
    line != "" && line[|line| - 1] == '\r'
  }

  /** One line as the client sends it: a leading dot doubled, and CR LF at the end. */
  function Sent(line: Octets): Octets {
    (if line != "" && line[0] == '.' then "." else "") + line + (if EndsInCr(line) then "\n" else "\r\n")
  }

  /** The first line of a message without its LF, and what follows it. */
  function GetLine(m: Octets): (Octets, Octets) {
    var k := FirstLf(m);
    (m[..k], if k < |m| then m[k + 1..] else "")
  }

  /** All the lines of a message as the client sends them. */
  function SentAll(m: Octets): Octets
    decreases |m|
  {
    if m == "" then "" else Sent(GetLine(m).0) + SentAll(GetLine(m).1)
  }

  /** The loop of the client over the lines of the message, and the final dot. */
  method DoData(m: Octets) returns (wire: Octets)
    ensures wire == SentAll(m) + ".\r\n"
  {
    hide FirstLf, Sent;
    wire := "";
    var left := m;
    while left != ""
      invariant SentAll(m) == wire + SentAll(left)
      decreases |left|
    {
      var (line, after) := GetLine(left);
      ghost var before := wire;
      if |line| > 0 && line[0] == '.' {
        wire := wire + ".";
      }
      wire := wire + line;
      if !EndsInCr(line) {
        wire := wire + "\r";
      }
      wire := wire + "\n";
      SentInParts(before, line);
      Seqs.Assoc(before, Sent(line), SentAll(after));
      left := after;
    }
    wire := wire + ".\r\n";
  }

  lemma SentInParts(before: Octets, line: Octets)
    ensures var dotted := if |line| > 0 && line[0] == '.' then before + "." else before;
            var ended := if EndsInCr(line) then dotted + line else dotted + line + "\r";
            ended + "\n" == before + Sent(line)
  {
    if |line| > 0 && line[0] == '.' {
      assert before + "." + line == before + ("." + line);
    }
  }

  // ----- what arrives ----------------------------------------------------------------------------

  /** A line without the CR at its end. */
  function Body(line: Octets): Octets {
    if EndsInCr(line) then line[..|line| - 1] else line
  }

  /** A line keeps its stuffed dot when it does not match the strict rule. */
  predicate KeepsDot(line: Octets) {
    var b := Body(line);
    b != "" && b[0] == '.' && (|b| > MAX_TEXT || '\r' in b)
  }

  /** What is written to the message for one line. */
  function Received(line: Octets): Octets {
    (if KeepsDot(line) then "." else "") + Body(line) + "\r\n"
  }

  function Arrives(m: Octets): Octets
    decreases |m|
  {
    if m == "" then "" else Received(GetLine(m).0) + Arrives(GetLine(m).1)
  }

  lemma {:induction false} TextRunIs(b: Octets, tail: Octets)
    requires '\n' !in b && (tail == "" || tail[0] == '\r')
    ensures '\r' !in b ==> TextRun(b + tail) == |b|
    ensures '\r' in b ==> var k := TextRun(b + tail); k < |b| && b[k] == '\r'
  {
    if b == "" {
      assert b + tail == tail;
    } else {
      assert (b + tail)[1..] == b[1..] + tail;
      assert (b + tail)[0] == b[0];
      if b[0] != '\r' {
        TextRunIs(b[1..], tail);
        assert '\r' in b <==> '\r' in b[1..];
      }
    }
  }

  lemma {:induction false} FirstLfIs(b: Octets, tail: Octets)
    requires '\n' !in b
    ensures FirstLf(b + "\n" + tail) == |b|
  {
    var t := b + "\n" + tail;
    if b == "" {
      assert t[0] == '\n';
    } else {
      assert t[1..] == b[1..] + "\n" + tail && t[0] == b[0];
      FirstLfIs(b[1..], tail);
    }
  }

  /** A CR inside the body of a line is not followed by a LF. */
  lemma NoCrlfInside(b: Octets, tail: Octets, k: nat)
    requires '\n' !in b && k < |b|
    ensures !CrlfAt(b + "\r\n" + tail, k)
  {
    var t := b + "\r\n" + tail;
    assert t[k + 1] == if k + 1 < |b| then b[k + 1] else '\r';
  }

  /** What the grammar makes of a body without a leading dot. */
  lemma MatchBody(b: Octets, tail: Octets)
    requires '\n' !in b && (b == "" || b[0] != '.')
    ensures var t := b + "\r\n" + tail;
            IsLine(MatchLine(t)) && !MatchLine(t).DotLine? && LineSize(t) == |b| + 2
  {
    var t, crlf := b + "\r\n" + tail, "\r\n" + tail;
    Seqs.Assoc(b, "\r\n", tail);
    TextRunIs(b, crlf);
    assert t == (b + "\r") + "\n" + tail;
    FirstLfIs(b + "\r", tail);
    assert CrlfAt(t, |b|);
    if b != "" {
      NoCrlfInside(b, tail, 0);
      assert t[0] == b[0];
      if '\r' in b {
        NoCrlfInside(b, tail, TextRun(t));
      }
    }
  }

  /** What the grammar makes of a body with its leading dot doubled. */
  lemma MatchDotted(b: Octets, tail: Octets)
    requires '\n' !in b && b != "" && b[0] == '.'
    ensures var t := "." + b + "\r\n" + tail;
            && LineSize(t) == |b| + 3
            && (if |b| > MAX_TEXT || '\r' in b then MatchLine(t).Anything? else MatchLine(t).DotLine?)
  {
    var t, u, crlf := "." + b + "\r\n" + tail, b + "\r\n" + tail, "\r\n" + tail;
    assert t[0] == '.' && t[1] == '.' && t[1..] == u;
    Seqs.Assoc(b, "\r\n", tail);
    TextRunIs(b, crlf);
    assert TextRun(t) == 1 + TextRun(u);
    assert t == ("." + b + "\r") + "\n" + tail;
    FirstLfIs("." + b + "\r", tail);
    assert CrlfAt(u, |b|) && CrlfAt(t, |b| + 1);
    if '\r' in b {
      NoCrlfInside(b, tail, TextRun(u));
      assert CrlfAt(t, 1 + TextRun(u)) == CrlfAt(u, TextRun(u));
    }
  }

  lemma RunLooksBound(b: Octets, tail: Octets)
    requires '\n' !in b
    ensures var t := b + "\r\n" + tail;
            && RunLooks(t) <= |b| + 2
            && ('\r' !in b && 1 <= |b| <= MAX_TEXT ==> RunLooks(t) == |b| + 2)
            && (MatchLine(t).PlainLine? ==> RunLooks(t) == LineSize(t))
  {
    TextRunIs(b, "\r\n" + tail);
    Seqs.Assoc(b, "\r\n", tail);
  }

  /** The rules look at a sent line and no further. */
  lemma LooksAtLine(line: Octets, tail: Octets)
    requires '\n' !in line
    ensures Looks(Sent(line) + tail) == |Sent(line)|
  {
    hide MatchLine, RunLooks;
    var b := Body(line);
    var t := Sent(line) + tail;
    if b != "" && b[0] == '.' {
      assert Sent(line) == "." + b + "\r\n";
      LooksDotted(b, tail);
    } else {
      assert Sent(line) == b + "\r\n";
      LooksPlain(b, tail);
    }
  }

  lemma LooksPlain(b: Octets, tail: Octets)
    requires '\n' !in b && (b == "" || b[0] != '.')
    ensures Looks(b + "\r\n" + tail) == |b| + 2
  {
    hide RunLooks;
    MatchBody(b, tail);
    RunLooksBound(b, tail);
    LfOfLine(b, tail);
  }

  lemma LooksDotted(b: Octets, tail: Octets)
    requires '\n' !in b && b != "" && b[0] == '.'
    ensures Looks("." + b + "\r\n" + tail) == |b| + 3
  {
    hide RunLooks;
    var t := "." + b + "\r\n" + tail;
    MatchDotted(b, tail);
    RunLooksBound(b, tail);
    RunLooksBound("." + b, tail);
    LfOfLine("." + b, tail);
    assert t[1..] == b + "\r\n" + tail;
  }

  lemma LfOfLine(b: Octets, tail: Octets)
    requires '\n' !in b
    ensures FirstLf(b + "\r\n" + tail) == |b| + 1
  {
    FirstLfIs(b + "\r", tail);
    assert b + "\r\n" + tail == (b + "\r") + "\n" + tail;
  }

  /** The server takes exactly one sent line and writes what is received of it. */
  lemma LineReceived(line: Octets, tail: Octets)
    requires '\n' !in line
    ensures var t := Sent(line) + tail;
            && IsLine(MatchLine(t)) && LineSize(t) == |Sent(line)|
            && Piece(t) == Received(line) && t[LineSize(t)..] == tail
  {
    hide MatchLine;
    var b := Body(line);
    var t := Sent(line) + tail;
    if b != "" && b[0] == '.' {
      assert Sent(line) == "." + b + "\r\n";
      MatchDotted(b, tail);
    } else {
      assert Sent(line) == b + "\r\n";
      MatchBody(b, tail);
    }
    assert t[..|Sent(line)|] == Sent(line) && t[|Sent(line)|..] == tail;
    assert t[1..|Sent(line)|] == Sent(line)[1..];
  }

  lemma {:induction false} FirstLfFacts(m: Octets)
    ensures '\n' !in m[..FirstLf(m)]
    ensures FirstLf(m) < |m| ==> m[FirstLf(m)] == '\n'
  {
    if m != "" && m[0] != '\n' {
      FirstLfFacts(m[1..]);
      var k := FirstLf(m[1..]);
      assert m[..k + 1] == [m[0]] + m[1..][..k];
    }
  }

  /** Each line as it is sent, and the final dot, fit the buffer of the parser. */
  predicate AllFit(m: Octets, bfr: nat)
    decreases |m|
  {
    if m == "" then 3 <= bfr else |Sent(GetLine(m).0)| <= bfr && AllFit(GetLine(m).1, bfr)
  }

  /** For every message and every buffer: when all the lines fit, the server stops at the final dot and
      never before, leaves the input that follows, and writes what arrives of each line; otherwise
      it runs into the end of its buffer. */
  lemma {:induction false} DataArrives(m: Octets, rest: Octets, bfr: nat)
    ensures var p := ParseData(SentAll(m) + ".\r\n" + rest, bfr);
            if AllFit(m, bfr) then p.ending == FinalDot && p.rest == rest && Concat(p.pieces) == Arrives(m)
            else p.ending == Overflow
    decreases |m|
  {
    hide ParseData, SentAll, Sent, Received, Arrives, AllFit, GetLine, FirstLf, LineSize, Piece, Concat;
    if m == "" {
      NothingSent();
      assert "" + ".\r\n" + rest == ".\r\n" + rest;
      FinalDotParses(rest, bfr);
    } else {
      var (line, after) := GetLine(m);
      GetLineFacts(m);
      SentStep(m);
      var tail := SentAll(after) + ".\r\n" + rest;
      Seqs.Assoc(Sent(line), SentAll(after), ".\r\n");
      Seqs.Assoc(Sent(line), SentAll(after) + ".\r\n", rest);
      LineParses(line, tail, bfr);
      DataArrives(after, rest, bfr);
      ConcatStep(Received(line), ParseData(tail, bfr).pieces);
    }
  }

  lemma GetLineFacts(m: Octets)
    requires m != ""
    ensures '\n' !in GetLine(m).0 && |GetLine(m).1| < |m|
  {
    FirstLfFacts(m);
  }

  lemma SentStep(m: Octets)
    requires m != ""
    ensures var (line, after) := GetLine(m);
            && SentAll(m) == Sent(line) + SentAll(after) && Arrives(m) == Received(line) + Arrives(after)
    ensures forall bfr: nat :: AllFit(m, bfr) <==> |Sent(GetLine(m).0)| <= bfr && AllFit(GetLine(m).1, bfr)
  {
    hide Sent, Received, GetLine;
  }

  lemma NothingSent()
    ensures SentAll("") == "" && Arrives("") == "" && Concat([]) == ""
    ensures forall bfr: nat :: AllFit("", bfr) <==> 3 <= bfr
  {}

  lemma ConcatStep(first: Octets, rest: seq<Octets>)
    ensures Concat([first] + rest) == first + Concat(rest)
  {
    assert ([first] + rest)[1..] == rest;
  }

  /** One sent line at the front: the parser takes it, or cannot hold it. */
  lemma LineParses(line: Octets, tail: Octets, bfr: nat)
    requires '\n' !in line
    ensures var p, q := ParseData(Sent(line) + tail, bfr), ParseData(tail, bfr);
            if |Sent(line)| <= bfr then p == Parsed([Received(line)] + q.pieces, q.ending, q.rest)
            else p.ending == Overflow
  {
    hide MatchLine, Looks, Sent, Received, LineSize, Piece;
    LineReceived(line, tail);
    LooksAtLine(line, tail);
  }

  lemma FinalDotParses(rest: Octets, bfr: nat)
    ensures var p := ParseData(".\r\n" + rest, bfr);
            if 3 <= bfr then p == Parsed([], FinalDot, rest) else p.ending == Overflow
  {
    hide MatchLine, Looks;
    FinalDotMatches(rest);
  }

  // ----- a transfer that is cut ------------------------------------------------------------------

  lemma {:induction false} NoLf(s: Octets)
    requires '\n' !in s
    ensures FirstLf(s) == |s|
  {
    if s != "" {
      NoLf(s[1..]);
    }
  }

  /** An input without a LF is not a line yet. */
  lemma NoLfFails(s: Octets, bfr: nat)
    requires '\n' !in s
    ensures ParseData(s, bfr).ending == Fault || ParseData(s, bfr).ending == Overflow
  {
    hide Looks, TextRun;
    NoLf(s);
    assert forall i | 0 <= i < |s| :: s[i] != '\n';
    assert MatchLine(s) == NoMatch;
  }

  /** A piece of a sent line that is not all of it has no LF. */
  lemma PartOfLine(line: Octets, k: nat)
    requires '\n' !in line && k < |Sent(line)|
    ensures '\n' !in Sent(line)[..k]
  {
    assert forall i | 0 <= i < |Sent(line)| - 1 :: Sent(line)[i] != '\n';
  }

  /** When the text that the client sends is cut before its end, the server does not come to a final
      dot: it runs out of input, or of its buffer. */
  lemma {:induction false} CutFails(m: Octets, k: nat, bfr: nat)
    requires k < |SentAll(m)| + 3
    ensures var e := ParseData((SentAll(m) + ".\r\n")[..k], bfr).ending;
            e == Fault || e == Overflow
    decreases |m|
  {
    hide ParseData, SentAll, Sent, Received, Arrives, AllFit, GetLine, FirstLf, Concat;
    if m == "" {
      NothingSent();
      assert (".\r\n")[..k] == ""[..0] || (".\r\n")[..k] == "." || (".\r\n")[..k] == ".\r";
      assert "" + ".\r\n" == ".\r\n";
      NoLfFails(".\r\n"[..k], bfr);
    } else {
      var (line, after) := GetLine(m);
      GetLineFacts(m);
      SentStep(m);
      var n := |Sent(line)|;
      Seqs.Assoc(Sent(line), SentAll(after), ".\r\n");
      var tail := SentAll(after) + ".\r\n";
      if k < n {
        assert (Sent(line) + tail)[..k] == Sent(line)[..k];
        PartOfLine(line, k);
        NoLfFails(Sent(line)[..k], bfr);
      } else {
        assert (Sent(line) + tail)[..k] == Sent(line) + tail[..k - n];
        LineParses(line, tail[..k - n], bfr);
        CutFails(after, k - n, bfr);
      }
    }
  }

  lemma FinalDotMatches(rest: Octets)
    ensures MatchLine(".\r\n" + rest).DataEnd? && (".\r\n" + rest)[3..] == rest
    ensures Looks(".\r\n" + rest) == 3
  {}

  // ----- when a message arrives unchanged --------------------------------------------------------

  /** Every line ends in CR LF, and a line that starts with a dot has at most 998 octets before it
      and no other CR. */
  predicate LinesKept(m: Octets)
    decreases |m|
  {
    m == "" ||
    var (line, after) := GetLine(m);
    FirstLf(m) < |m| && EndsInCr(line) && !KeepsDot(line) && LinesKept(after)
  }

  /** And every line fits the buffer of the parser as it is sent. */
  predicate Transparent(m: Octets, bfr: nat) {
    LinesKept(m) && AllFit(m, bfr)
  }

  lemma GetLineParts(m: Octets)
    requires m != ""
    ensures FirstLf(m) < |m| ==> m == GetLine(m).0 + "\n" + GetLine(m).1
    ensures FirstLf(m) == |m| ==> m == GetLine(m).0 && GetLine(m).1 == ""
  {
    hide FirstLf;
    FirstLfFacts(m);
    var k := FirstLf(m);
    if k < |m| {
      SplitAt(m, k, "\n");
    } else {
      assert m[..k] == m;
    }
  }

  lemma SplitAt(m: Octets, k: nat, c: Octets)
    requires k < |m| && c == [m[k]]
    ensures m == m[..k] + c + m[k + 1..]
  {}

  lemma {:induction false} NothingIsLost(m: Octets)
    ensures |Arrives(m)| >= |m|
    decreases |m|
  {
    if m != "" {
      GetLineParts(m);
      NothingIsLost(GetLine(m).1);
    }
  }

  lemma {:induction false} LinesKeptIff(m: Octets)
    ensures Arrives(m) == m <==> LinesKept(m)
    decreases |m|
  {
    if m != "" {
      hide FirstLf, Received, KeepsDot;
      var (line, after) := GetLine(m);
      GetLineParts(m);
      LinesKeptIff(after);
      NothingIsLost(after);
      ReceivedLine(line);
      var r := Received(line);
      if FirstLf(m) < |m| && EndsInCr(line) && !KeepsDot(line) {
        SamePrefix(r, Arrives(after), after);
      } else {
        assert |r| + |Arrives(after)| > |m|;
      }
    }
  }

  /** A line arrives with its CR LF as it was, or longer. */
  lemma ReceivedLine(line: Octets)
    ensures EndsInCr(line) && !KeepsDot(line) ==> Received(line) == line + "\n"
    ensures !(EndsInCr(line) && !KeepsDot(line)) ==> |Received(line)| > |line| + 1
    ensures |Received(line)| > |line|
  {}

  lemma SamePrefix(a: Octets, b: Octets, c: Octets)
    ensures a + b == a + c <==> b == c
  {
    assert (a + b)[|a|..] == b && (a + c)[|a|..] == c;
  }

  /** The server comes to the final dot with exactly the octets of the message exactly when these meet
      the condition on their lines. */
  lemma ArrivesUnchangedIff(m: Octets, rest: Octets, bfr: nat)
    ensures var p := ParseData(SentAll(m) + ".\r\n" + rest, bfr);
            p.ending == FinalDot && Concat(p.pieces) == m <==> Transparent(m, bfr)
  {
    hide ParseData, Arrives, LinesKept, AllFit;
    DataArrives(m, rest, bfr);
    LinesKeptIff(m);
  }

  /** Lines that each end in CR LF. */
  function Joined(lines: seq<Octets>): Octets {
    if lines == [] then "" else lines[0] + "\r\n" + Joined(lines[1..])
  }

  /** A line that a buffer of bfr octets can hold as it is sent and, if it starts with a dot, that is a
      text line in the sense of section 4.5.3.1.6 of RFC 5321. */
  predicate Kept(line: Octets, bfr: nat) {
    && '\n' !in line
    && (if line != "" && line[0] == '.'
        then '\r' !in line && |line| <= 998 && |line| + 3 <= bfr
        else |line| + 2 <= bfr)
  }

  /** The messages that come to the server unchanged are exactly the sequences of such lines. */
  lemma TransparentIff(m: Octets, rest: Octets, bfr: nat)
    ensures var p := ParseData(SentAll(m) + ".\r\n" + rest, bfr);
            p.ending == FinalDot && Concat(p.pieces) == m <==>
              3 <= bfr && exists lines: seq<Octets> ::
                m == Joined(lines) && forall k | 0 <= k < |lines| :: Kept(lines[k], bfr)
  {
    hide ParseData, LinesKept, AllFit, SentAll, Concat, Joined, Kept;
    ArrivesUnchangedIff(m, rest, bfr);
    if Transparent(m, bfr) {
      LinesOfKept(m, bfr);
    }
    if 3 <= bfr {
      forall lines: seq<Octets> | m == Joined(lines) && forall k | 0 <= k < |lines| :: Kept(lines[k], bfr)
        ensures Transparent(m, bfr)
      {
        KeptLines(lines, bfr);
      }
    }
  }

  /** Lines without CR and LF and of at most 998 octets arrive unchanged. */
  lemma TextArrives(lines: seq<Octets>, rest: Octets, bfr: nat)
    requires forall k | 0 <= k < |lines| :: '\r' !in lines[k] && '\n' !in lines[k] && |lines[k]| <= 998
    requires 1001 <= bfr
    ensures var p := ParseData(SentAll(Joined(lines)) + ".\r\n" + rest, bfr);
            p.ending == FinalDot && Concat(p.pieces) == Joined(lines) && p.rest == rest
  {
    hide ParseData, LinesKept, AllFit, SentAll, Concat, Joined;
    KeptLines(lines, bfr);
    ArrivesUnchangedIff(Joined(lines), rest, bfr);
    DataArrives(Joined(lines), rest, bfr);
  }

  lemma {:induction false} KeptLines(lines: seq<Octets>, bfr: nat)
    requires 3 <= bfr && forall k | 0 <= k < |lines| :: Kept(lines[k], bfr)
    ensures Transparent(Joined(lines), bfr)
  {
    if lines != [] {
      hide FirstLf, LinesKept, AllFit, Kept;
      KeptLines(lines[1..], bfr);
      assert Kept(lines[0], bfr);
      FrontLine(lines[0], Joined(lines[1..]));
      LineKept(lines[0], bfr);
      TransparentStep(Joined(lines), bfr);
    } else {
      assert Joined(lines) == "";
    }
  }

  lemma FrontLine(line: Octets, after: Octets)
    requires '\n' !in line
    ensures var m := line + "\r\n" + after;
            m != "" && FirstLf(m) == |line| + 1 && GetLine(m) == (line + "\r", after)
  {
    hide FirstLf;
    LfOfLine(line, after);
    var m := line + "\r\n" + after;
    assert m[..|line| + 1] == line + "\r" && m[|line| + 2..] == after;
  }

  lemma TransparentStep(m: Octets, bfr: nat)
    requires m != ""
    ensures var (line, after) := GetLine(m);
            Transparent(m, bfr) <==>
              && FirstLf(m) < |m| && EndsInCr(line) && !KeepsDot(line) && |Sent(line)| <= bfr
              && Transparent(after, bfr)
  {
    hide KeepsDot, Sent, EndsInCr, FirstLf;
  }

  lemma LineKept(line: Octets, bfr: nat)
    ensures EndsInCr(line + "\r") && Body(line + "\r") == line
    ensures '\n' !in line ==>
              (Kept(line, bfr) <==> !KeepsDot(line + "\r") && |Sent(line + "\r")| <= bfr)
  {}

  /** The lines of a message without their CR LF. */
  ghost function LinesOf(m: Octets): seq<Octets>
    decreases |m|
  {
    if m == "" then [] else [Body(GetLine(m).0)] + LinesOf(GetLine(m).1)
  }

  lemma {:induction false} LinesOfKept(m: Octets, bfr: nat)
    requires Transparent(m, bfr)
    ensures 3 <= bfr && m == Joined(LinesOf(m))
    ensures forall k | 0 <= k < |LinesOf(m)| :: Kept(LinesOf(m)[k], bfr)
    decreases |m|
  {
    if m == "" {
      assert AllFit(m, bfr);
    } else {
      hide *;
      GetLineFacts(m);
      var after := GetLine(m).1;
      KeptFront(m, bfr);
      LinesOfKept(after, bfr);
      LinesOfStep(m);
      assert LinesOf(m)[1..] == LinesOf(after);
      JoinedStep(LinesOf(m));
    }
  }

  lemma LinesOfStep(m: Octets)
    requires m != ""
    ensures LinesOf(m) == [Body(GetLine(m).0)] + LinesOf(GetLine(m).1)
  {}

  lemma JoinedStep(lines: seq<Octets>)
    requires lines != []
    ensures Joined(lines) == lines[0] + "\r\n" + Joined(lines[1..])
  {}

  lemma KeptFront(m: Octets, bfr: nat)
    requires m != "" && Transparent(m, bfr)
    ensures var (line, after) := GetLine(m);
            m == Body(line) + "\r\n" + after && Kept(Body(line), bfr) && Transparent(after, bfr)
  {
    hide FirstLf, LinesKept, AllFit, KeepsDot, Sent, Transparent, Kept, GetLine;
    var (line, after) := GetLine(m);
    TransparentStep(m, bfr);
    GetLineFacts(m);
    GetLineParts(m);
    assert Body(line) + "\r" == line;
    LineKept(Body(line), bfr);
    assert Body(line) + "\r\n" == line + "\n";
  }

  // ----- messages that do not arrive unchanged ---------------------------------------------------

  function Letters(n: nat): (s: Octets)
    ensures |s| == n && '\r' !in s && '\n' !in s
  {
    seq(n, _ => 'a')
  }

  lemma OneLine(line: Octets)
    requires '\n' !in line
    ensures GetLine(line + "\r\n") == (line + "\r", "") && FirstLf(line + "\r\n") == |line| + 1
  {
    LfOfLine(line, "");
    assert line + "\r\n" + "" == line + "\r\n";
    assert (line + "\r\n")[..|line| + 1] == line + "\r";
  }

  /** A line of letters that is longer than the buffer: the parser gives up. */
  lemma LongLineFails(n: nat, rest: Octets, bfr: nat)
    requires n + 2 > bfr
    ensures ParseData(SentAll(Letters(n) + "\r\n") + ".\r\n" + rest, bfr).ending == Overflow
  {
    hide FirstLf, ParseData;
    OneLine(Letters(n));
    DataArrives(Letters(n) + "\r\n", rest, bfr);
  }

  /** A dot and 998 letters: the dot that was put before them stays. */
  lemma LongDotLineKeepsDot()
    ensures Arrives("." + Letters(998) + "\r\n") == ".." + Letters(998) + "\r\n"
  {
    hide FirstLf;
    var line := "." + Letters(998);
    OneLine(line);
    assert Body(line + "\r") == line && line[0] == '.';
    assert Arrives("") == "";
    assert "." + line + "\r\n" + "" == ".." + Letters(998) + "\r\n";
  }

  /** A line that ends in a bare LF: it gets a CR. */
  lemma BareLineFeedGetsCr()
    ensures Arrives("a\n") == "a\r\n"
  {
    assert FirstLf("a\n") == 1 && "a\n"[..1] == "a" && "a\n"[2..] == "";
    assert Arrives("") == "";
  }

  // ----- end to end ------------------------------------------------------------------------------

  function Limit(s: State): nat {
    if s.maxWrite == 0 then s.maxMsgSize else s.maxWrite
  }

  /** All that a client sends of a message. */
  function WireText(m: Octets): Octets {
    SentAll(m) + ".\r\n"
  }

  /** What comes through a connection that lets only so many octets through. */
  function Through(s: Octets, room: nat): Octets {
    if room < |s| then s[..room] else s
  }

  /** The server comes to the final dot exactly when all of the text comes through and its lines fit. */
  lemma DataThrough(m: Octets, rest: Octets, bfr: nat, room: nat)
    ensures var w := WireText(m);
            var p := ParseData(Through(w + rest, room), bfr);
            if |w| <= room && AllFit(m, bfr)
            then p.ending == FinalDot && p.rest == Through(rest, room - |w|) && Concat(p.pieces) == Arrives(m)
            else p.ending == Overflow || (p.ending == Fault && room < |w|)
  {
    hide ParseData, AllFit, SentAll, Arrives;
    var w := WireText(m);
    if |w| <= room {
      var more := Through(rest, room - |w|);
      assert Through(w + rest, room) == w + more;
      DataArrives(m, more, bfr);
    } else {
      assert Through(w + rest, room) == w[..room];
      CutFails(m, room, bfr);
    }
  }

  /** A session with accepted recipients that is sent a message by DATA delivers the added headers
      and what arrives of the message to them exactly when all of the text comes through, its lines fit
      the buffer and the whole fits the limit.  Otherwise nothing is delivered: the size is refused,
      the parser gives up, or the server waits for more. */
  lemma DataEndToEnd(s: State, headers: Octets, m: Octets, rest: Octets, bfr: nat, room: nat, cut: bool)
    requires Inv(s) && s.step == Data && !s.binarymime
    ensures var w := WireText(m);
            var p := ParseData(Through(w + rest, room), bfr);
            var t := DataOp(s, headers, p.pieces, Ending(p.ending, cut));
            if |w| <= room && AllFit(m, bfr)
            then
              && p.rest == Through(rest, room - |w|) && t.step == Mail
              && (if |headers| + |Arrives(m)| <= Limit(s)
                  then t.out == s.out + [354, 250] && |t.log| >= 2
                       && t.log[|t.log| - 2] == Delivered(s.reverse.value, s.forward, headers + Arrives(m))
                  else t.out == s.out + [354, 552] && HasNoDelivery(s.log, t.log))
            else
              && HasNoDelivery(s.log, t.log) && t.step == Data
              && (t.out == s.out + [354, 421] || (t.out == s.out + [354] && cut && room < |w|))
  {
    hide Inv, LogRight, ParseData, Arrives, AllFit, WireText, Through;
    DataThrough(m, rest, bfr, room);
    var p := ParseData(Through(WireText(m) + rest, room), bfr);
    InvData(s);
    if |WireText(m)| <= room && AllFit(m, bfr) {
      DataResult(s, headers, p.pieces);
    } else {
      UnfinishedResult(s, headers, p.pieces, Ending(p.ending, cut));
    }
  }

  /** The conditions under which a message is delivered. */
  ghost predicate Deliverable(s: State, headers: Octets, m: Octets, bfr: nat, room: nat) {
    && s.step == Data && !s.binarymime
    && |WireText(m)| <= room && AllFit(m, bfr) && |headers| + |Arrives(m)| <= Limit(s)
  }

  lemma DataRefused(s: State, headers: Octets, pieces: seq<Octets>, ending: DataEnding)
    requires s.step != Data || s.binarymime
    ensures var t := DataOp(s, headers, pieces, ending);
            t.out == s.out + [503] && t.log == s.log
  {
    hide MsgWritesOp, DataDoneOp, MsgNewOp;
  }

  /** The client at one end of the connection and the server at the other: the client succeeds exactly
      when the message is delivered.  When the server waits for more than comes through, it ends. */
  method SendData(session: Session, m: Octets, rest: Octets, bfr: nat, room: nat, headers: Octets)
      returns (ok: bool)
    requires session.Valid()
    modifies session.Repr()
    ensures var s, t := old(session.View()), session.View();
            && (ok <==> Deliverable(s, headers, m, bfr, room))
            && (ok ==> s.reverse.Some? && |t.log| >= 2)
            && (ok ==> t.log[|t.log| - 2] == Delivered(s.reverse.value, s.forward, headers + Arrives(m)))
            && (!ok ==> HasNoDelivery(s.log, t.log))
  {
    hide Inv, LogRight, DataOp, ParseData, SentAll, Arrives, AllFit, Through;
    ghost var s := session.View();
    var before := session.out;
    var wire := DoData(m);
    var cut := room < |wire|;
    ghost var p := ParseData(Through(wire + rest, room), bfr);
    if s.step == Data && !s.binarymime {
      InvData(s);
      DataEndToEnd(s, headers, m, rest, bfr, room, cut);
    } else {
      DataRefused(s, headers, p.pieces, Ending(p.ending, cut));
    }
    var left := DataAct(session, Through(wire + rest, room), headers, bfr, cut);
    ghost var t := session.View();
    if session.out == before + [354] {
      session.MaxOut();
    }
    if session.out[|before|] != 354 {
      return false;
    }
    ok := session.out[|before| + 1] / 100 == 2;
  }

  // ----- the limit on octets read ----------------------------------------------------------------

  /** Lines of a dot each. */
  function DotLines(n: nat): (m: Octets)
    ensures |m| == 3 * n
  {
    if n == 0 then "" else ".\r\n" + DotLines(n - 1)
  }

  lemma {:induction false} DotLinesSent(n: nat)
    ensures |SentAll(DotLines(n))| == 4 * n
  {
    hide SentAll, DotLines;
    if n > 0 {
      DotLinesSent(n - 1);
      OneDotLine(n);
    } else {
      NoDotLines();
    }
  }

  lemma NoDotLines()
    ensures SentAll(DotLines(0)) == ""
  {}

  lemma OneDotLine(n: nat)
    requires n > 0
    ensures |SentAll(DotLines(n))| == 4 + |SentAll(DotLines(n - 1))|
  {
    hide SentAll, GetLine, Arrives, AllFit;
    DotLineFirst(DotLines(n - 1));
    SentStep(DotLines(n));
  }

  lemma DotLineFirst(after: Octets)
    ensures GetLine(".\r\n" + after) == (".\r", after)
  {
    FirstLfIs(".\r", after);
    assert ".\r\n" + after == ".\r" + "\n" + after;
    var m := ".\r\n" + after;
    assert m[..2] == ".\r" && m[3..] == after;
  }

  /** With the sizes that a server starts with, a message may be small enough for the store and still
      have more octets on the wire than may be read: it is never delivered. */
  lemma ReadLimitDecides(s: State, headers: Octets, bfr: nat, room: nat)
    requires s.maxRead == 0 && s.maxWrite == 0 && s.maxMsgSize == MAX_MSG_SIZE_INITIAL
    requires s.readLimit == ReadLimit(s.maxRead, s.maxMsgSize) && room < s.readLimit
    ensures var m := DotLines(4_400_000);
            |m| < Limit(s) && !Deliverable(s, headers, m, bfr, room)
  {
    hide SentAll, DotLines, AllFit, Arrives;
    DotLinesSent(4_400_000);
    SizeOfDotLines(4_400_000);
  }

  lemma SizeOfDotLines(n: nat)
    ensures |DotLines(n)| == 3 * n
  {}

  lemma UnfinishedResult(s: State, headers: Octets, pieces: seq<Octets>, ending: DataEnding)
    requires s.step == Data && !s.binarymime && ending in {Overflow, Fault, Cut}
    ensures var t := DataOp(s, headers, pieces, ending);
            && t.out == s.out + (if ending == Cut then [354] else [354, 421])
            && HasNoDelivery(s.log, t.log) && t.step == Data
  {
    hide MsgWritesOp;
    var t := DataStartOp(s, headers).1;
    WritesKeep(t, ByData, pieces);
    WritesLog(t, ByData, pieces);
  }

  ghost predicate HasNoDelivery(before: seq<Event>, after: seq<Event>) {
    before <= after && forall i | |before| <= i < |after| :: !after[i].Delivered?
  }

  lemma InvData(s: State)
    requires Inv(s) && s.step == Data
    ensures s.reverse.Some?
  {}

  lemma DataResult(s: State, headers: Octets, pieces: seq<Octets>)
    requires s.step == Data && !s.binarymime && s.reverse.Some?
    ensures var t := DataOp(s, headers, pieces, FinalDot);
            && t.step == Mail
            && (if |headers| + |Concat(pieces)| <= Limit(s)
                then t.out == s.out + [354, 250] && |t.log| >= 2
                     && t.log[|t.log| - 2] == Delivered(s.reverse.value, s.forward, headers + Concat(pieces))
                else t.out == s.out + [354, 552] && HasNoDelivery(s.log, t.log))
  {
    hide MsgWritesOp;
    var t := DataStartOp(s, headers).1;
    WritesKeep(t, ByData, pieces);
    WritesStore(t, ByData, pieces);
    WritesLog(t, ByData, pieces);
    StoreResult(Limit(s), headers, pieces);
    DoneResult(MsgWritesOp(t, ByData, pieces));
  }

  lemma DoneResult(u: State)
    requires u.store.Some? && u.reverse.Some?
    ensures var t := DataDoneOp(u);
            && t.step == Mail
            && (if !u.store.value.sizeError
                then t.out == u.out + [250] && |t.log| >= 2
                     && t.log[|t.log| - 2] == Delivered(u.reverse.value, u.forward, u.store.value.contents)
                else t.out == u.out + [552] && t.log == u.log + [Reset])
  {
    hide ResetOp;
    ResetKeepsOut(u.Replying(552));
    ResetKeepsOut(DeliverOp(u).Replying(250));
  }

  /** What a fresh store holds after the headers and the pieces. */
  lemma StoreResult(limit: nat, headers: Octets, pieces: seq<Octets>)
    ensures var st := WriteAllTo(WriteTo(OpenStore(limit), headers), pieces);
            && (!st.sizeError <==> |headers| + |Concat(pieces)| <= limit)
            && (!st.sizeError ==> st.contents == headers + Concat(pieces))
            && |st.contents| <= limit
  {
    WriteAllResult(OpenStore(limit), [headers] + pieces);
    assert ([headers] + pieces)[1..] == pieces;
  }

  lemma {:induction false} WritesLog(s: State, via: Kind, pieces: seq<Octets>)
    ensures HasNoDelivery(s.log, MsgWritesOp(s, via, pieces).log)
    decreases |pieces|
  {
    if pieces != [] {
      WritesLog(MsgWriteOp(s, via, pieces[0]).1, via, pieces[1..]);
    }
  }
}
