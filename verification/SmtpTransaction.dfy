/** Whole transactions by commands that are not refused: what is accepted, and what is delivered. */
module SmtpTransaction {
  import opened Options
  import opened Store
  import Seqs
  import opened SmtpSession
  import opened DataTransfer

  // ----- recipients ------------------------------------------------------------------------------

  /** A recipient that no check refuses is taken in a transaction that has fewer than 100, and in no other
      case; the reply says so, and nothing else changes. */
  lemma RcptTakenIff(s: State, to: Mailbox, verdict: Option<nat>)
    ensures var taking := s.step == Rcpt || s.step == Data;
            RcptOp(s, to, verdict)
            == if taking && verdict.None? && |s.forward| < 100
               then s.(forward := s.forward + [to], step := Data, out := s.out + [250],
                       log := s.log + [RcptAccepted(to)])
               else s.(out := s.out + [if !taking then 503 else if verdict.Some? then verdict.value else 452])
  {}

  function RcptCmds(tos: seq<Mailbox>): seq<Command> {
    if tos == [] then [] else [RcptCmd(tos[0], None)] + RcptCmds(tos[1..])
  }

  function Repeated(code: nat, n: nat): seq<nat> {
    if n == 0 then [] else [code] + Repeated(code, n - 1)
  }

  lemma {:induction false} RunAppend(s: State, a: seq<Command>, b: seq<Command>)
    ensures Run(s, a + b) == Run(Run(s, a), b)
    decreases |a|
  {
    hide Next;
    if a == [] {
      assert a + b == b;
    } else {
      assert (a + b)[1..] == a[1..] + b;
      RunAppend(Next(s, a[0]), a[1..], b);
    }
  }

  lemma RunOne(s: State, c: Command)
    ensures Run(s, [c]) == Next(s, c)
  {
    hide Next;
    assert [c][1..] == [];
  }

  lemma OneRcpt(s: State, to: Mailbox) returns (t: State)
    requires (s.step == Rcpt || s.step == Data) && !s.exited && |s.forward| < 100
    ensures t == Run(s, [RcptCmd(to, None)])
    ensures t == s.(forward := s.forward + [to], step := Data, out := s.out + [250],
                    log := s.log + [RcptAccepted(to)])
  {
    hide Run, RcptOp;
    t := Next(s, RcptCmd(to, None));
    RunOne(s, RcptCmd(to, None));
    RcptTakenIff(s, to, None);
  }

  /** Up to 100 recipients are all taken. */
  lemma {:induction false} RcptsRun(s: State, tos: seq<Mailbox>)
    requires (s.step == Rcpt || s.step == Data) && !s.exited && |s.forward| + |tos| <= 100
    ensures var t := Run(s, RcptCmds(tos));
            && t == s.(forward := t.forward, step := t.step, out := t.out, log := t.log)
            && t.forward == s.forward + tos && t.out == s.out + Repeated(250, |tos|)
            && t.step == (if tos == [] then s.step else Data)
            && HasNoDelivery(s.log, t.log)
    decreases |tos|
  {
    if tos == [] {
      assert s.forward + [] == s.forward && s.out + [] == s.out;
      assert RcptCmds(tos) == [];
    } else {
      hide RcptOp, Run, Next, HasNoDelivery;
      var t := OneRcpt(s, tos[0]);
      RcptsRun(t, tos[1..]);
      RunAppend(s, [RcptCmd(tos[0], None)], RcptCmds(tos[1..]));
      NoDeliveryYet(s.log, RcptAccepted(tos[0]));
      NoDeliveryStill(s.log, t.log, Run(t, RcptCmds(tos[1..])).log);
      assert s.forward + [tos[0]] + tos[1..] == s.forward + tos;
      Seqs.Assoc(s.out, [250], Repeated(250, |tos| - 1));
    }
  }

  // ----- senders ---------------------------------------------------------------------------------

  /** Parameters none of which is refused: a size within the limit, and TLS only where there is TLS. */
  predicate Acceptable(s: State, params: seq<Param>) {
    forall p | p in params :: (p.Size? ==> p.size <= s.maxMsgSize) && (p.RequireTls? ==> s.tls)
  }

  /** Such a sender is taken where no transaction is open. */
  lemma MailTaken(s: State, from: Mailbox, params: seq<Param>)
    requires s.step == Mail && Acceptable(s, params)
    ensures var t := MailOp(s, from, params, None);
            && t == s.(reverse := Some(from), forward := [], step := Rcpt, out := s.out + [250],
                       log := s.log + [MailAccepted(from)], binarymime := t.binarymime, smtputf8 := t.smtputf8)
            && (t.binarymime <==> s.binarymime || BodyBinaryMime in params)
            && (t.smtputf8 <==> s.smtputf8 || SmtpUtf8 in params)
  {
    hide FromParams;
    var k := ParamsAcceptedIff(s, params);
    assert forall i | 0 <= i < |params| :: params[i] in params && Refusal(s, params[i]).None?;
    assert params[..|params|] == params;
  }

  // ----- whole transactions ----------------------------------------------------------------------

  /** The commands of one message by DATA. */
  function Commands(from: Mailbox, params: seq<Param>, tos: seq<Mailbox>, headers: Octets, pieces: seq<Octets>)
      : seq<Command>
  {
    [MailCmd(from, params, None)] + RcptCmds(tos) + [DataCmd(headers, pieces, FinalDot)]
  }

  /** A transaction of commands that are not refused, with 1 to 100 recipients, where none is open: the message
      is delivered from this sender to these recipients exactly when neither its own MAIL nor an earlier
      one has announced binary MIME and it fits the limit.  The replies tell which it was. */
  lemma TransactionDelivers(s: State, from: Mailbox, params: seq<Param>, tos: seq<Mailbox>, headers: Octets,
                            pieces: seq<Octets>)
    requires s.step == Mail && !s.exited && Acceptable(s, params) && 1 <= |tos| <= 100
    ensures var t := Run(s, Commands(from, params, tos, headers, pieces));
            var replies := s.out + [250] + Repeated(250, |tos|);
            if s.binarymime || BodyBinaryMime in params
            then t.out == replies + [503] && t.step == Rset && HasNoDelivery(s.log, t.log)
            else if |headers| + |Concat(pieces)| <= Limit(s)
            then t.out == replies + [354, 250] && t.step == Mail && |t.log| >= 2
                 && t.log[|t.log| - 2] == Delivered(from, tos, headers + Concat(pieces))
            else t.out == replies + [354, 552] && t.step == Mail && HasNoDelivery(s.log, t.log)
  {
    hide *;
    MailTaken(s, from, params);
    var m := MailOp(s, from, params, None);
    RcptsRun(m, tos);
    var r := Run(m, RcptCmds(tos));
    assert [] + tos == tos;
    CommandsRun(s, from, params, tos, headers, pieces);
    NoDeliveryYet(s.log, MailAccepted(from));
    NoDeliveryStill(s.log, m.log, r.log);
    DataOutcome(r, headers, pieces);
    SameLimit(s, r);
    NoDeliveryStill(s.log, r.log, DataOp(r, headers, pieces, FinalDot).log);
  }

  /** What becomes of the message when the recipients are there. */
  lemma DataOutcome(r: State, headers: Octets, pieces: seq<Octets>)
    requires r.step == Data && r.reverse.Some?
    ensures var t := DataOp(r, headers, pieces, FinalDot);
            if r.binarymime
            then t.out == r.out + [503] && t.step == Rset && HasNoDelivery(r.log, t.log)
            else if |headers| + |Concat(pieces)| <= Limit(r)
            then t.out == r.out + [354, 250] && t.step == Mail && |t.log| >= 2
                 && t.log[|t.log| - 2] == Delivered(r.reverse.value, r.forward, headers + Concat(pieces))
            else t.out == r.out + [354, 552] && t.step == Mail && HasNoDelivery(r.log, t.log)
  {
    hide DataOp, Concat, HasNoDelivery, Limit;
    if r.binarymime {
      BinaryRefused(r, headers, pieces);
    } else {
      DataResult(r, headers, pieces);
    }
  }

  lemma CommandsRun(s: State, from: Mailbox, params: seq<Param>, tos: seq<Mailbox>, headers: Octets,
                    pieces: seq<Octets>)
    requires var m := MailOp(s, from, params, None);
             !s.exited && !m.exited && !Run(m, RcptCmds(tos)).exited
    ensures Run(s, Commands(from, params, tos, headers, pieces))
         == DataOp(Run(MailOp(s, from, params, None), RcptCmds(tos)), headers, pieces, FinalDot)
  {
    hide Run, MailOp, DataOp;
    ThreeParts(s, MailCmd(from, params, None), RcptCmds(tos), DataCmd(headers, pieces, FinalDot));
  }

  lemma SameLimit(s: State, t: State)
    requires s.maxWrite == t.maxWrite && s.maxMsgSize == t.maxMsgSize
    ensures Limit(s) == Limit(t)
  {}

  lemma ThreeParts(s: State, first: Command, middle: seq<Command>, last: Command)
    requires !s.exited && !Run(Next(s, first), middle).exited
    ensures Run(s, [first] + middle + [last]) == Next(Run(Next(s, first), middle), last)
  {
    hide Next;
    RunOne(s, first);
    RunAppend(s, [first], middle);
    RunAppend(s, [first] + middle, [last]);
    RunOne(Run(Next(s, first), middle), last);
  }

  lemma BinaryRefused(s: State, headers: Octets, pieces: seq<Octets>)
    requires s.step == Data && s.binarymime
    ensures DataOp(s, headers, pieces, FinalDot) == s.Replying(503).(step := Rset)
    ensures HasNoDelivery(s.log, s.log)
  {}

  lemma NoDeliveryYet(log: seq<Event>, e: Event)
    requires !e.Delivered?
    ensures HasNoDelivery(log, log + [e])
  {}

  lemma NoDeliveryStill(a: seq<Event>, b: seq<Event>, c: seq<Event>)
    requires HasNoDelivery(a, b)
    ensures HasNoDelivery(b, c) ==> HasNoDelivery(a, c)
  {}

  /** What a refused MAIL leaves behind: a binary MIME announced in it, before the size that is refused, has
      the next message refused that announces nothing. */
  lemma RefusedMailSpoilsNext(s: State, from: Mailbox, to: Mailbox, headers: Octets, pieces: seq<Octets>)
    requires s.step == Mail && !s.exited && !s.binarymime
    ensures var refused := MailCmd(from, [BodyBinaryMime, Size(s.maxMsgSize + 1)], None);
            var t := Run(s, [refused] + Commands(from, [], [to], headers, pieces));
            t.out == s.out + [552, 250, 250, 503] && t.step == Rset && HasNoDelivery(s.log, t.log)
  {
    hide DataOp, Concat, HasNoDelivery, Run;
    var refused := MailCmd(from, [BodyBinaryMime, Size(s.maxMsgSize + 1)], None);
    var u := Next(s, refused);
    BinaryThenTooLarge(s, from);
    RunOne(s, refused);
    RunAppend(s, [refused], Commands(from, [], [to], headers, pieces));
    TransactionDelivers(u, from, [], [to], headers, pieces);
    assert Repeated(250, 1) == [250] + Repeated(250, 0) == [250];
    assert u.out + [250] + [250] + [503] == s.out + [552, 250, 250, 503];
  }

  lemma BinaryThenTooLarge(s: State, from: Mailbox)
    requires s.step == Mail
    ensures MailOp(s, from, [BodyBinaryMime, Size(s.maxMsgSize + 1)], None)
         == s.(binarymime := true, out := s.out + [552])
  {
    var params := [BodyBinaryMime, Size(s.maxMsgSize + 1)];
    OneParam(s, params);
    assert params[1..] == [Size(s.maxMsgSize + 1)];
    OneParam(s.(binarymime := true), params[1..]);
  }
}
