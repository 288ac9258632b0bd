/** The SMTP transaction machine of the server.  The functions give the effect of each operation on
    the state of a session; the class has the operations themselves. */
module SmtpSession {
  import Ascii
  import opened Options
  import opened Store

  type Mailbox = string

  // ----- the state -------------------------------------------------------------------------------

  datatype Step = Helo | Mail | Rcpt | Data | Bdat | Rset

  /** Which command transfers a message body. */
  datatype Kind = ByData | ByBdat

  /** What happens to transactions and messages, in order. */
  datatype Event =
    | Reset
    | MailAccepted(from: Mailbox)
    | RcptAccepted(to: Mailbox)
    | Opened(kind: Kind, headers: Octets)
    | Given(via: Kind, octets: Octets)
    | Delivered(reverse: Mailbox, forward: seq<Mailbox>, contents: Octets)

  /** What the session keeps from one command to the next, the reply codes it has sent, and the
      history of its transactions. */
  datatype State = State(
    step: Step, reverse: Option<Mailbox>, forward: seq<Mailbox>, store: Option<StoreState>,
    binarymime: bool, smtputf8: bool, extensions: bool, identity: string,
    tls: bool, maxMsgSize: nat, maxWrite: nat, maxRead: nat, readLimit: nat, unrecognized: nat, exited: bool,
    out: seq<nat>, log: seq<Event>)
  {
    function Replying(code: nat): State {
      this.(out := out + [code])
    }

    function Logging(e: Event): State {
      this.(log := log + [e])
    }
  }

  const MAX_RECIPIENTS := 100
  const MAX_UNRECOGNIZED := 20
  const MAX_MSG_SIZE_INITIAL := 15 * 1024 * 1024
  const MAX_MSG_SIZE_BRO := 150 * 1024 * 1024

  /** How many octets may be read from one reset to the next: what the flag says, or the size of a
      message and some more. */
  function ReadLimit(maxRead: nat, maxMsgSize: nat): nat {
    if maxRead != 0 then maxRead
    else maxMsgSize + if maxMsgSize / 10 < 2048 then 2048 else maxMsgSize / 10
  }

  function Initial(maxWrite: nat, maxRead: nat): State {
    State(Helo, None, [], None, false, false, false, "", false, MAX_MSG_SIZE_INITIAL, maxWrite,
          maxRead, ReadLimit(maxRead, MAX_MSG_SIZE_INITIAL), 0, false, [], [])
  }

  // ----- transactions ----------------------------------------------------------------------------

  /** reset_: the one piece of transaction data that is kept is the identity of the client. */
  function ResetOp(s: State): State {
    s.(reverse := None, forward := [], binarymime := false, smtputf8 := false,
       store := None, readLimit := ReadLimit(s.maxRead, s.maxMsgSize), step := Mail).Logging(Reset)
  }

  function WithoutTrailingDot(d: string): string {
    if d != "" && d[|d| - 1] == '.' then d[..|d| - 1] else d
  }

  /** Domains are compared without regard to case and to a dot at the end. */
  predicate SameDomain(a: string, b: string) {
    Ascii.EqualIgnoringCase(WithoutTrailingDot(a), WithoutTrailingDot(b))
  }

  /** lo_ for HELO and EHLO; verdict is the reply of a failed check on a new identity. */
  function LoOp(s: State, extended: bool, identity: string, verdict: Option<nat>): State {
    var t := ResetOp(s);
    if SameDomain(t.identity, identity) then t.(extensions := extended).Replying(250)
    else if verdict.Some? then t.(identity := identity).Replying(verdict.value).(exited := true)
    else t.(identity := identity, extensions := extended).Replying(250)
  }

  datatype Param = BodyBinaryMime | BodyOther | SmtpUtf8 | Size(size: nat) | BadSize | RequireTls | Unknown

  /** verify_from_params_: the parameters in the order of the iteration; flags already set stay set
      when a later parameter is refused. */
  function FromParams(s: State, params: seq<Param>): (r: (bool, State))
    ensures r.1 == s.(binarymime := r.1.binarymime, smtputf8 := r.1.smtputf8, out := r.1.out)
    decreases |params|
  {
    if params == [] then (true, s)
    else
      match params[0]
      case BodyBinaryMime => FromParams(s.(binarymime := true), params[1..])
      case SmtpUtf8 => FromParams(s.(smtputf8 := true), params[1..])
      case Size(n) =>
        if n > s.maxMsgSize then (false, s.Replying(552)) else FromParams(s, params[1..])
      case RequireTls =>
        if !s.tls then (false, s.Replying(554)) else FromParams(s, params[1..])
      case _ => FromParams(s, params[1..])
  }

  function MailOp(s: State, from: Mailbox, params: seq<Param>, verdict: Option<nat>): State {
    if s.step != Mail then s.Replying(503)
    else
      var (ok, t) := FromParams(s, params);
      if !ok then t
      else if verdict.Some? then t.Replying(verdict.value).(exited := true)
      else MailAcceptedOp(t, from)
  }

  function MailAcceptedOp(s: State, from: Mailbox): State {
    s.(reverse := Some(from), forward := [], step := Rcpt).Replying(250).Logging(MailAccepted(from))
  }

  function RcptOp(s: State, to: Mailbox, verdict: Option<nat>): State {
    if s.step != Rcpt && s.step != Data then s.Replying(503)
    else if verdict.Some? then s.Replying(verdict.value)
    else if |s.forward| >= MAX_RECIPIENTS then s.Replying(452)
    else s.(forward := s.forward + [to], step := Data).Replying(250).Logging(RcptAccepted(to))
  }

  // ----- messages --------------------------------------------------------------------------------

  function KindOf(step: Step): Kind {
    if step == Bdat then ByBdat else ByData
  }

  /** msg_new: a fresh store with the added headers in it.  The limit is fixed by the first message
      of the process when no flag gives one. */
  function MsgNewOp(s: State, headers: Octets): State {
    var limit := if s.maxWrite == 0 then s.maxMsgSize else s.maxWrite;
    s.(maxWrite := limit, store := Some(WriteTo(OpenStore(limit), headers)))
     .Logging(Opened(KindOf(s.step), headers))
  }

  function MsgWriteOp(s: State, via: Kind, octets: Octets): (bool, State) {
    if (s.step != Data && s.step != Bdat) || s.store.None? then (false, s)
    else (true, s.(store := Some(WriteTo(s.store.value, octets))).Logging(Given(via, octets)))
  }

  function MsgWritesOp(s: State, via: Kind, pieces: seq<Octets>): State
    decreases |pieces|
  {
    if pieces == [] then s
    else MsgWritesOp(MsgWriteOp(s, via, pieces[0]).1, via, pieces[1..])
  }

  function DataStartOp(s: State, headers: Octets): (bool, State) {
    if s.step != Data then (false, s.Replying(503))
    else if s.binarymime then (false, s.Replying(503).(step := Rset))
    else (true, MsgNewOp(s, headers).Replying(354))
  }

  function DeliverOp(s: State): State
    requires s.store.Some?
  {
    s.Logging(Delivered(if s.reverse.Some? then s.reverse.value else "", s.forward, s.store.value.contents))
  }

  function DataDoneOp(s: State): State
    requires s.store.Some?
  {
    if s.store.value.sizeError then ResetOp(s.Replying(552))
    else ResetOp(DeliverOp(s).Replying(250))
  }

  function BdatStartOp(s: State, headers: Octets): (bool, State) {
    if s.step == Bdat then (true, s)
    else if s.step != Data then (false, s.Replying(503))
    else (true, MsgNewOp(s.(step := Bdat), headers))
  }

  function BdatDoneOp(s: State, last: bool): State {
    if s.step != Bdat then ResetOp(s.Replying(503))
    else if s.store.None? then s
    else if s.store.value.sizeError then ResetOp(s.Replying(552))
    else if !last then s.Replying(250)
    else ResetOp(DeliverOp(s).Replying(250))
  }

  // ----- commands --------------------------------------------------------------------------------

  /** How the octets after a DATA command end: the final dot line, the end of the input, a connection
      that timed out or hit its limit, a bare line feed after a dot, or a line that the buffer of the
      parser cannot hold. */
  datatype DataEnding = FinalDot | Fault | Cut | BareLf | Overflow

  function DataOp(s: State, headers: Octets, pieces: seq<Octets>, ending: DataEnding): State {
    var (ok, t) := DataStartOp(s, headers);
    if !ok then t
    else
      var u := MsgWritesOp(t, ByData, pieces);
      match ending
      case FinalDot => if u.store.Some? then DataDoneOp(u) else u
      case Fault | Overflow => u.Replying(421)
      case Cut => u
      case BareLf => u.Replying(554).(exited := true)
  }

  /** The input of a chunk: all of it, or less because the limit was hit or for another reason. */
  datatype ChunkInput = Whole | MaxedOut | Short

  /** bdat_act: the pieces are what was read and passed on; input says whether that was all. */
  function BdatOp(s: State, headers: Octets, pieces: seq<Octets>, input: ChunkInput, last: bool): State {
    var (ok, t) := BdatStartOp(s, headers);
    var u := MsgWritesOp(t, ByBdat, pieces);
    if !ok then u
    else if input == MaxedOut then ResetOp(u.Replying(552))
    else if input == Short then ResetOp(u.Replying(503))
    else BdatDoneOp(u, last)
  }

  datatype Command =
    | LoCmd(extended: bool, identity: string, verdict: Option<nat>)
    | MailCmd(from: Mailbox, params: seq<Param>, verdict: Option<nat>)
    | RcptCmd(to: Mailbox, verdict: Option<nat>)
    | DataCmd(headers: Octets, pieces: seq<Octets>, ending: DataEnding)
    | BdatCmd(headers: Octets, pieces: seq<Octets>, input: ChunkInput, last: bool)
    | RsetCmd
    | StartTlsCmd(works: bool)
    | InfoCmd(code: nat)
    | Unrecognized
    | QuitCmd
    | AuthCmd
    | MaxOutCmd
    | TimeOutCmd

  /** max_out: what the main loop does when it cannot read on because of the limit. */
  function MaxOutOp(s: State): State {
    s.Replying(552).(exited := true)
  }

  /** The effect of one command; nothing happens after the session has exited. */
  function Next(s: State, c: Command): State {
    if s.exited then s
    else
      match c
      case LoCmd(extended, identity, verdict) => LoOp(s, extended, identity, verdict)
      case MailCmd(from, params, verdict) => MailOp(s, from, params, verdict)
      case RcptCmd(to, verdict) => RcptOp(s, to, verdict)
      case DataCmd(headers, pieces, ending) => DataOp(s, headers, pieces, ending)
      case BdatCmd(headers, pieces, input, last) => BdatOp(s, headers, pieces, input, last)
      case RsetCmd => ResetOp(s.Replying(250))
      case StartTlsCmd(works) =>
        if s.tls || !s.extensions then s.Replying(554)
        else if works then
          ResetOp(s.Replying(220).(tls := true))
            .(maxMsgSize := MAX_MSG_SIZE_BRO, readLimit := ReadLimit(s.maxRead, MAX_MSG_SIZE_BRO))
        else s.Replying(220)
      case InfoCmd(code) => s.Replying(code)
      case Unrecognized =>
        s.(unrecognized := s.unrecognized + 1, exited := s.unrecognized + 1 >= MAX_UNRECOGNIZED).Replying(500)
      case QuitCmd => s.Replying(221).(exited := true)
      case AuthCmd => s.Replying(454).(exited := true)
      case MaxOutCmd => MaxOutOp(s)
      case TimeOutCmd => s.Replying(421).(exited := true)
  }

  function Run(s: State, cs: seq<Command>): State
    decreases |cs|
  {
    if cs == [] then s else Run(Next(s, cs[0]), cs[1..])
  }

  // ----- what the history says -------------------------------------------------------------------

  function AddSender(ms: seq<Mailbox>, e: Event): seq<Mailbox> {
    match e
    case Reset => []
    case MailAccepted(from) => ms + [from]
    case _ => ms
  }

  /** The senders accepted since the last reset. */
  function Senders(log: seq<Event>): seq<Mailbox> {
    if log == [] then [] else AddSender(Senders(log[..|log| - 1]), log[|log| - 1])
  }

  function AddRecipient(ms: seq<Mailbox>, e: Event): seq<Mailbox> {
    match e
    case Reset => []
    case RcptAccepted(to) => ms + [to]
    case _ => ms
  }

  /** The recipients accepted since the last reset, in order. */
  function Recipients(log: seq<Event>): seq<Mailbox> {
    if log == [] then [] else AddRecipient(Recipients(log[..|log| - 1]), log[|log| - 1])
  }

  /** A message body: by which command it was opened, its headers and all the octets that were given
      to it since, and whether all of them came from that command. */
  datatype Body = NoBody | Body(kind: Kind, octets: Octets, pure: bool)

  function AddOctets(b: Body, e: Event): Body {
    match e
    case Reset => NoBody
    case Opened(kind, headers) => Body(kind, headers, true)
    case Given(via, octets) =>
      if b.NoBody? then NoBody else Body(b.kind, b.octets + octets, b.pure && via == b.kind)
    case _ => b
  }

  /** The message opened last since the last reset. */
  function LastBody(log: seq<Event>): Body {
    if log == [] then NoBody else AddOctets(LastBody(log[..|log| - 1]), log[|log| - 1])
  }

  function AddDelivery(b: bool, e: Event): bool {
    match e
    case Reset => false
    case Delivered(_, _, _) => true
    case _ => b
  }

  /** Whether something was delivered since the last reset. */
  function HasDelivered(log: seq<Event>): bool {
    if log == [] then false else AddDelivery(HasDelivered(log[..|log| - 1]), log[|log| - 1])
  }

  /** A delivery is right when its history says so: the first of its transaction, one sender and 1 to
      100 recipients, all accepted in this transaction, and a body that came whole from one DATA or
      whole from BDATs. */
  ghost predicate DeliveryRight(history: seq<Event>, d: Event)
    requires d.Delivered?
  {
    && !HasDelivered(history)
    && Senders(history) == [d.reverse]
    && Recipients(history) == d.forward && 1 <= |d.forward| <= 100
    && LastBody(history).Body? && LastBody(history).pure
    && LastBody(history).octets == d.contents
  }

  ghost predicate LogRight(log: seq<Event>) {
    forall i | 0 <= i < |log| && log[i].Delivered? :: DeliveryRight(log[..i], log[i])
  }

  // ----- the invariant ---------------------------------------------------------------------------

  /** The store agrees with the history: it is in error or holds exactly what was given. */
  ghost predicate StoreAgrees(store: Option<StoreState>, log: seq<Event>, kind: Kind) {
    store.Some? ==>
      && Sized(store.value)
      && LastBody(log).Body? && LastBody(log).pure && LastBody(log).kind == kind
      && (store.value.sizeError || store.value.contents == LastBody(log).octets)
  }

  /** In each state the fields agree with the history. */
  ghost predicate Agrees(step: Step, reverse: Option<Mailbox>, forward: seq<Mailbox>,
                         store: Option<StoreState>, log: seq<Event>)
  {
    && |forward| <= MAX_RECIPIENTS && forward == Recipients(log)
    && match step {
         case Helo | Mail => Senders(log) == [] && forward == [] && store.None?
         case Rcpt => reverse.Some? && Senders(log) == [reverse.value] && forward == [] && store.None?
         case Data | Rset => reverse.Some? && Senders(log) == [reverse.value] && forward != []
                             && StoreAgrees(store, log, ByData)
         case Bdat => reverse.Some? && Senders(log) == [reverse.value] && forward != []
                      && store.Some? && StoreAgrees(store, log, ByBdat)
       }
  }

  ghost predicate Inv(s: State) {
    LogRight(s.log) && !HasDelivered(s.log) && Agrees(s.step, s.reverse, s.forward, s.store, s.log)
  }

  lemma LogAppend(log: seq<Event>, e: Event)
    ensures (log + [e])[..|log|] == log && (log + [e])[|log|] == e
    ensures LogRight(log) && (e.Delivered? ==> DeliveryRight(log, e)) ==> LogRight(log + [e])
    ensures Senders(log + [e]) == AddSender(Senders(log), e)
    ensures Recipients(log + [e]) == AddRecipient(Recipients(log), e)
    ensures LastBody(log + [e]) == AddOctets(LastBody(log), e)
    ensures HasDelivered(log + [e]) == AddDelivery(HasDelivered(log), e)
  {
    var longer := log + [e];
    assert longer[..|log|] == log;
    if LogRight(log) && (e.Delivered? ==> DeliveryRight(log, e)) {
      forall i | 0 <= i < |longer| && longer[i].Delivered?
        ensures DeliveryRight(longer[..i], longer[i])
      {
        if i < |log| {
          assert longer[..i] == log[..i];
        }
      }
    }
  }

  lemma InitialInv(maxWrite: nat, maxRead: nat)
    ensures Inv(Initial(maxWrite, maxRead))
  {}

  lemma ResetInv(s: State)
    requires LogRight(s.log)
    ensures Inv(ResetOp(s))
  {
    LogAppend(s.log, Reset);
  }

  lemma MailInv(s: State, from: Mailbox, params: seq<Param>, verdict: Option<nat>)
    requires Inv(s)
    ensures Inv(MailOp(s, from, params, verdict))
  {
    hide LogRight, Agrees, FromParams, MailAcceptedOp;
    var (ok, t) := FromParams(s, params);
    if s.step == Mail {
      MailAcceptedInv(t, from);
    }
  }

  lemma MailAcceptedInv(s: State, from: Mailbox)
    requires Inv(s) && s.step == Mail
    ensures Inv(MailAcceptedOp(s, from))
  {
    hide LogRight, Senders, Recipients, LastBody, HasDelivered;
    LogAppend(s.log, MailAccepted(from));
  }

  lemma RcptInv(s: State, to: Mailbox, verdict: Option<nat>)
    requires Inv(s)
    ensures Inv(RcptOp(s, to, verdict))
  {
    hide LogRight, Agrees;
    LogAppend(s.log, RcptAccepted(to));
    if (s.step == Rcpt || s.step == Data) && |s.forward| < MAX_RECIPIENTS {
      RcptAgrees(s.step, s.reverse, s.forward, s.store, s.log, to);
    }
  }

  lemma RcptAgrees(step: Step, reverse: Option<Mailbox>, forward: seq<Mailbox>,
                   store: Option<StoreState>, log: seq<Event>, to: Mailbox)
    requires Agrees(step, reverse, forward, store, log)
    requires (step == Rcpt || step == Data) && |forward| < MAX_RECIPIENTS
    ensures Agrees(Data, reverse, forward + [to], store, log + [RcptAccepted(to)])
  {
    hide LogRight, Senders, Recipients, LastBody, HasDelivered;
    LogAppend(log, RcptAccepted(to));
  }

  lemma MsgNewInv(s: State, headers: Octets)
    requires Inv(s) && s.step == Data
    ensures Inv(MsgNewOp(s, headers)) && Inv(MsgNewOp(s.(step := Bdat), headers))
  {
    hide LogRight, Senders, Recipients, LastBody, HasDelivered;
    LogAppend(s.log, Opened(ByData, headers));
    LogAppend(s.log, Opened(ByBdat, headers));
    assert "" + headers == headers;
  }

  lemma MsgWriteInv(s: State, via: Kind, octets: Octets)
    requires Inv(s) && (s.step == Data || s.step == Bdat ==> via == KindOf(s.step))
    ensures var t := MsgWriteOp(s, via, octets).1;
            Inv(t) && t.step == s.step && (t.store.Some? <==> s.store.Some?)
  {
    hide LogRight, Senders, Recipients, LastBody, HasDelivered;
    LogAppend(s.log, Given(via, octets));
  }

  lemma {:induction false} MsgWritesInv(s: State, via: Kind, pieces: seq<Octets>)
    requires Inv(s) && (s.step == Data || s.step == Bdat ==> via == KindOf(s.step))
    ensures var t := MsgWritesOp(s, via, pieces);
            Inv(t) && t.step == s.step && (t.store.Some? <==> s.store.Some?)
    decreases |pieces|
  {
    hide Inv;
    if pieces != [] {
      MsgWriteInv(s, via, pieces[0]);
      MsgWritesInv(MsgWriteOp(s, via, pieces[0]).1, via, pieces[1..]);
    }
  }

  lemma DeliverInv(s: State)
    requires Inv(s) && (s.step == Data || s.step == Bdat) && s.store.Some? && !s.store.value.sizeError
    ensures LogRight(DeliverOp(s).log)
  {
    hide LogRight, Senders, Recipients, LastBody, HasDelivered;
    LogAppend(s.log, DeliverOp(s).log[|s.log|]);
  }

  /** Every command keeps the invariant. */
  lemma {:induction false} NextInv(s: State, c: Command)
    requires Inv(s)
    ensures Inv(Next(s, c))
  {
    hide LogRight, Senders, Recipients, LastBody, HasDelivered;
    match c
    case LoCmd(_, _, _) => ResetInv(s);
    case MailCmd(from, params, verdict) => MailInv(s, from, params, verdict);
    case RcptCmd(to, verdict) => RcptInv(s, to, verdict);
    case DataCmd(headers, pieces, ending) => DataInv(s, headers, pieces, ending);
    case BdatCmd(headers, pieces, input, last) => BdatInv(s, headers, pieces, input, last);
    case RsetCmd => ResetInv(s.Replying(250));
    case StartTlsCmd(_) => ResetInv(s.Replying(220).(tls := true));
    case _ =>
  }

  lemma DataInv(s: State, headers: Octets, pieces: seq<Octets>, ending: DataEnding)
    requires Inv(s)
    ensures Inv(DataOp(s, headers, pieces, ending))
    ensures var (ok, t) := DataStartOp(s, headers);
            ok ==> MsgWritesOp(t, ByData, pieces).store.Some?
  {
    hide LogRight, Senders, Recipients, LastBody, HasDelivered;
    var (ok, t) := DataStartOp(s, headers);
    if ok {
      MsgNewInv(s, headers);
      MsgWritesInv(t, ByData, pieces);
      var u := MsgWritesOp(t, ByData, pieces);
      if !u.store.value.sizeError {
        DeliverInv(u);
        ResetInv(DeliverOp(u).Replying(250));
      } else {
        ResetInv(u.Replying(552));
      }
    }
  }

  /** BdatOp step by step. */
  lemma BdatOpSteps(s: State, headers: Octets, pieces: seq<Octets>, input: ChunkInput, last: bool)
    ensures var u := MsgWritesOp(BdatStartOp(s, headers).1, ByBdat, pieces);
            var r := BdatOp(s, headers, pieces, input, last);
            && (!BdatStartOp(s, headers).0 ==> r == u)
            && (BdatStartOp(s, headers).0 && input == MaxedOut ==> r == ResetOp(u.Replying(552)))
            && (BdatStartOp(s, headers).0 && input == Short ==> r == ResetOp(u.Replying(503)))
            && (BdatStartOp(s, headers).0 && input == Whole ==> r == BdatDoneOp(u, last))
  {
    hide MsgWritesOp, BdatDoneOp, BdatStartOp;
  }

  /** A started chunk is in a valid state and has not been answered; another one has been. */
  lemma BdatStarts(s: State, headers: Octets)
    requires Inv(s)
    ensures var (ok, t) := BdatStartOp(s, headers);
            && Inv(t)
            && (ok ==> t.step == Bdat && t.out == s.out)
            && (!ok ==> t == s.Replying(503) && t.step != Data && t.step != Bdat)
  {
    hide LogRight, Inv, MsgNewOp;
    if s.step == Data {
      MsgNewInv(s, headers);
      MsgNewKeeps(s.(step := Bdat), headers);
    } else if s.step != Bdat {
      ReplyInv(s, 503);
    }
  }

  lemma BdatInv(s: State, headers: Octets, pieces: seq<Octets>, input: ChunkInput, last: bool)
    requires Inv(s)
    ensures Inv(BdatOp(s, headers, pieces, input, last))
  {
    hide LogRight, Inv, BdatOp, BdatStartOp, BdatDoneOp, MsgWritesOp, ResetOp;
    BdatOpSteps(s, headers, pieces, input, last);
    BdatStarts(s, headers);
    var (ok, t) := BdatStartOp(s, headers);
    MsgWritesInv(t, ByBdat, pieces);
    if ok {
      BdatDoneInv(MsgWritesOp(t, ByBdat, pieces), last);
    }
  }

  lemma ReplyInv(s: State, code: nat)
    requires Inv(s)
    ensures Inv(s.Replying(code))
  {}

  lemma InvBdat(s: State)
    requires Inv(s) && s.step == Bdat
    ensures s.store.Some?
  {}

  lemma BdatDoneInv(u: State, last: bool)
    requires Inv(u) && u.step == Bdat
    ensures Inv(BdatDoneOp(u, last))
    ensures Inv(ResetOp(u.Replying(552))) && Inv(ResetOp(u.Replying(503)))
  {
    hide LogRight, Senders, Recipients, LastBody, HasDelivered, StoreAgrees;
    ResetInv(u.Replying(552));
    ResetInv(u.Replying(503));
    if !u.store.value.sizeError {
      DeliverInv(u);
      ResetInv(DeliverOp(u).Replying(250));
    }
  }

  /** Without a transfer in progress the octets of a message go nowhere. */
  lemma {:induction false} RejectedWrites(s: State, via: Kind, pieces: seq<Octets>)
    requires (s.step != Data && s.step != Bdat) || s.store.None?
    ensures MsgWritesOp(s, via, pieces) == s
    decreases |pieces|
  {
    if pieces != [] {
      RejectedWrites(s, via, pieces[1..]);
    }
  }

  lemma {:induction false} RunInv(s: State, cs: seq<Command>)
    requires Inv(s)
    ensures Inv(Run(s, cs))
    decreases |cs|
  {
    hide Inv, Next;
    if cs != [] {
      NextInv(s, cs[0]);
      RunInv(Next(s, cs[0]), cs[1..]);
    }
  }

  /** Over every run of commands every delivery is right, and where no transfer can be in progress
      there are no recipients and no open message. */
  lemma RunDeliversRight(maxWrite: nat, maxRead: nat, cs: seq<Command>)
    ensures var s := Run(Initial(maxWrite, maxRead), cs);
            && LogRight(s.log)
            && (s.step in {Helo, Mail, Rcpt} ==> s.forward == [] && s.store.None?)
            && (s.step in {Helo, Mail} ==> Senders(s.log) == [])
            && (s.step == Bdat ==> s.store.Some?)
  {
    InitialInv(maxWrite, maxRead);
    RunInv(Initial(maxWrite, maxRead), cs);
  }

  /** The state that asks for a RSET is left only by a reset. */
  lemma {:induction false} OnlyResetLeavesRset(s: State, c: Command)
    requires s.step == Rset
    ensures Next(s, c).step == Rset || (Next(s, c).step == Mail && Next(s, c).log == s.log + [Reset])
  {
    if c.BdatCmd? {
      RejectedWrites(s.Replying(503), ByBdat, c.pieces);
    }
  }

  /** Each BDAT command is answered exactly once, whatever its octets and its input. */
  lemma {:induction false} BdatOneReply(s: State, headers: Octets, pieces: seq<Octets>, input: ChunkInput, last: bool)
    requires Inv(s)
    ensures |BdatOp(s, headers, pieces, input, last).out| == |s.out| + 1
  {
    hide Inv, LogRight, BdatOp, BdatStartOp, BdatDoneOp, MsgWritesOp;
    BdatOpSteps(s, headers, pieces, input, last);
    BdatStarts(s, headers);
    var (ok, t) := BdatStartOp(s, headers);
    WritesKeep(t, ByBdat, pieces);
    if ok {
      MsgWritesInv(t, ByBdat, pieces);
      var u := MsgWritesOp(t, ByBdat, pieces);
      InvBdat(u);
      DoneOneReply(u, last);
    }
  }

  lemma MsgNewKeeps(s: State, headers: Octets)
    ensures MsgNewOp(s, headers).out == s.out && MsgNewOp(s, headers).step == s.step
  {}

  lemma DoneOneReply(u: State, last: bool)
    requires u.step != Bdat || u.store.Some?
    ensures |BdatDoneOp(u, last).out| == |u.out| + 1
  {
    hide ResetOp, DeliverOp;
    ResetKeepsOut(u.Replying(503));
    ResetKeepsOut(u.Replying(552));
    if u.store.Some? {
      ResetKeepsOut(DeliverOp(u).Replying(250));
      DeliverKeepsOut(u);
    }
  }

  lemma ResetKeepsOut(s: State)
    ensures ResetOp(s).out == s.out && ResetOp(s).step == Mail && ResetOp(s).log == s.log + [Reset]
  {}

  lemma DeliverKeepsOut(s: State)
    requires s.store.Some?
    ensures DeliverOp(s).out == s.out
  {}

  /** Writing a message changes the store and the history and nothing else. */
  lemma {:induction false} WritesKeep(s: State, via: Kind, pieces: seq<Octets>)
    ensures var t := MsgWritesOp(s, via, pieces);
            t == s.(store := t.store, log := t.log)
    decreases |pieces|
  {
    if pieces != [] {
      WritesKeep(MsgWriteOp(s, via, pieces[0]).1, via, pieces[1..]);
    }
  }

  /** A transfer in progress: what the store makes of the pieces. */
  lemma {:induction false} WritesStore(s: State, via: Kind, pieces: seq<Octets>)
    requires (s.step == Data || s.step == Bdat) && s.store.Some?
    ensures MsgWritesOp(s, via, pieces).store == Some(WriteAllTo(s.store.value, pieces))
    decreases |pieces|
  {
    if pieces != [] {
      WritesStore(MsgWriteOp(s, via, pieces[0]).1, via, pieces[1..]);
    }
  }

  /** Which parameters of MAIL are refused, and with which reply. */
  function Refusal(s: State, p: Param): Option<nat> {
    if p.Size? && p.size > s.maxMsgSize then Some(552)
    else if p.RequireTls? && !s.tls then Some(554)
    else None
  }

  function Flagged(s: State, p: Param): State {
    if p.BodyBinaryMime? then s.(binarymime := true) else if p.SmtpUtf8? then s.(smtputf8 := true) else s
  }

  lemma OneParam(s: State, params: seq<Param>)
    requires params != []
    ensures FromParams(s, params)
         == if Refusal(s, params[0]).Some? then (false, s.Replying(Refusal(s, params[0]).value))
            else FromParams(Flagged(s, params[0]), params[1..])
  {}

  /** The parameters are accepted exactly when none is refused.  Otherwise there is one reply, that of
      the first refused one, and only the flags of those before it are set. */
  lemma {:induction false} ParamsAcceptedIff(s: State, params: seq<Param>) returns (k: nat)
    ensures k <= |params| && forall i | 0 <= i < k :: Refusal(s, params[i]).None?
    ensures k < |params| ==> Refusal(s, params[k]).Some?
    ensures var (ok, t) := FromParams(s, params);
            && (ok <==> k == |params|)
            && t.out == (if ok then s.out else s.out + [Refusal(s, params[k]).value])
            && (t.binarymime <==> s.binarymime || BodyBinaryMime in params[..k])
            && (t.smtputf8 <==> s.smtputf8 || SmtpUtf8 in params[..k])
    decreases |params|
  {
    if params == [] {
      k := 0;
    } else {
      OneParam(s, params);
      hide FromParams;
      if Refusal(s, params[0]).Some? {
        k := 0;
      } else {
        var j := ParamsAcceptedIff(Flagged(s, params[0]), params[1..]);
        k := j + 1;
        assert params[..k] == [params[0]] + params[1..][..j];
      }
    }
  }

  // ----- the session object ----------------------------------------------------------------------

  class Session {
    var step: Step
    var reverse: Option<Mailbox>
    var forward: seq<Mailbox>
    var msg: MessageStore?
    var binarymime: bool
    var smtputf8: bool
    var extensions: bool
    var identity: string
    var tls: bool
    var maxMsgSize: nat
    var maxWrite: nat
    var maxRead: nat
    var readLimit: nat
    var unrecognized: nat
    var exited: bool
    var out: seq<nat>
    ghost var log: seq<Event>

    /** The session and the store that it owns. */
    ghost function Repr(): set<object>
      reads this
    {
      if msg == null then {this} else {this, msg}
    }

    ghost function View(): State
      reads this, Repr()
    {
      State(step, reverse, forward, if msg == null then None else Some(msg.View()),
            binarymime, smtputf8, extensions, identity, tls, maxMsgSize, maxWrite, maxRead, readLimit,
            unrecognized, exited,
            out, log)
    }

    ghost predicate Valid()
      reads this, Repr()
    {
      Inv(View())
    }

    constructor (maxWrite: nat, maxRead: nat)
      ensures View() == Initial(maxWrite, maxRead) && Valid() && fresh(Repr())
    {
      step, reverse, forward, msg := Helo, None, [], null;
      binarymime, smtputf8, extensions, identity, tls := false, false, false, "", false;
      maxMsgSize, this.maxWrite, this.maxRead := MAX_MSG_SIZE_INITIAL, maxWrite, maxRead;
      readLimit := ReadLimit(maxRead, MAX_MSG_SIZE_INITIAL);
      unrecognized, exited, out, log := 0, false, [], [];
      new;
      InitialInv(maxWrite, maxRead);
    }

    method Reply(code: nat)
      modifies this`out
      ensures View() == old(View()).Replying(code)
    {
      out := out + [code];
    }

    /** The end of a session that has read too much. */
    method MaxOut()
      modifies this`out, this`exited
      ensures View() == MaxOutOp(old(View()))
    {
      Reply(552);
      exited := true;
    }

    method ResetAll()
      modifies this
      ensures View() == ResetOp(old(View())) && Repr() == {this}
    {
      SetPaths(None, []);
      ForgetFlags();
      ForgetMessage();
      SetMaxMsgSize(maxMsgSize);
      Enter(Mail, Reset);
    }

    /** max_msg_size: the size to advertise, and a new count of the octets that are read. */
    method SetMaxMsgSize(max: nat)
      modifies this`maxMsgSize, this`readLimit
      ensures View() == old(View()).(maxMsgSize := max, readLimit := ReadLimit(maxRead, max))
    {
      maxMsgSize := max;
      if maxRead != 0 {
        readLimit := maxRead;
      } else {
        var overhead := if max / 10 < 2048 then 2048 else max / 10;
        readLimit := max + overhead;
      }
    }

    method ForgetFlags()
      modifies this`binarymime, this`smtputf8
      ensures View() == old(View()).(binarymime := false, smtputf8 := false)
    {
      binarymime, smtputf8 := false, false;
    }

    method ForgetMessage()
      modifies this`msg
      ensures msg == null && View() == old(View()).(store := None)
    {
      if msg != null {
        msg := null;
      }
    }

    method Lo(extended: bool, clientIdentity: string, verdict: Option<nat>)
      modifies this
      ensures View() == LoOp(old(View()), extended, clientIdentity, verdict) && Repr() == {this}
    {
      ResetAll();
      if !SameDomain(identity, clientIdentity) {
        identity := clientIdentity;
        if verdict.Some? {
          Reply(verdict.value);
          exited := true;
          return;
        }
      }
      extensions := extended;
      Reply(250);
    }

    /** The loop over the parameters of MAIL. */
    method VerifyFromParams(params: seq<Param>) returns (ok: bool)
      modifies this`binarymime, this`smtputf8, this`out
      ensures (ok, View()) == FromParams(old(View()), params)
    {
      ghost var start := View();
      for i := 0 to |params|
        invariant FromParams(start, params) == FromParams(View(), params[i..])
      {
        match params[i] {
          case BodyBinaryMime =>
            binarymime := true;
          case SmtpUtf8 =>
            smtputf8 := true;
          case Size(n) =>
            if n > maxMsgSize {
              Reply(552);
              return false;
            }
          case RequireTls =>
            if !tls {
              Reply(554);
              return false;
            }
          case _ =>
        }
        assert params[i..][1..] == params[i + 1..];
      }
      ok := true;
    }

    method MailFrom(from: Mailbox, params: seq<Param>, verdict: Option<nat>)
      modifies this
      ensures View() == MailOp(old(View()), from, params, verdict) && msg == old(msg)
    {
      hide FromParams, MailAcceptedOp;
      if step != Mail {
        Reply(503);
        return;
      }
      var ok := VerifyFromParams(params);
      if !ok {
        return;
      }
      if verdict.Some? {
        Reply(verdict.value);
        exited := true;
        return;
      }
      AcceptMail(from);
    }

    method AcceptMail(from: Mailbox)
      modifies this
      ensures View() == MailAcceptedOp(old(View()), from) && msg == old(msg)
    {
      SetPaths(Some(from), []);
      Reply(250);
      Enter(Rcpt, MailAccepted(from));
    }

    method SetPaths(from: Option<Mailbox>, to: seq<Mailbox>)
      modifies this`reverse, this`forward
      ensures View() == old(View()).(reverse := from, forward := to)
    {
      reverse, forward := from, to;
    }

    method Enter(next: Step, ghost e: Event)
      modifies this`step, this`log
      ensures View() == old(View()).(step := next).Logging(e)
    {
      step := next;
      log := log + [e];
    }

    method RcptTo(to: Mailbox, verdict: Option<nat>)
      modifies this
      ensures View() == RcptOp(old(View()), to, verdict) && msg == old(msg)
    {
      if step != Rcpt && step != Data {
        Reply(503);
        return;
      }
      if verdict.Some? {
        Reply(verdict.value);
        return;
      }
      if |forward| >= MAX_RECIPIENTS {
        Reply(452);
        return;
      }
      SetPaths(reverse, forward + [to]);
      Reply(250);
      Enter(Data, RcptAccepted(to));
    }

    /** Opens a fresh store; the choice of its folder looks at the first recipient. */
    method MsgNew(headers: Octets)
      requires (step == Data || step == Bdat) && |forward| > 0
      modifies this
      ensures View() == MsgNewOp(old(View()), headers)
      ensures msg != null && fresh(msg)
    {
      var store := new MessageStore();
      msg := store;
      if maxWrite == 0 {
        maxWrite := maxMsgSize;
      }
      var folderRecipient := forward[0];
      msg.Open(maxWrite);
      msg.Write(headers);
      log := log + [Opened(KindOf(step), headers)];
    }

    method MsgWrite(ghost via: Kind, octets: Octets) returns (ok: bool)
      modifies Repr()
      ensures (ok, View()) == MsgWriteOp(old(View()), via, octets) && msg == old(msg)
    {
      if step != Data && step != Bdat {
        return false;
      }
      if msg == null {
        return false;
      }
      msg.Write(octets);
      log := log + [Given(via, octets)];
      return true;
    }

    method DataStart(headers: Octets) returns (ok: bool)
      requires Valid()
      modifies this
      ensures (ok, View()) == DataStartOp(old(View()), headers)
      ensures fresh(Repr() - old(Repr()))
    {
      if step != Data {
        Reply(503);
        return false;
      }
      if binarymime {
        Reply(503);
        step := Rset;
        return false;
      }
      MsgNew(headers);
      Reply(354);
      return true;
    }

    method Deliver()
      requires msg != null
      modifies this`log
      ensures View() == DeliverOp(old(View()))
    {
      log := log + [Delivered(if reverse.Some? then reverse.value else "", forward, msg.contents)];
    }

    method DataDone()
      requires step == Data && msg != null
      modifies this
      ensures View() == DataDoneOp(old(View())) && Repr() == {this}
    {
      if msg.sizeError {
        Reply(552);
        ResetAll();
        return;
      }
      Deliver();
      Reply(250);
      ResetAll();
    }

    method BdatStart(headers: Octets) returns (ok: bool)
      requires Valid()
      modifies this
      ensures (ok, View()) == BdatStartOp(old(View()), headers)
      ensures fresh(Repr() - old(Repr()))
    {
      if step == Bdat {
        return true;
      }
      if step != Data {
        Reply(503);
        return false;
      }
      step := Bdat;
      MsgNew(headers);
      return true;
    }

    method BdatDone(last: bool)
      modifies this
      ensures View() == BdatDoneOp(old(View()), last) && Repr() <= old(Repr())
    {
      if step != Bdat {
        BdatError(503);
        return;
      }
      if msg == null {
        return;
      }
      if msg.sizeError {
        BdatError(552);
        return;
      }
      if !last {
        Reply(250);
        return;
      }
      Deliver();
      Reply(250);
      ResetAll();
    }

    /** bdat_size_error, bdat_seq_error and bdat_io_error differ in the reply only. */
    method BdatError(code: nat)
      modifies this
      ensures View() == ResetOp(old(View()).Replying(code)) && Repr() == {this}
    {
      Reply(code);
      ResetAll();
    }
  }
}
