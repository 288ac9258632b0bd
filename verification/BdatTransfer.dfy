/** Sending a message in counted chunks with BDAT: what the server makes of a chunk, the client that
    sends one chunk after the other, and what is delivered. */
module BdatTransfer {
  import opened Store
  import opened SmtpSession
  import opened DataTransfer
  import Seqs
  import Decimal

  // ----- one chunk on the server -----------------------------------------------------------------

  /** The reads that transfer a chunk through a buffer: as many as the input allows. */
  function Transfers(input: Octets, toXfer: nat, bfrSize: nat): seq<Octets>
    requires toXfer > 0 ==> bfrSize > 0
    decreases toXfer
  {
    if toXfer == 0 then []
    else
      var n := if toXfer < bfrSize then toXfer else bfrSize;
      if |input| < n then [] else [input[..n]] + Transfers(input[n..], toXfer - n, bfrSize)
  }

  /** All the octets of the chunk in order, however small the buffer. */
  lemma {:induction false} TransfersWhole(input: Octets, toXfer: nat, bfrSize: nat)
    requires (toXfer > 0 ==> bfrSize > 0) && toXfer <= |input|
    ensures Concat(Transfers(input, toXfer, bfrSize)) == input[..toXfer]
    decreases toXfer
  {
    if toXfer > 0 {
      var n := if toXfer < bfrSize then toXfer else bfrSize;
      TransfersWhole(input[n..], toXfer - n, bfrSize);
      var rest := Transfers(input[n..], toXfer - n, bfrSize);
      assert ([input[..n]] + rest)[1..] == rest;
      assert input[..n] + input[n..][..toXfer - n] == input[..toXfer];
    }
  }

  function Min(a: nat, b: nat): nat {
    if a < b then a else b
  }

  function InputKind(input: Octets, chunkSize: nat, maxed: bool): ChunkInput {
    if |input| >= chunkSize then Whole else if maxed then MaxedOut else Short
  }

  /** The BDAT command of the server.  It takes exactly the octets of its chunk from the input, also
      when the command is refused. */
  method BdatAct(session: Session, input: Octets, chunkSize: nat, maxXfer: nat, last: bool,
                 headers: Octets, maxed: bool)
      returns (rest: Octets)
    requires session.Valid() && maxXfer >= 1
    modifies session.Repr()
    ensures session.View() == BdatOp(old(session.View()), headers,
              Transfers(input, chunkSize, Min(chunkSize, maxXfer)), InputKind(input, chunkSize, maxed), last)
    ensures session.Valid() && fresh(session.Repr() - old(session.Repr()))
    ensures rest == if |input| >= chunkSize then input[chunkSize..] else ""
  {
    hide Inv, LogRight, MsgWritesOp, BdatDoneOp, BdatStartOp, BdatOp, Transfers, Session.View, Transferring;
    ghost var start, pieces := session.View(), Transfers(input, chunkSize, Min(chunkSize, maxXfer));
    BdatInv(start, headers, pieces, InputKind(input, chunkSize, maxed), last);
    StartedInv(start, headers);
    BdatOpSteps(start, headers, pieces, InputKind(input, chunkSize, maxed), last);
    var started := session.BdatStart(headers);
    var size := Min(chunkSize, maxXfer);
    var statusReturned, complete;
    rest, complete, statusReturned := TransferAll(session, input, chunkSize, size, !started);
    if !complete {
      if !statusReturned {
        session.BdatError(if maxed then 552 else 503);
      }
      return;
    }
    if !statusReturned {
      session.BdatDone(last);
    }
  }

  /** The loop of reads: what is read goes to the message, until the chunk or the input ends. */
  method TransferAll(session: Session, input: Octets, chunkSize: nat, size: nat, answered: bool)
      returns (rest: Octets, complete: bool, statusReturned: bool)
    requires Transferring(session.View(), !answered) && (chunkSize > 0 ==> size > 0)
    modifies session.Repr()
    ensures session.View() == MsgWritesOp(old(session.View()), ByBdat, Transfers(input, chunkSize, size))
    ensures session.Repr() <= old(session.Repr()) && statusReturned == answered
    ensures complete == (|input| >= chunkSize)
    ensures rest == if complete then input[chunkSize..] else ""
  {
    hide MsgWriteOp, MsgWritesOp, Transfers, Session.View, Transferring;
    ghost var t, done: seq<Octets> := session.View(), [];
    NoPieces(t, input, chunkSize, size);
    var toXfer := chunkSize;
    rest, complete, statusReturned := input, true, answered;
    while toXfer > 0
      invariant 0 <= toXfer <= chunkSize && |input| - |rest| == chunkSize - toXfer
      invariant rest == input[chunkSize - toXfer..]
      invariant statusReturned == answered && session.Repr() <= old(session.Repr())
      invariant Transferring(session.View(), !answered)
      invariant session.View() == MsgWritesOp(t, ByBdat, done)
      invariant Transfers(input, chunkSize, size) == done + Transfers(rest, toXfer, size)
    {
      var n := if toXfer < size then toXfer else size;
      TransferStep(rest, toXfer, size, done);
      if |rest| < n {
        return "", false, statusReturned;
      }
      WritesSnoc(t, ByBdat, done, rest[..n]);
      WriteTransfers(session.View(), !answered, rest[..n]);
      statusReturned := PassOn(session, rest[..n], statusReturned);
      done := done + [rest[..n]];
      toXfer := toXfer - n;
      rest := rest[n..];
    }
    AllTransferred(rest, size, done);
  }

  /** Passes on what was read; a refusal is answered unless the command has been answered before. */
  method PassOn(session: Session, octets: Octets, answered: bool) returns (statusReturned: bool)
    modifies session.Repr()
    ensures var (ok, t) := MsgWriteOp(old(session.View()), ByBdat, octets);
            && session.View() == (if ok || answered then t else ResetOp(t.Replying(552)))
            && statusReturned == (answered || !ok)
    ensures session.Repr() <= old(session.Repr())
  {
    hide MsgWriteOp, Session.View;
    statusReturned := answered;
    var ok := session.MsgWrite(ByBdat, octets);
    if !ok {
      if !statusReturned {
        session.BdatError(552);
      }
      statusReturned := true;
    }
  }

  /** The state during the transfer: in a started one every write finds its store. */
  ghost predicate Transferring(s: State, started: bool) {
    if started then Inv(s) && s.step == Bdat && s.store.Some?
    else s.step != Data && s.step != Bdat
  }

  lemma StartedInv(s: State, headers: Octets)
    requires Inv(s)
    ensures Transferring(BdatStartOp(s, headers).1, BdatStartOp(s, headers).0)
  {
    hide Inv, LogRight;
    if s.step == Data {
      MsgNewInv(s, headers);
    }
    if s.step == Bdat {
      InvBdat(s);
    }
  }

  lemma WriteTransfers(s: State, started: bool, octets: Octets)
    requires Transferring(s, started)
    ensures MsgWriteOp(s, ByBdat, octets).0 == started
    ensures Transferring(MsgWriteOp(s, ByBdat, octets).1, started)
  {
    hide Inv, LogRight;
    if started {
      MsgWriteInv(s, ByBdat, octets);
    }
  }

  lemma NoPieces(t: State, input: Octets, toXfer: nat, bfrSize: nat)
    requires toXfer > 0 ==> bfrSize > 0
    ensures MsgWritesOp(t, ByBdat, []) == t
    ensures Transfers(input, toXfer, bfrSize) == [] + Transfers(input, toXfer, bfrSize)
    ensures input[0..] == input
  {}

  lemma TransferStep(input: Octets, toXfer: nat, size: nat, done: seq<Octets>)
    requires toXfer > 0 && size > 0
    ensures var n := if toXfer < size then toXfer else size;
            done + Transfers(input, toXfer, size)
            == if |input| < n then done else (done + [input[..n]]) + Transfers(input[n..], toXfer - n, size)
  {
    var n := if toXfer < size then toXfer else size;
    if |input| >= n {
      Seqs.Assoc(done, [input[..n]], Transfers(input[n..], toXfer - n, size));
    }
  }

  lemma AllTransferred(input: Octets, size: nat, done: seq<Octets>)
    ensures done + Transfers(input, 0, size) == done
  {}

  // ----- the client ------------------------------------------------------------------------------

  /** The chunks that reading a stream through a buffer gives: full ones and a last one that is not. */
  function Chunks(m: Octets, size: nat): seq<Octets>
    requires size > 0
    decreases |m|
  {
    if |m| < size then [m] else [m[..size]] + Chunks(m[size..], size)
  }

  lemma {:induction false} ChunksWhole(m: Octets, size: nat)
    requires size > 0
    ensures Concat(Chunks(m, size)) == m && Chunks(m, size) != []
    decreases |m|
  {
    if |m| < size {
      ConcatOne(m);
    } else {
      ChunksWhole(m[size..], size);
      var rest := Chunks(m[size..], size);
      assert ([m[..size]] + rest)[1..] == rest;
    }
  }

  function LastReply(s: State): nat {
    if s.out == [] then 0 else s.out[|s.out| - 1]
  }

  function ChunkOp(s: State, headers: Octets, chunk: Octets, maxXfer: nat, last: bool): State
    requires maxXfer >= 1
  {
    BdatOp(s, headers, Transfers(chunk, |chunk|, Min(|chunk|, maxXfer)), Whole, last)
  }

  /** The command line of a chunk, and of the empty last one. */
  function BdatLine(size: nat): Octets {
    "BDAT " + Decimal.Notation(size) + "\r\n"
  }

  const LAST_LINE := "BDAT 0 LAST\r\n"

  /** How the chunks fare: all accepted, one refused, or one that did not come through whole. */
  datatype Sending = Accepted(state: State, room: nat) | Refused(state: State, room: nat) | CutOff(state: State)

  /** One chunk with its line through a connection that lets only room octets through. */
  function SendOne(s: State, headers: Octets, chunk: Octets, maxXfer: nat, room: nat): Sending
    requires maxXfer >= 1
  {
    var line := |BdatLine(|chunk|)|;
    if room < line then CutOff(MaxOutOp(s))
    else if room - line < |chunk| then
      CutOff(BdatOp(s, headers, Transfers(chunk[..room - line], |chunk|, Min(|chunk|, maxXfer)), MaxedOut, false))
    else
      var t := ChunkOp(s, headers, chunk, maxXfer, false);
      if LastReply(t) != 250 then Refused(t, room - line - |chunk|) else Accepted(t, room - line - |chunk|)
  }

  /** The chunks one after the other, as long as each is accepted. */
  function SendChunks(s: State, headers: Octets, chunks: seq<Octets>, maxXfer: nat, room: nat): Sending
    requires maxXfer >= 1
    decreases |chunks|
  {
    if chunks == [] then Accepted(s, room)
    else
      var r := SendOne(s, headers, chunks[0], maxXfer, room);
      if r.Accepted? then SendChunks(r.state, headers, chunks[1..], maxXfer, r.room) else r
  }

  /** The whole exchange: an empty last chunk follows, unless the connection is at its limit. */
  function DoBdatOp(s: State, headers: Octets, chunks: seq<Octets>, maxXfer: nat, room: nat): (State, bool)
    requires maxXfer >= 1
  {
    var r := SendChunks(s, headers, chunks, maxXfer, room);
    if r.CutOff? then (r.state, false)
    else if r.room < |LAST_LINE| then (MaxOutOp(r.state), false)
    else
      var u := ChunkOp(r.state, headers, "", maxXfer, true);
      (u, LastReply(u) == 250 && r.Accepted?)
  }

  /** How many octets an exchange takes on the wire. */
  function ChunksSize(chunks: seq<Octets>): nat {
    if chunks == [] then 0 else |BdatLine(|chunks[0]|)| + |chunks[0]| + ChunksSize(chunks[1..])
  }

  function ExchangeSize(chunks: seq<Octets>): nat {
    ChunksSize(chunks) + |LAST_LINE|
  }

  /** One chunk at both ends of the connection. */
  method SendChunk(session: Session, chunk: Octets, maxXfer: nat, headers: Octets, room: nat)
      returns (cut: bool, accepted: bool, left: nat)
    requires session.Valid() && maxXfer >= 1
    modifies session.Repr()
    ensures SendOne(old(session.View()), headers, chunk, maxXfer, room)
         == if cut then CutOff(session.View())
            else if accepted then Accepted(session.View(), left) else Refused(session.View(), left)
    ensures !cut ==> session.Valid() && fresh(session.Repr() - old(session.Repr()))
  {
    hide BdatOp, Inv, LogRight, Transfers, BdatLine;
    var line := |BdatLine(|chunk|)|;
    if room < line {
      session.MaxOut();
      return true, false, 0;
    }
    left := room - line;
    WholeThrough(chunk, left);
    var rest := BdatAct(session, Through(chunk, left), |chunk|, maxXfer, false, headers, true);
    if left < |chunk| {
      return true, false, 0;
    }
    left := left - |chunk|;
    accepted := |session.out| > 0 && session.out[|session.out| - 1] == 250;
    cut := false;
  }

  lemma WholeThrough(s: Octets, room: nat)
    ensures |s| <= room ==> Through(s, room) == s
    ensures room < |s| ==> Through(s, room) == s[..room] && |Through(s, room)| < |s|
  {}

  /** The client at one end of the connection and the server at the other. */
  method DoBdat(session: Session, m: Octets, bfrSize: nat, maxXfer: nat, headers: Octets, room: nat)
      returns (ok: bool)
    requires session.Valid() && bfrSize > 0 && maxXfer >= 1
    modifies session.Repr()
    ensures (session.View(), ok) == DoBdatOp(old(session.View()), headers, Chunks(m, bfrSize), maxXfer, room)
  {
    hide BdatOp, ChunkOp, SendOne, Inv, LogRight, Transfers, Chunks, MaxOutOp;
    ghost var start := session.View();
    var bdatError, eof, text := false, false, m;
    var left: nat := room;
    while !eof && !bdatError
      invariant session.Valid() && fresh(session.Repr() - old(session.Repr()))
      invariant !eof && !bdatError ==>
        SendChunks(start, headers, Chunks(m, bfrSize), maxXfer, room)
        == SendChunks(session.View(), headers, Chunks(text, bfrSize), maxXfer, left)
      invariant eof || bdatError ==>
        SendChunks(start, headers, Chunks(m, bfrSize), maxXfer, room)
        == if bdatError then Refused(session.View(), left) else Accepted(session.View(), left)
      decreases |text|, !eof && !bdatError
    {
      var chunk := if |text| < bfrSize then text else text[..bfrSize];
      ChunksStep(text, bfrSize);
      eof := |text| < bfrSize;
      text := if eof then "" else text[bfrSize..];
      var cut, accepted;
      cut, accepted, left := SendChunk(session, chunk, maxXfer, headers, left);
      if cut {
        return false;
      }
      bdatError := !accepted;
    }
    if left < |LAST_LINE| {
      session.MaxOut();
      return false;
    }
    LastChunkThrough(session.View(), headers, maxXfer);
    var rest := BdatAct(session, "", 0, maxXfer, true, headers, false);
    if |session.out| == 0 || session.out[|session.out| - 1] != 250 {
      return false;
    }
    return !bdatError;
  }

  lemma LastChunkThrough(s: State, headers: Octets, maxXfer: nat)
    requires maxXfer >= 1
    ensures ChunkOp(s, headers, "", maxXfer, true)
         == BdatOp(s, headers, Transfers("", 0, Min(0, maxXfer)), InputKind("", 0, false), true)
  {
    hide BdatOp, Transfers;
  }

  lemma ChunksStep(m: Octets, size: nat)
    requires size > 0
    ensures var chunk := if |m| < size then m else m[..size];
            && Chunks(m, size) != [] && Chunks(m, size)[0] == chunk
            && Chunks(m, size)[1..] == if |m| < size then [] else Chunks(m[size..], size)
  {}

  // ----- end to end ------------------------------------------------------------------------------

  /** What becomes of a started transfer when one more chunk arrives whole. */
  lemma ChunkResult(s: State, headers: Octets, chunk: Octets, maxXfer: nat)
    requires maxXfer >= 1 && s.step == Bdat && s.store.Some? && Sized(s.store.value)
    ensures var t, st := ChunkOp(s, headers, chunk, maxXfer, false), s.store.value;
            && HasNoDelivery(s.log, t.log)
            && (if !st.sizeError && st.size + |chunk| <= st.maxSize
                then t.out == s.out + [250] && t.step == Bdat && t.reverse == s.reverse && t.forward == s.forward
                     && t.store.Some? && Sized(t.store.value) && !t.store.value.sizeError
                     && t.store.value.maxSize == st.maxSize && t.store.value.contents == st.contents + chunk
                else t.out == s.out + [552] && t.step == Mail && t.store.None?)
  {
    hide MsgWritesOp, Transfers;
    var pieces := Transfers(chunk, |chunk|, Min(|chunk|, maxXfer));
    TransfersWhole(chunk, |chunk|, Min(|chunk|, maxXfer));
    assert chunk[..|chunk|] == chunk;
    WritesKeep(s, ByBdat, pieces);
    WritesStore(s, ByBdat, pieces);
    WritesLog(s, ByBdat, pieces);
    WriteAllResult(s.store.value, pieces);
  }

  /** A chunk that does not come through whole delivers nothing. */
  lemma CutResult(s: State, headers: Octets, pieces: seq<Octets>)
    ensures HasNoDelivery(s.log, BdatOp(s, headers, pieces, MaxedOut, false).log)
  {
    hide MsgWritesOp, ResetOp;
    BdatOpSteps(s, headers, pieces, MaxedOut, false);
    var t := BdatStartOp(s, headers).1;
    WritesLog(t, ByBdat, pieces);
    ResetKeepsOut(MsgWritesOp(t, ByBdat, pieces).Replying(552));
  }

  /** A transfer in progress takes chunks as long as all of them together fit and come through. */
  lemma {:induction false} SendResult(s: State, headers: Octets, chunks: seq<Octets>, maxXfer: nat, room: nat)
    requires maxXfer >= 1 && s.step == Bdat && s.store.Some? && Sized(s.store.value) && !s.store.value.sizeError
    ensures var r := SendChunks(s, headers, chunks, maxXfer, room);
            var st := s.store.value;
            && HasNoDelivery(s.log, r.state.log)
            && (r.Accepted? <==> st.size + |Concat(chunks)| <= st.maxSize && ChunksSize(chunks) <= room)
            && (r.Accepted? ==> InTransfer(s, r.state, Concat(chunks)) && r.room == room - ChunksSize(chunks))
            && (r.Refused? ==> r.state.step == Mail)
    decreases |chunks|
  {
    hide ChunkOp, BdatOp, Transfers, BdatLine, MaxOutOp;
    if chunks == [] {
      assert s.store.value.contents + "" == s.store.value.contents;
    } else {
      SendOneResult(s, headers, chunks[0], maxXfer, room);
      var r := SendOne(s, headers, chunks[0], maxXfer, room);
      hide SendOne;
      if r.Accepted? {
        SendResult(r.state, headers, chunks[1..], maxXfer, r.room);
        Seqs.Assoc(s.store.value.contents, chunks[0], Concat(chunks[1..]));
      }
    }
  }

  /** The state of a transfer after some more octets. */
  ghost predicate InTransfer(s: State, t: State, octets: Octets)
    requires s.store.Some?
  {
    && t.step == Bdat && t.reverse == s.reverse && t.forward == s.forward
    && t.store.Some? && Sized(t.store.value) && !t.store.value.sizeError
    && t.store.value.maxSize == s.store.value.maxSize && t.store.value.contents == s.store.value.contents + octets
  }

  lemma SendOneResult(s: State, headers: Octets, chunk: Octets, maxXfer: nat, room: nat)
    requires maxXfer >= 1 && s.step == Bdat && s.store.Some? && Sized(s.store.value) && !s.store.value.sizeError
    ensures var r := SendOne(s, headers, chunk, maxXfer, room);
            var st, n := s.store.value, |BdatLine(|chunk|)| + |chunk|;
            && HasNoDelivery(s.log, r.state.log)
            && (r.Accepted? <==> st.size + |chunk| <= st.maxSize && n <= room)
            && (r.Accepted? ==> InTransfer(s, r.state, chunk) && r.room == room - n)
            && (r.Refused? ==> r.state.step == Mail)
  {
    hide ChunkOp, BdatOp, Transfers, BdatLine;
    ChunkResult(s, headers, chunk, maxXfer);
    var line := |BdatLine(|chunk|)|;
    if line <= room < line + |chunk| {
      CutResult(s, headers, Transfers(chunk[..room - line], |chunk|, Min(|chunk|, maxXfer)));
    }
  }

  lemma LastChunkResult(s: State, headers: Octets, maxXfer: nat)
    requires maxXfer >= 1 && (s.step == Bdat ==> s.store.Some? && s.reverse.Some?)
    requires s.step != Data
    ensures var t := ChunkOp(s, headers, "", maxXfer, true);
            if s.step == Bdat && !s.store.value.sizeError
            then LastReply(t) == 250
                 && t.log == s.log + [Delivered(s.reverse.value, s.forward, s.store.value.contents), Reset]
            else LastReply(t) != 250 && HasNoDelivery(s.log, t.log)
  {
    hide ChunkOp;
    LastChunkIs(s, headers, maxXfer);
  }

  lemma LastChunkIs(s: State, headers: Octets, maxXfer: nat)
    requires maxXfer >= 1 && s.step != Data
    ensures ChunkOp(s, headers, "", maxXfer, true)
         == if s.step == Bdat then BdatDoneOp(s, true) else s.Replying(503)
  {
    hide BdatDoneOp;
    assert Transfers("", 0, 0) == [];
  }

  /** The whole exchange from a session that awaits the message: the client succeeds exactly when the
      headers and all the chunks fit the limit and the exchange comes through, and then they are
      delivered, in order, to the accepted recipients; otherwise nothing is delivered. */
  lemma {:induction false} BdatEndToEnd(s: State, headers: Octets, chunks: seq<Octets>, maxXfer: nat, room: nat)
    requires maxXfer >= 1 && Inv(s) && s.step == Data && chunks != []
    ensures var (t, ok) := DoBdatOp(s, headers, chunks, maxXfer, room);
            && (ok <==> |headers| + |Concat(chunks)| <= Limit(s) && ExchangeSize(chunks) <= room)
            && (ok ==> |t.log| >= 2)
            && (ok ==> t.log[|t.log| - 2] == Delivered(s.reverse.value, s.forward, headers + Concat(chunks)))
            && (!ok ==> HasNoDelivery(s.log, t.log))
  {
    hide Inv, LogRight, SendChunks, ChunkOp, MsgNewOp, MaxOutOp;
    InvData(s);
    FirstResult(s, headers, chunks, maxXfer, room);
    var r := SendChunks(s, headers, chunks, maxXfer, room);
    MaxOutKeepsLog(r.state);
    if !r.CutOff? {
      LastChunkResult(r.state, headers, maxXfer);
    }
  }

  lemma MaxOutKeepsLog(s: State)
    ensures MaxOutOp(s).log == s.log
  {}

  /** All the chunks from a session that awaits the message. */
  lemma FirstResult(s: State, headers: Octets, chunks: seq<Octets>, maxXfer: nat, room: nat)
    requires maxXfer >= 1 && s.step == Data && s.reverse.Some? && chunks != []
    ensures var r := SendChunks(s, headers, chunks, maxXfer, room);
            && HasNoDelivery(s.log, r.state.log)
            && (r.Accepted? <==> |headers| + |Concat(chunks)| <= Limit(s) && ChunksSize(chunks) <= room)
            && (r.Accepted? ==> r.room == room - ChunksSize(chunks))
            && (r.Accepted? ==> r.state.step == Bdat && r.state.reverse == s.reverse && r.state.forward == s.forward
                                && r.state.store.Some? && !r.state.store.value.sizeError
                                && r.state.store.value.contents == headers + Concat(chunks))
            && (r.Refused? ==> r.state.step == Mail)
  {
    hide ChunkOp, MsgNewOp, BdatOp, Transfers, BdatLine, MaxOutOp, SendChunks;
    var b := MsgNewOp(s.(step := Bdat), headers);
    NewStore(s, headers);
    FirstChunk(s, headers, chunks[0], maxXfer);
    FirstStep(s, headers, chunks, maxXfer, room);
    ChunkResult(b, headers, chunks[0], maxXfer);
    MaxOutKeepsLog(s);
    var line := |BdatLine(|chunks[0]|)|;
    if line <= room < line + |chunks[0]| {
      CutResult(s, headers, Transfers(chunks[0][..room - line], |chunks[0]|, Min(|chunks[0]|, maxXfer)));
    }
    var r := SendOne(s, headers, chunks[0], maxXfer, room);
    if r.Accepted? {
      SendResult(r.state, headers, chunks[1..], maxXfer, r.room);
      Seqs.Assoc(headers, chunks[0], Concat(chunks[1..]));
    }
  }

  lemma FirstStep(s: State, headers: Octets, chunks: seq<Octets>, maxXfer: nat, room: nat)
    requires maxXfer >= 1 && chunks != []
    ensures var r := SendOne(s, headers, chunks[0], maxXfer, room);
            SendChunks(s, headers, chunks, maxXfer, room)
            == if r.Accepted? then SendChunks(r.state, headers, chunks[1..], maxXfer, r.room) else r
  {
    hide SendOne;
  }

  /** For the chunks that the client reads of a message: it arrives whole and unchanged, whatever the
      sizes of the buffers on both sides, exactly when the exchange comes through and all of it fits. */
  lemma MessageByBdat(s: State, headers: Octets, m: Octets, bfrSize: nat, maxXfer: nat, room: nat)
    requires bfrSize > 0 && maxXfer >= 1 && Inv(s) && s.step == Data
    ensures var (t, ok) := DoBdatOp(s, headers, Chunks(m, bfrSize), maxXfer, room);
            && (ok <==> |headers| + |m| <= Limit(s) && ExchangeSize(Chunks(m, bfrSize)) <= room)
            && (ok ==> |t.log| >= 2 && t.log[|t.log| - 2] == Delivered(s.reverse.value, s.forward, headers + m))
            && (!ok ==> HasNoDelivery(s.log, t.log))
  {
    hide Inv, LogRight, DoBdatOp, Chunks, ExchangeSize;
    ChunksWhole(m, bfrSize);
    BdatEndToEnd(s, headers, Chunks(m, bfrSize), maxXfer, room);
    InvData(s);
  }

  /** The first chunk opens the message. */
  lemma FirstChunk(s: State, headers: Octets, chunk: Octets, maxXfer: nat)
    requires maxXfer >= 1 && s.step == Data
    ensures ChunkOp(s, headers, chunk, maxXfer, false)
         == ChunkOp(MsgNewOp(s.(step := Bdat), headers), headers, chunk, maxXfer, false)
  {
    hide MsgWritesOp, Transfers, BdatDoneOp;
  }

  lemma NewStore(s: State, headers: Octets)
    ensures var b := MsgNewOp(s.(step := Bdat), headers);
            && b.step == Bdat && b.out == s.out && b.reverse == s.reverse && b.forward == s.forward
            && HasNoDelivery(s.log, b.log)
            && b.store.Some? && Sized(b.store.value) && b.store.value.maxSize == Limit(s)
            && (!b.store.value.sizeError <==> |headers| <= Limit(s))
            && (!b.store.value.sizeError ==> b.store.value.contents == headers)
  {
    assert "" + headers == headers;
  }

  /** From any other state nothing is delivered and the client is told so. */
  lemma {:induction false} BdatRefused(s: State, headers: Octets, chunks: seq<Octets>, maxXfer: nat, room: nat)
    requires maxXfer >= 1 && s.step != Data && s.step != Bdat && chunks != []
    ensures var (t, ok) := DoBdatOp(s, headers, chunks, maxXfer, room);
            !ok && HasNoDelivery(s.log, t.log)
  {
    hide Transfers, BdatOp, MsgWritesOp, BdatLine;
    FirstStep(s, headers, chunks, maxXfer, room);
    var chunk, line := chunks[0], |BdatLine(|chunks[0]|)|;
    RefusedOp(s, headers, Transfers(chunk, |chunk|, Min(|chunk|, maxXfer)), Whole, false);
    if line <= room < line + |chunk| {
      RefusedOp(s, headers, Transfers(chunk[..room - line], |chunk|, Min(|chunk|, maxXfer)), MaxedOut, false);
    }
    var t := s.Replying(503);
    RefusedOp(t, headers, Transfers("", 0, Min(0, maxXfer)), Whole, true);
  }

  lemma RefusedOp(s: State, headers: Octets, pieces: seq<Octets>, input: ChunkInput, last: bool)
    requires s.step != Data && s.step != Bdat
    ensures BdatOp(s, headers, pieces, input, last) == s.Replying(503)
  {
    RejectedWrites(s.Replying(503), ByBdat, pieces);
  }
}
