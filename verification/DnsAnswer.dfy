/** Checking that an answer is well formed, and reading the records of one that is. */
module DnsAnswer {
  import opened Options
  import opened DnsName
  import opened DnsPut
  import Seqs

  // ----- the parts of a message ------------------------------------------------------------------

  function QdCount(a: seq<Byte>): Word16
    requires |a| >= 12
  { As16(a[4], a[5]) }

  function AnCount(a: seq<Byte>): Word16
    requires |a| >= 12
  { As16(a[6], a[7]) }

  function NsCount(a: seq<Byte>): Word16
    requires |a| >= 12
  { As16(a[8], a[9]) }

  function ArCount(a: seq<Byte>): Word16
    requires |a| >= 12
  { As16(a[10], a[11]) }

  function Rcode(a: seq<Byte>): nat
    requires |a| >= 12
  { a[3] % 16 }

  predicate Truncation(a: seq<Byte>)
    requires |a| >= 12
  { (a[2] / 2) % 2 == 1 }

  predicate AuthenticData(a: seq<Byte>)
    requires |a| >= 12
  { (a[3] / 32) % 2 == 1 }

  function RdLength(a: seq<Byte>, body: nat): Word16
    requires body + 10 <= |a|
  { As16(a[body + 8], a[body + 9]) }

  function RrType(a: seq<Byte>, body: nat): Word16
    requires body + 10 <= |a|
  { As16(a[body], a[body + 1]) }

  predicate NameOk(a: seq<Byte>, p: nat) {
    Decode(a, p, MaxHops(a)).Some?
  }

  function NameText(a: seq<Byte>, p: nat): seq<Byte>
    requires NameOk(a, p)
  {
    Text(Decode(a, p, MaxHops(a)).value)
  }

  // ----- a message tiled by records --------------------------------------------------------------

  /** Where a record starts, where its fixed part starts after the name, and where it ends. */
  datatype Extent = Extent(start: nat, body: nat, end: nat)

  /** From p on the message is exactly these records one after the other: each a well-formed
      name, ten fixed octets, and as many octets of data as it says. */
  ghost predicate Tiled(a: seq<Byte>, p: nat, recs: seq<Extent>)
    decreases |recs|
  {
    if recs == [] then p == |a|
    else
      var r := recs[0];
      && r.start == p && WellFormedName(a, p) && r.body == p + SizeInPlace(a, p)
      && r.body + 10 <= |a| && r.end == r.body + 10 + RdLength(a, r.body) && r.end <= |a|
      && Tiled(a, r.end, recs[1..])
  }

  /** The same name up to ASCII case and a trailing dot. */
  function Upper(c: Byte): Byte {
    if 97 <= c <= 122 then c - 32 else c
  }

  function WithoutDot(t: seq<Byte>): seq<Byte> {
    if t != [] && t[|t| - 1] == DOT then t[..|t| - 1] else t
  }

  predicate SameName(s: seq<Byte>, t: seq<Byte>) {
    var u, v := WithoutDot(s), WithoutDot(t);
    |u| == |v| && forall i | 0 <= i < |u| :: Upper(u[i]) == Upper(v[i])
  }

  /** The question of a message is for this name, type and class. */
  ghost predicate Asks(a: seq<Byte>, name: seq<Byte>, qtype: Word16, qclass: Word16)
    requires |a| >= 12
  {
    && QdCount(a) == 1
    && WellFormedName(a, 12) && NameOk(a, 12) && SameName(NameText(a, 12), name)
    && var p := 12 + SizeInPlace(a, 12);
    && p + 4 < |a| && As16(a[p], a[p + 1]) == qtype && As16(a[p + 2], a[p + 3]) == qclass
  }

  /** An answer that can be used: no error but a missing name, not cut short, the question that was
      asked, and nothing but the announced number of records after it. */
  ghost predicate GoodAnswer(a: seq<Byte>, name: seq<Byte>, qtype: Word16, qclass: Word16)
    requires |a| >= 12
  {
    && Rcode(a) in {0, 3} && !Truncation(a)
    && Asks(a, name, qtype, qclass)
    && exists recs: seq<Extent> :: IsRecords(a, recs)
  }

  ghost predicate IsRecords(a: seq<Byte>, recs: seq<Extent>)
    requires |a| >= 12
  {
    && |recs| == AnCount(a) + NsCount(a) + ArCount(a)
    && Tiled(a, 12 + SizeInPlace(a, 12) + 4, recs)
  }

  // ----- the section walk ------------------------------------------------------------------------

  /** Where k records that start at p end; the last one may reach past the message. */
  function Walk(a: seq<Byte>, p: nat, k: nat): Option<nat>
    decreases k
  {
    if k == 0 then Some(p)
    else if !NameOk(a, p) || p + SizeInPlace(a, p) + 10 > |a| then None
    else
      var body := p + SizeInPlace(a, p);
      Walk(a, body + 10 + RdLength(a, body), k - 1)
  }

  lemma {:induction false} WalkAdd(a: seq<Byte>, p: nat, j: nat, k: nat)
    ensures Walk(a, p, j + k) == match Walk(a, p, j) case None => None case Some(q) => Walk(a, q, k)
    decreases j
  {
    if j > 0 && NameOk(a, p) && p + SizeInPlace(a, p) + 10 <= |a| {
      var body := p + SizeInPlace(a, p);
      WalkAdd(a, body + 10 + RdLength(a, body), j - 1, k);
    }
  }

  lemma {:induction false} WalkForward(a: seq<Byte>, p: nat, k: nat)
    ensures Walk(a, p, k).Some? ==> Walk(a, p, k).value >= p
    decreases k
  {
    if k > 0 && NameOk(a, p) && p + SizeInPlace(a, p) + 10 <= |a| {
      var body := p + SizeInPlace(a, p);
      WalkForward(a, body + 10 + RdLength(a, body), k - 1);
    }
  }

  /** A walk that ends at the end of the message is a tiling. */
  lemma {:induction false} WalkTiles(a: seq<Byte>, p: nat, k: nat) returns (recs: seq<Extent>)
    requires Walk(a, p, k) == Some(|a|)
    ensures |recs| == k && Tiled(a, p, recs)
    decreases k
  {
    hide Decode, SizeInPlace, WellFormedName;
    if k == 0 {
      recs := [];
    } else {
      var body := p + SizeInPlace(a, p);
      var next := body + 10 + RdLength(a, body);
      WalkForward(a, next, k - 1);
      var rest := WalkTiles(a, next, k - 1);
      WellFormedIffDecodes(a, p);
      recs := [Extent(p, body, next)] + rest;
      assert recs[1..] == rest;
    }
  }

  lemma {:induction false} TiledWalks(a: seq<Byte>, p: nat, recs: seq<Extent>)
    requires Tiled(a, p, recs)
    ensures Walk(a, p, |recs|) == Some(|a|)
    decreases |recs|
  {
    hide Decode, SizeInPlace, WellFormedName;
    if recs != [] {
      WellFormedIffDecodes(a, p);
      TiledWalks(a, recs[0].end, recs[1..]);
    }
  }

  // ----- check_answer ----------------------------------------------------------------------------

  datatype Verdict = Verdict(nxDomain: bool, bogus: bool, rcode: nat,
                             truncation: bool, authenticData: bool, hasRecord: bool)

  /** Our own question passes the checks on it. */
  predicate OwnQuestion(q: seq<Byte>, qtype: Word16) {
    && |q| >= 12 && QdCount(q) == 1 && NameOk(q, 12)
    && var p := 12 + SizeInPlace(q, 12);
    && p + 4 <= |q| && As16(q[p], q[p + 1]) == qtype
  }

  function OwnClass(q: seq<Byte>): Word16
    requires |q| >= 12 && 12 + SizeInPlace(q, 12) + 4 <= |q|
  {
    var p := 12 + SizeInPlace(q, 12);
    As16(q[p + 2], q[p + 3])
  }

  /** A question that is made here is one of ours. */
  lemma CreatedIsOwn(labels: seq<Label>, qtype: Word16, qclass: Word16, id: Word16)
    requires WithinLimits(labels)
    ensures var q := QuestionMessage(labels, qtype, qclass, id);
            && OwnQuestion(q, qtype) && OwnClass(q) == qclass && NameText(q, 12) == Text(labels)
  {
    hide QuestionMessage;
    QuestionReadsBack(labels, qtype, qclass, id);
  }

  /** Walks over k records from p; fails where the walk itself would, or past the message. */
  method SkipRecords(a: seq<Byte>, start: nat, k: nat) returns (ok: bool, p: nat)
    ensures ok <==> Walk(a, start, k).Some?
    ensures ok ==> p == Walk(a, start, k).value
  {
    hide Decode, SizeInPlace, WellFormedName;
    p := start;
    for i := 0 to k
      invariant Walk(a, start, k) == Walk(a, p, k - i)
    {
      var found, x, encLen := ExpandName(p, a);
      if !found || p + encLen + 10 > |a| {
        return false, p;
      }
      p := p + encLen;
      p := p + 10 + RdLength(a, p);
    }
    ok := true;
  }

  /** Checks the answer a to the question q.  It is bogus or indeterminate exactly when it is not a
      good answer to the question; None stands for a failed check on our own question. */
  method CheckAnswer(q: seq<Byte>, a: seq<Byte>, qtype: Word16, name: seq<Byte>) returns (r: Option<Verdict>)
    requires |a| >= 12
    ensures r.Some? <==> OwnQuestion(q, qtype)
    ensures r.Some? ==> (r.value.bogus <==> !GoodAnswer(a, name, qtype, OwnClass(q)))
    ensures r.Some? ==> r.value == Verdict(Rcode(a) == 3, r.value.bogus, Rcode(a), Truncation(a),
                                           AuthenticData(a), AnCount(a) != 0)
  {
    hide Decode, SizeInPlace, WellFormedName, Walk, Tiled, SameName, Text;
    if |q| < 12 || QdCount(q) != 1 {
      return None;
    }
    var known, qname, nameLen := ExpandName(12, q);
    if !known {
      return None;
    }
    var qp := 12 + nameLen;
    if qp + 4 > |q| || As16(q[qp], q[qp + 1]) != qtype {
      return None;
    }
    var cls := As16(q[qp + 2], q[qp + 3]);

    var rcode := Rcode(a);
    var bogus := rcode != 0 && rcode != 3;
    var v := Verdict(rcode == 3, true, rcode, Truncation(a), AuthenticData(a), AnCount(a) != 0);
    if Truncation(a) || QdCount(a) != 1 {
      return Some(v);
    }
    var p := 12;
    var ok, aname, encLen := ExpandName(p, a);
    if !ok {
      return Some(v);
    }
    p := p + encLen;
    if p >= |a| || !SameName(aname, name) || p + 4 >= |a| {
      return Some(v);
    }
    if As16(a[p], a[p + 1]) != qtype || As16(a[p + 2], a[p + 3]) != cls {
      return Some(v);
    }
    p := p + 4;
    ghost var start, n, m := p, AnCount(a) + NsCount(a), ArCount(a);
    RecordsAreWalk(a);
    WalkAdd(a, start, n, m);
    ok, p := SkipRecords(a, p, AnCount(a) + NsCount(a));
    if !ok {
      return Some(v);
    }
    ok, p := SkipRecords(a, p, ArCount(a));
    if !ok || p != |a| {
      return Some(v);
    }
    return Some(v.(bogus := bogus));
  }

  lemma RecordsAreWalk(a: seq<Byte>)
    requires |a| >= 12
    ensures (exists recs: seq<Extent> :: IsRecords(a, recs))
       <==> Walk(a, 12 + SizeInPlace(a, 12) + 4, AnCount(a) + NsCount(a) + ArCount(a)) == Some(|a|)
  {
    hide Walk, Tiled, SizeInPlace;
    var start, k := 12 + SizeInPlace(a, 12) + 4, AnCount(a) + NsCount(a) + ArCount(a);
    if recs: seq<Extent> :| IsRecords(a, recs) {
      TiledWalks(a, start, recs);
    }
    if Walk(a, start, k) == Some(|a|) {
      var recs := WalkTiles(a, start, k);
      assert IsRecords(a, recs);
    }
  }

  // ----- reading records -------------------------------------------------------------------------

  datatype RR =
    | A(address: seq<Byte>)
    | Cname(name: seq<Byte>)
    | Ptr(name: seq<Byte>)
    | Mx(name: seq<Byte>, preference: Word16)
    | Txt(text: seq<Byte>)
    | Aaaa(address: seq<Byte>)
    | Tlsa(usage: Byte, selector: Byte, matchingType: Byte, data: seq<Byte>)

  /** What reading one record gives: a value, nothing because the type is of no interest, a rejected
      record, or a read outside the message. */
  datatype Reading = Value(rr: RR) | Nothing | Rejected | Overrun

  /** The strings from p to end joined. */
  function TxtFrom(pkt: seq<Byte>, p: nat, end: nat, str: seq<Byte>): Reading
    decreases |pkt| - p
  {
    if p >= |pkt| then Overrun
    else if p + 1 + pkt[p] > end then Rejected
    else if p + 1 + pkt[p] > |pkt| then Overrun
    else
      var next := p + 1 + pkt[p];
      var longer := str + pkt[p + 1..next];
      if next < end then TxtFrom(pkt, next, end, longer) else Value(Txt(longer))
  }

  /** Reads the record whose fixed part starts at body. */
  function ReadRecord(pkt: seq<Byte>, body: nat): Reading
    requires body + 10 <= |pkt|
  {
    var rd, n := body + 10, RdLength(pkt, body);
    match RrType(pkt, body)
    case 1 =>
      if n != 4 then Rejected else if rd + 4 > |pkt| then Overrun else Value(A(pkt[rd..rd + 4]))
    case 5 =>
      if !NameOk(pkt, rd) then Rejected else Value(Cname(NameText(pkt, rd)))
    case 12 =>
      if !NameOk(pkt, rd) then Rejected else Value(Ptr(NameText(pkt, rd)))
    case 15 =>
      if n < 3 then Rejected
      else if rd + 2 > |pkt| then Overrun
      else if !NameOk(pkt, rd + 2) then Rejected
      else Value(Mx(NameText(pkt, rd + 2), As16(pkt[rd], pkt[rd + 1])))
    case 16 =>
      if n < 1 then Rejected else TxtFrom(pkt, rd, rd + n, [])
    case 28 =>
      if n != 16 then Rejected else if rd + 16 > |pkt| then Overrun else Value(Aaaa(pkt[rd..rd + 16]))
    case 52 =>
      if n < 4 then Rejected
      else if rd + n > |pkt| then Overrun
      else Value(Tlsa(pkt[rd], pkt[rd + 1], pkt[rd + 2], pkt[rd + 3..rd + n]))
    case _ => Nothing
  }

  /** The loop over the strings of a TXT record. */
  method GetTxt(pkt: seq<Byte>, body: nat) returns (r: Reading)
    requires body + 10 <= |pkt| && RrType(pkt, body) == 16
    ensures r == ReadRecord(pkt, body)
  {
    if RdLength(pkt, body) < 1 {
      return Rejected;
    }
    var str: seq<Byte> := [];
    var p, end := body + 10, body + 10 + RdLength(pkt, body);
    while true
      invariant body + 10 <= p < end && TxtFrom(pkt, body + 10, end, []) == TxtFrom(pkt, p, end, str)
      decreases end - p
    {
      if p >= |pkt| {
        return Overrun;
      }
      if p + 1 + pkt[p] > end {
        return Rejected;
      }
      if p + 1 + pkt[p] > |pkt| {
        return Overrun;
      }
      str := str + pkt[p + 1..p + 1 + pkt[p]];
      p := p + pkt[p] + 1;
      if p >= end {
        break;
      }
    }
    r := Value(Txt(str));
  }

  method GetRR(pkt: seq<Byte>, body: nat) returns (r: Reading)
    requires body + 10 <= |pkt|
    ensures r == ReadRecord(pkt, body)
  {
    hide Decode, SizeInPlace, WellFormedName, Text;
    var rd, n := body + 10, RdLength(pkt, body);
    match RrType(pkt, body)
    case 1 =>
      if n != 4 {
        return Rejected;
      }
      if rd + n > |pkt| {
        return Overrun;
      }
      r := Value(A(pkt[rd..rd + n]));
    case 5 =>
      var ok, name, _ := ExpandName(rd, pkt);
      r := if ok then Value(Cname(name)) else Rejected;
    case 12 =>
      var ok, name, _ := ExpandName(rd, pkt);
      r := if ok then Value(Ptr(name)) else Rejected;
    case 15 =>
      if n < 3 {
        return Rejected;
      }
      if rd + 2 > |pkt| {
        return Overrun;
      }
      var ok, name, _ := ExpandName(rd + 2, pkt);
      r := if ok then Value(Mx(name, As16(pkt[rd], pkt[rd + 1]))) else Rejected;
    case 16 =>
      r := GetTxt(pkt, body);
    case 28 =>
      if n != 16 {
        return Rejected;
      }
      if rd + n > |pkt| {
        return Overrun;
      }
      r := Value(Aaaa(pkt[rd..rd + n]));
    case 52 =>
      if n < 4 {
        return Rejected;
      }
      if rd + n > |pkt| {
        return Overrun;
      }
      var p := rd;
      var certUsage := pkt[p];
      p := p + 1;
      var selector := pkt[p];
      p := p + 1;
      var matchingType := pkt[p];
      p := p + 1;
      r := Value(Tlsa(certUsage, selector, matchingType, pkt[p..p + (n - 3)]));
    case _ =>
      r := Nothing;
  }

  /** A record whose data lies in the message is read without leaving it. */
  lemma {:induction false} NoOverrun(pkt: seq<Byte>, body: nat)
    requires body + 10 <= |pkt| && body + 10 + RdLength(pkt, body) <= |pkt|
    ensures !ReadRecord(pkt, body).Overrun?
  {
    hide Decode, Text;
    if RrType(pkt, body) == 16 && RdLength(pkt, body) >= 1 {
      TxtStaysInside(pkt, body + 10, body + 10 + RdLength(pkt, body), []);
    }
  }

  lemma {:induction false} TxtStaysInside(pkt: seq<Byte>, p: nat, end: nat, str: seq<Byte>)
    requires p < end <= |pkt|
    ensures !TxtFrom(pkt, p, end, str).Overrun?
    decreases |pkt| - p
  {
    var next := p + 1 + pkt[p];
    if next < end {
      TxtStaysInside(pkt, next, end, str + pkt[p + 1..next]);
    }
  }

  // ----- get_records -----------------------------------------------------------------------------

  /** How reading the answers ends: all the values in order, a bogus message, a failed check, or a
      read outside the message.  Bounds says that one of its own bounds tests found the fault. */
  datatype Fetch = Records(values: seq<RR>) | Bogus(bounds: bool) | CheckFailed | OutOfMessage

  /** The values of these records in order, unless one of them is rejected. */
  function Collect(a: seq<Byte>, recs: seq<Extent>): Fetch {
    if recs == [] then Records([])
    else
      match if recs[0].body + 10 <= |a| then ReadRecord(a, recs[0].body) else Overrun
      case Overrun => OutOfMessage
      case Rejected => Bogus(false)
      case Nothing => Collect(a, recs[1..])
      case Value(rr) =>
        match Collect(a, recs[1..])
        case Records(rest) => Records([rr] + rest)
        case other => other
  }

  method GetRecords(pkt: seq<Byte>, bogus: bool) returns (r: Fetch)
    requires |pkt| >= 12
    ensures r == FetchAll(pkt, bogus)
  {
    hide Decode, SizeInPlace, WellFormedName, ReadRecord;
    var p: nat := 12;
    for i := 0 to QdCount(pkt)
      invariant SkipQuestions(pkt, 12, QdCount(pkt)) == SkipQuestions(pkt, p, QdCount(pkt) - i)
    {
      var ok, qname, encLen := ExpandName(p, pkt);
      if !ok {
        return CheckFailed;
      }
      p := p + encLen;
      p := p + 4;
    }
    var values: seq<RR> := [];
    ghost var start := p;
    assert Prepend([], FetchAnswers(pkt, p, AnCount(pkt), bogus)) == FetchAnswers(pkt, p, AnCount(pkt), bogus) by {
      PrependNone(FetchAnswers(pkt, p, AnCount(pkt), bogus));
    }
    for i := 0 to AnCount(pkt)
      invariant FetchAll(pkt, bogus) == Prepend(values, FetchAnswers(pkt, p, AnCount(pkt) - i, bogus))
    {
      var ok, name, encLen := ExpandName(p, pkt);
      if !ok {
        return CheckFailed;
      }
      p := p + encLen;
      if p + 10 > |pkt| {
        return Bogus(true);
      }
      if p + RdLength(pkt, p) > |pkt| {
        return Bogus(true);
      }
      var reading := GetRR(pkt, p);
      ghost var rest := FetchAnswers(pkt, p + 10 + RdLength(pkt, p), AnCount(pkt) - i - 1, bogus);
      match reading {
        case Overrun => return OutOfMessage;
        case Rejected => return Bogus(false);
        case Nothing =>
          if bogus {
            return Bogus(false);
          }
        case Value(rr) =>
          if bogus {
            return Bogus(false);
          }
          PrependTwice(values, rr, rest);
          values := values + [rr];
      }
      p := p + 10 + RdLength(pkt, p);
    }
    r := Records(values);
    assert values + [] == values;
  }

  function Prepend(values: seq<RR>, f: Fetch): Fetch {
    match f
    case Records(rest) => Records(values + rest)
    case other => other
  }

  lemma PrependNone(f: Fetch)
    ensures Prepend([], f) == f
  {
    if f.Records? {
      assert [] + f.values == f.values;
    }
  }

  lemma PrependTwice(values: seq<RR>, rr: RR, f: Fetch)
    ensures Prepend(values, Prepend([rr], f)) == Prepend(values + [rr], f)
  {
    if f.Records? {
      assert values + ([rr] + f.values) == values + [rr] + f.values;
    }
  }

  /** Where k questions that start at p end. */
  function SkipQuestions(pkt: seq<Byte>, p: nat, k: nat): Option<nat>
    decreases k
  {
    if k == 0 then Some(p)
    else if !NameOk(pkt, p) then None
    else SkipQuestions(pkt, p + SizeInPlace(pkt, p) + 4, k - 1)
  }

  /** Reading k answers from p. */
  function FetchAnswers(pkt: seq<Byte>, p: nat, k: nat, bogus: bool): Fetch
    decreases k
  {
    if k == 0 then Records([])
    else if !NameOk(pkt, p) then CheckFailed
    else
      var body := p + SizeInPlace(pkt, p);
      if body + 10 > |pkt| || body + RdLength(pkt, body) > |pkt| then Bogus(true)
      else
        match ReadRecord(pkt, body)
        case Overrun => OutOfMessage
        case Rejected => Bogus(false)
        case Nothing =>
          if bogus then Bogus(false)
          else FetchAnswers(pkt, body + 10 + RdLength(pkt, body), k - 1, bogus)
        case Value(rr) =>
          if bogus then Bogus(false)
          else Prepend([rr], FetchAnswers(pkt, body + 10 + RdLength(pkt, body), k - 1, bogus))
  }

  function FetchAll(pkt: seq<Byte>, bogus: bool): Fetch
    requires |pkt| >= 12
  {
    match SkipQuestions(pkt, 12, QdCount(pkt))
    case None => CheckFailed
    case Some(p) => FetchAnswers(pkt, p, AnCount(pkt), bogus)
  }

  lemma {:induction false} TiledInside(a: seq<Byte>, p: nat, recs: seq<Extent>)
    requires Tiled(a, p, recs)
    ensures forall r | r in recs :: r.body + 10 <= |a| && r.body + 10 + RdLength(a, r.body) <= |a|
    decreases |recs|
  {
    if recs != [] {
      TiledInside(a, recs[0].end, recs[1..]);
      assert forall r | r in recs :: r == recs[0] || r in recs[1..];
    }
  }

  /** Over tiled records the fetch is the collection of the first k of them. */
  lemma {:induction false} FetchTiled(a: seq<Byte>, p: nat, recs: seq<Extent>, k: nat)
    requires Tiled(a, p, recs) && k <= |recs|
    ensures FetchAnswers(a, p, k, false) == Collect(a, recs[..k])
    ensures Collect(a, recs[..k]).Records? || Collect(a, recs[..k]) == Bogus(false)
    decreases k
  {
    hide Decode, SizeInPlace, WellFormedName, ReadRecord;
    if k > 0 {
      assert recs[..k][1..] == recs[1..][..k - 1];
      WellFormedIffDecodes(a, p);
      NoOverrun(a, recs[0].body);
      FetchTiled(a, recs[0].end, recs[1..], k - 1);
    }
  }

  /** On an answer that passed the check every record of the three sections lies in the message, and
      reading the answers never fails a check, never leaves the message and finds no fault with its
      bounds: it gives the values of the answer records unless one of them is rejected for itself. */
  lemma GoodAnswerReads(a: seq<Byte>, name: seq<Byte>, qtype: Word16, qclass: Word16) returns (recs: seq<Extent>)
    requires |a| >= 12 && GoodAnswer(a, name, qtype, qclass)
    ensures IsRecords(a, recs)
    ensures forall r | r in recs :: r.body + 10 <= |a| && r.body + 10 + RdLength(a, r.body) <= |a|
    ensures AnCount(a) <= |recs| && FetchAll(a, false) == Collect(a, recs[..AnCount(a)])
    ensures FetchAll(a, false).Records? || FetchAll(a, false) == Bogus(false)
  {
    hide Decode, SizeInPlace, WellFormedName, ReadRecord, Tiled, FetchAnswers, Collect;
    recs :| IsRecords(a, recs);
    var p := 12 + SizeInPlace(a, 12) + 4;
    TiledInside(a, p, recs);
    FetchTiled(a, p, recs, AnCount(a));
    OneQuestion(a);
  }

  lemma OneQuestion(a: seq<Byte>)
    requires |a| >= 12 && QdCount(a) == 1 && NameOk(a, 12)
    ensures SkipQuestions(a, 12, QdCount(a)) == Some(12 + SizeInPlace(a, 12) + 4)
  {
    assert SkipQuestions(a, 12 + SizeInPlace(a, 12) + 4, 0) == Some(12 + SizeInPlace(a, 12) + 4);
  }

  // ----- TXT records -----------------------------------------------------------------------------

  /** Character strings one after the other: section 3.3.14 of RFC 1035. */
  function WireStrings(strings: seq<seq<Byte>>): seq<Byte> {
    if strings == [] then []
    else [(|strings[0]| % 256) as Byte] + strings[0] + WireStrings(strings[1..])
  }

  function Joined(strings: seq<seq<Byte>>): seq<Byte> {
    if strings == [] then [] else strings[0] + Joined(strings[1..])
  }

  /** Data made of character strings is read as all of them joined. */
  lemma {:induction false} TxtReadsStrings(pkt: seq<Byte>, p: nat, end: nat, strings: seq<seq<Byte>>, str: seq<Byte>)
    requires p < end <= |pkt| && pkt[p..end] == WireStrings(strings)
    requires forall s | s in strings :: |s| < 256
    ensures TxtFrom(pkt, p, end, str) == Value(Txt(str + Joined(strings)))
    decreases |strings|
  {
    hide TxtFrom, WireStrings, Joined;
    StringsNotEmpty(pkt, p, end, strings);
    var s := strings[0];
    assert s in strings;
    assert forall t | t in strings[1..] :: t in strings;
    FirstString(pkt, p, end, strings);
    var next := p + 1 + |s|;
    TxtStep(pkt, p, end, str);
    JoinedStep(strings);
    Seqs.Assoc(str, s, Joined(strings[1..]));
    if next < end {
      TxtReadsStrings(pkt, next, end, strings[1..], str + s);
    } else {
      NoStrings(strings[1..]);
      assert str + s + [] == str + s;
    }
  }

  lemma StringsNotEmpty(pkt: seq<Byte>, p: nat, end: nat, strings: seq<seq<Byte>>)
    requires p < end <= |pkt| && pkt[p..end] == WireStrings(strings)
    ensures strings != []
  {}

  lemma NoStrings(strings: seq<seq<Byte>>)
    requires WireStrings(strings) == []
    ensures strings == [] && Joined(strings) == []
  {}

  lemma JoinedStep(strings: seq<seq<Byte>>)
    requires strings != []
    ensures Joined(strings) == strings[0] + Joined(strings[1..])
  {}

  /** One string of the data. */
  lemma TxtStep(pkt: seq<Byte>, p: nat, end: nat, str: seq<Byte>)
    requires p < end <= |pkt|
    ensures var next := p + 1 + pkt[p];
            TxtFrom(pkt, p, end, str)
            == if next > end then Rejected
               else if next < end then TxtFrom(pkt, next, end, str + pkt[p + 1..next])
               else Value(Txt(str + pkt[p + 1..next]))
  {}

  lemma FirstString(pkt: seq<Byte>, p: nat, end: nat, strings: seq<seq<Byte>>)
    requires p < end <= |pkt| && strings != [] && pkt[p..end] == WireStrings(strings) && |strings[0]| < 256
    ensures var s := strings[0];
            var next := p + 1 + |s|;
            && pkt[p] == |s| && next <= end && pkt[p + 1..next] == s
            && pkt[next..end] == WireStrings(strings[1..])
  {
    var s, rest := strings[0], WireStrings(strings[1..]);
    var w: seq<Byte> := [|s| as Byte];
    Seqs.Assoc(w, s, rest);
    Seqs.CutInThree(pkt, p, w, s, rest);
    assert pkt[p] == pkt[p..p + 1][0];
  }

  /** Data that is read is made of character strings. */
  lemma {:induction false} TxtIsStrings(pkt: seq<Byte>, p: nat, end: nat, str: seq<Byte>)
      returns (strings: seq<seq<Byte>>)
    requires p < end <= |pkt| && TxtFrom(pkt, p, end, str).Value?
    ensures pkt[p..end] == WireStrings(strings) && forall s | s in strings :: |s| < 256
    decreases end - p
  {
    hide TxtFrom, WireStrings;
    TxtStep(pkt, p, end, str);
    var next := p + 1 + pkt[p];
    var s := pkt[p + 1..next];
    var rest := [];
    if next < end {
      rest := TxtIsStrings(pkt, next, end, str + s);
    } else {
      NothingWired();
    }
    strings := [s] + rest;
    WireStringsStep(s, rest);
    assert pkt[p..end] == [pkt[p]] + s + pkt[next..end];
  }

  lemma NothingWired()
    ensures WireStrings([]) == []
  {}

  lemma WireStringsStep(s: seq<Byte>, rest: seq<seq<Byte>>)
    requires |s| < 256
    ensures WireStrings([s] + rest) == [|s| as Byte] + s + WireStrings(rest)
  {
    assert ([s] + rest)[1..] == rest;
  }
}
