/** Answers written octet by octet as sections 3.2.1, 3.3 and 4.1 of RFC 1035 say, and what checking and
    reading makes of them. */
module DnsRecords {
  import opened Options
  import opened DnsName
  import opened DnsPut
  import opened DnsAnswer
  import Seqs

  // ----- one record ------------------------------------------------------------------------------

  /** The fixed part of a record at body says that n octets of data of this type follow. */
  ghost predicate Says(pkt: seq<Byte>, body: nat, rtype: Word16, n: Word16) {
    && body + 10 + n <= |pkt|
    && pkt[body] as int == rtype / 256 && pkt[body + 1] as int == rtype % 256
    && pkt[body + 8] as int == n / 256 && pkt[body + 9] as int == n % 256
  }

  lemma SaysFields(pkt: seq<Byte>, body: nat, rtype: Word16, n: Word16)
    requires Says(pkt, body, rtype, n)
    ensures body + 10 + n <= |pkt| && RrType(pkt, body) == rtype && RdLength(pkt, body) == n
  {}

  lemma NameIsRead(pkt: seq<Byte>, p: nat, labels: seq<Label>, hops: nat)
    requires NameAt(pkt, p, labels, hops) && hops <= 50 && hops <= |pkt|
    ensures NameOk(pkt, p) && NameText(pkt, p) == Text(labels)
  {
    hide Decode, NameAt, Text;
    NameAtDecodes(pkt, p, labels, hops, MaxHops(pkt));
  }

  /** Four octets of data are an address. */
  lemma ReadsA(pkt: seq<Byte>, body: nat)
    requires Says(pkt, body, 1, 4)
    ensures ReadRecord(pkt, body) == Value(A(pkt[body + 10..body + 14]))
  {
    hide Decode, Text, Says;
    SaysFields(pkt, body, 1, 4);
  }

  /** The data of an alias or a pointer is a name, with or without compression. */
  lemma ReadsName(pkt: seq<Byte>, body: nat, n: Word16, labels: seq<Label>, hops: nat)
    requires NameAt(pkt, body + 10, labels, hops) && hops <= 50 && hops <= |pkt|
    ensures Says(pkt, body, 5, n) ==> ReadRecord(pkt, body) == Value(Cname(Text(labels)))
    ensures Says(pkt, body, 12, n) ==> ReadRecord(pkt, body) == Value(Ptr(Text(labels)))
  {
    hide Decode, Text, NameAt, Says;
    NameIsRead(pkt, body + 10, labels, hops);
    if Says(pkt, body, 5, n) {
      SaysFields(pkt, body, 5, n);
    }
    if Says(pkt, body, 12, n) {
      SaysFields(pkt, body, 12, n);
    }
  }

  /** The data of a mail exchange is a preference of two octets and a name. */
  lemma ReadsMx(pkt: seq<Byte>, body: nat, n: Word16, preference: Word16, labels: seq<Label>, hops: nat)
    requires Says(pkt, body, 15, n) && n >= 3
    requires pkt[body + 10] as int == preference / 256 && pkt[body + 11] as int == preference % 256
    requires NameAt(pkt, body + 12, labels, hops) && hops <= 50 && hops <= |pkt|
    ensures ReadRecord(pkt, body) == Value(Mx(Text(labels), preference))
  {
    hide Decode, Text, NameAt, Says;
    SaysFields(pkt, body, 15, n);
    NameIsRead(pkt, body + 12, labels, hops);
  }

  /** The data of a text is one or more strings, each with its length before it. */
  lemma ReadsTxt(pkt: seq<Byte>, body: nat, n: Word16, strings: seq<seq<Byte>>)
    requires Says(pkt, body, 16, n) && n >= 1
    requires pkt[body + 10..body + 10 + n] == WireStrings(strings) && forall s | s in strings :: |s| < 256
    ensures ReadRecord(pkt, body) == Value(Txt(Joined(strings)))
  {
    hide Decode, Text, Says, WireStrings, Joined, TxtFrom;
    SaysFields(pkt, body, 16, n);
    TxtReadsStrings(pkt, body + 10, body + 10 + n, strings, []);
    assert [] + Joined(strings) == Joined(strings);
  }

  /** Sixteen octets of data are an address of the longer kind. */
  lemma ReadsAaaa(pkt: seq<Byte>, body: nat)
    requires Says(pkt, body, 28, 16)
    ensures ReadRecord(pkt, body) == Value(Aaaa(pkt[body + 10..body + 26]))
  {
    hide Decode, Text, Says;
    SaysFields(pkt, body, 28, 16);
  }

  /** The data of a certificate association is three octets and the association itself: section 2.1
      of RFC 6698. */
  lemma ReadsTlsa(pkt: seq<Byte>, body: nat, n: Word16)
    requires Says(pkt, body, 52, n) && n >= 4
    ensures ReadRecord(pkt, body)
         == Value(Tlsa(pkt[body + 10], pkt[body + 11], pkt[body + 12], pkt[body + 13..body + 10 + n]))
  {
    hide Decode, Text, Says;
    SaysFields(pkt, body, 52, n);
  }

  /** Data of any other type is of no interest.  Data of the wrong size is rejected, and a name that is not
      well formed; the name behind the preference starts two octets later. */
  lemma RejectedIff(pkt: seq<Byte>, body: nat, rtype: Word16, n: Word16)
    requires Says(pkt, body, rtype, n)
    ensures ReadRecord(pkt, body).Nothing? <==> rtype !in {1, 5, 12, 15, 16, 28, 52}
    ensures rtype == 1 ==> (ReadRecord(pkt, body).Rejected? <==> n != 4)
    ensures rtype == 5 || rtype == 12 ==> (ReadRecord(pkt, body).Rejected? <==> !WellFormedName(pkt, body + 10))
    ensures rtype == 15 ==> (ReadRecord(pkt, body).Rejected? <==> n < 3 || !WellFormedName(pkt, body + 12))
    ensures rtype == 28 ==> (ReadRecord(pkt, body).Rejected? <==> n != 16)
    ensures rtype == 52 ==> (ReadRecord(pkt, body).Rejected? <==> n < 4)
  {
    hide Decode, Text, Says, TxtFrom, NameText, WellFormedName;
    SaysFields(pkt, body, rtype, n);
    WellFormedIffDecodes(pkt, body + 10);
    WellFormedIffDecodes(pkt, body + 12);
    if rtype == 16 && n >= 1 {
      TxtIsSomething(pkt, body + 10, body + 10 + n, []);
    }
  }

  lemma {:induction false} TxtIsSomething(pkt: seq<Byte>, p: nat, end: nat, str: seq<Byte>)
    ensures !TxtFrom(pkt, p, end, str).Nothing?
    decreases |pkt| - p
  {
    if p < |pkt| {
      var next := p + 1 + pkt[p];
      if next < end && next <= |pkt| {
        TxtIsSomething(pkt, next, end, str + pkt[p + 1..next]);
      }
    }
  }

  // ----- records as they are written -------------------------------------------------------------

  /** What a record says, with names as labels. */
  datatype Content =
    | Address(octets: seq<Byte>)
    | Alias(labels: seq<Label>)
    | Pointer(labels: seq<Label>)
    | Exchange(preference: Word16, labels: seq<Label>)
    | Strings(strings: seq<seq<Byte>>)
    | LongAddress(octets: seq<Byte>)
    | Association(usage: Byte, selector: Byte, matchingType: Byte, data: seq<Byte>)

  datatype Entry = Entry(owner: seq<Label>, rclass: Word16, ttl: seq<Byte>, content: Content)

  ghost predicate Proper(c: Content) {
    match c
    case Address(octets) => |octets| == 4
    case Alias(labels) => WithinLimits(labels)
    case Pointer(labels) => WithinLimits(labels)
    case Exchange(_, labels) => WithinLimits(labels)
    case Strings(strings) =>
      strings != [] && (forall s | s in strings :: |s| < 256) && |WireStrings(strings)| < 0x10000
    case LongAddress(octets) => |octets| == 16
    case Association(_, _, _, data) => 1 <= |data| < 0x10000 - 3
  }

  function TypeOf(c: Content): Word16 {
    match c
    case Address(_) => 1
    case Alias(_) => 5
    case Pointer(_) => 12
    case Exchange(_, _) => 15
    case Strings(_) => 16
    case LongAddress(_) => 28
    case Association(_, _, _, _) => 52
  }

  function Data(c: Content): seq<Byte> {
    match c
    case Address(octets) => octets
    case Alias(labels) => Wire(labels)
    case Pointer(labels) => Wire(labels)
    case Exchange(preference, labels) =>
      [(preference / 256) as Byte, (preference % 256) as Byte] + Wire(labels)
    case Strings(strings) => WireStrings(strings)
    case LongAddress(octets) => octets
    case Association(usage, selector, matchingType, data) => [usage, selector, matchingType] + data
  }

  /** The value that a record is to be read as. */
  function Meaning(c: Content): RR {
    match c
    case Address(octets) => A(octets)
    case Alias(labels) => Cname(Text(labels))
    case Pointer(labels) => Ptr(Text(labels))
    case Exchange(preference, labels) => Mx(Text(labels), preference)
    case Strings(strings) => Txt(Joined(strings))
    case LongAddress(octets) => Aaaa(octets)
    case Association(usage, selector, matchingType, data) => Tlsa(usage, selector, matchingType, data)
  }

  ghost predicate ProperEntry(e: Entry) {
    WithinLimits(e.owner) && |e.ttl| == 4 && Proper(e.content)
  }

  lemma DataSize(c: Content)
    requires Proper(c)
    ensures |Data(c)| < 0x10000
  {
    hide Wire, WireStrings;
  }

  /** The ten octets between the name of a record and its data. */
  function FixedPart(e: Entry): (r: seq<Byte>)
    requires |e.ttl| == 4
    ensures |r| == 10
  {
    var t, n := TypeOf(e.content), |Data(e.content)|;
    [(t / 256) as Byte, (t % 256) as Byte, (e.rclass / 256) as Byte, (e.rclass % 256) as Byte] + e.ttl
    + [(n / 256 % 256) as Byte, (n % 256) as Byte]
  }

  function WireEntry(e: Entry): seq<Byte>
    requires |e.ttl| == 4
  {
    Wire(e.owner) + FixedPart(e) + Data(e.content)
  }

  /** The octets of s lie in the packet at p. */
  ghost predicate LiesAt(pkt: seq<Byte>, p: nat, s: seq<Byte>) {
    p + |s| <= |pkt| && pkt[p..p + |s|] == s
  }

  lemma LiesAtParts(pkt: seq<Byte>, p: nat, s: seq<Byte>, t: seq<Byte>)
    requires LiesAt(pkt, p, s + t)
    ensures LiesAt(pkt, p, s) && LiesAt(pkt, p + |s|, t)
  {
    Seqs.Middle(s, t, []);
    assert s + (t + []) == s + t;
    Seqs.SubSlice(pkt, p, p + |s + t|, 0, |s|);
    Seqs.SubSlice(pkt, p, p + |s + t|, |s|, |s + t|);
  }

  lemma LiesAtOctet(pkt: seq<Byte>, p: nat, s: seq<Byte>, i: nat)
    requires LiesAt(pkt, p, s) && i < |s|
    ensures p + i < |pkt| && pkt[p + i] == s[i]
  {
    assert pkt[p..p + |s|][i] == pkt[p + i];
  }

  lemma FixedPartSays(pkt: seq<Byte>, body: nat, e: Entry)
    requires |e.ttl| == 4 && |Data(e.content)| < 0x10000
    requires LiesAt(pkt, body, FixedPart(e)) && body + 10 + |Data(e.content)| <= |pkt|
    ensures Says(pkt, body, TypeOf(e.content), |Data(e.content)|)
  {
    hide LiesAt, Data, TypeOf;
    LiesAtOctet(pkt, body, FixedPart(e), 0);
    LiesAtOctet(pkt, body, FixedPart(e), 1);
    LiesAtOctet(pkt, body, FixedPart(e), 8);
    LiesAtOctet(pkt, body, FixedPart(e), 9);
  }

  lemma WireReads(pkt: seq<Byte>, p: nat, labels: seq<Label>)
    requires WithinLimits(labels) && LiesAt(pkt, p, Wire(labels))
    ensures NameAt(pkt, p, labels, 0) && SizeInPlace(pkt, p) == |Wire(labels)| && WellFormedName(pkt, p)
  {
    hide Wire, NameAt, SizeInPlace;
    WireIsName(pkt, p, labels);
  }

  /** Data as it is written is read as what it says. */
  lemma ContentReads(pkt: seq<Byte>, body: nat, c: Content)
    requires Proper(c) && |Data(c)| < 0x10000
    requires Says(pkt, body, TypeOf(c), |Data(c)|) && LiesAt(pkt, body + 10, Data(c))
    ensures ReadRecord(pkt, body) == Value(Meaning(c))
  {
    hide *;
    match c
    case Address(octets) =>
      AddressReads(pkt, body, c);
    case Alias(labels) =>
      NamedReads(pkt, body, c);
    case Pointer(labels) =>
      NamedReads(pkt, body, c);
    case Exchange(preference, labels) =>
      ExchangeReads(pkt, body, c);
    case Strings(strings) =>
      StringsRead(pkt, body, c);
    case LongAddress(octets) =>
      AddressReads(pkt, body, c);
    case Association(usage, selector, matchingType, data) =>
      AssociationReads(pkt, body, c);
  }

  lemma AddressReads(pkt: seq<Byte>, body: nat, c: Content)
    requires (c.Address? || c.LongAddress?) && Proper(c)
    requires Says(pkt, body, TypeOf(c), |Data(c)|) && LiesAt(pkt, body + 10, Data(c))
    ensures ReadRecord(pkt, body) == Value(Meaning(c))
  {
    hide ReadRecord, Says;
    if c.Address? {
      ReadsA(pkt, body);
    } else {
      ReadsAaaa(pkt, body);
    }
  }

  lemma NamedReads(pkt: seq<Byte>, body: nat, c: Content)
    requires (c.Alias? || c.Pointer?) && Proper(c) && |Data(c)| < 0x10000
    requires Says(pkt, body, TypeOf(c), |Data(c)|) && LiesAt(pkt, body + 10, Data(c))
    ensures ReadRecord(pkt, body) == Value(Meaning(c))
  {
    hide ReadRecord, Says, NameAt, Wire, WithinLimits, LiesAt, Text;
    WireReads(pkt, body + 10, c.labels);
    ReadsName(pkt, body, |Data(c)|, c.labels, 0);
  }

  lemma ExchangeReads(pkt: seq<Byte>, body: nat, c: Content)
    requires c.Exchange? && Proper(c) && |Data(c)| < 0x10000
    requires Says(pkt, body, TypeOf(c), |Data(c)|) && LiesAt(pkt, body + 10, Data(c))
    ensures ReadRecord(pkt, body) == Value(Meaning(c))
  {
    hide ReadRecord, Says, NameAt, Wire, WithinLimits, LiesAt, Text;
    var two: seq<Byte> := [c.preference / 256, c.preference % 256];
    LiesAtParts(pkt, body + 10, two, Wire(c.labels));
    LiesAtOctet(pkt, body + 10, two, 0);
    LiesAtOctet(pkt, body + 10, two, 1);
    WireReads(pkt, body + 12, c.labels);
    ReadsMx(pkt, body, |Data(c)|, c.preference, c.labels, 0);
  }

  lemma StringsRead(pkt: seq<Byte>, body: nat, c: Content)
    requires c.Strings? && Proper(c) && |Data(c)| < 0x10000
    requires Says(pkt, body, TypeOf(c), |Data(c)|) && LiesAt(pkt, body + 10, Data(c))
    ensures ReadRecord(pkt, body) == Value(Meaning(c))
  {
    hide ReadRecord, Says, WireStrings, Joined;
    if Data(c) == [] {
      NoStrings(c.strings);
    }
    ReadsTxt(pkt, body, |Data(c)|, c.strings);
  }

  lemma AssociationReads(pkt: seq<Byte>, body: nat, c: Content)
    requires c.Association? && Proper(c) && |Data(c)| < 0x10000
    requires Says(pkt, body, TypeOf(c), |Data(c)|) && LiesAt(pkt, body + 10, Data(c))
    ensures ReadRecord(pkt, body) == Value(Meaning(c))
  {
    hide ReadRecord, Says, LiesAt;
    ThreeAndData(pkt, body + 10, c.usage, c.selector, c.matchingType, c.data);
    ReadsTlsa(pkt, body, |Data(c)|);
  }

  lemma ThreeAndData(pkt: seq<Byte>, p: nat, x: Byte, y: Byte, z: Byte, data: seq<Byte>)
    requires LiesAt(pkt, p, [x, y, z] + data)
    ensures p + 3 + |data| <= |pkt| && pkt[p] == x && pkt[p + 1] == y && pkt[p + 2] == z
    ensures pkt[p + 3..p + 3 + |data|] == data
  {
    hide LiesAt;
    var three: seq<Byte> := [x, y, z];
    LiesAtParts(pkt, p, three, data);
    LiesAtOctet(pkt, p, three, 0);
    LiesAtOctet(pkt, p, three, 1);
    LiesAtOctet(pkt, p, three, 2);
    SliceOf(pkt, p + 3, data);
  }

  lemma SliceOf(pkt: seq<Byte>, p: nat, s: seq<Byte>)
    requires LiesAt(pkt, p, s)
    ensures p + |s| <= |pkt| && pkt[p..p + |s|] == s
  {}

  /** A record as it is written has its name, its fixed part and its data where they are looked for. */
  lemma EntryReads(pkt: seq<Byte>, p: nat, e: Entry)
    requires ProperEntry(e) && LiesAt(pkt, p, WireEntry(e))
    ensures WellFormedName(pkt, p) && SizeInPlace(pkt, p) == |Wire(e.owner)|
    ensures var body := p + |Wire(e.owner)|;
            && body + 10 + |Data(e.content)| == p + |WireEntry(e)| <= |pkt|
            && RdLength(pkt, body) == |Data(e.content)|
            && ReadRecord(pkt, body) == Value(Meaning(e.content))
  {
    hide Wire, Data, ReadRecord, Says, NameAt, WellFormedName, WithinLimits, LiesAt, Proper, SizeInPlace, FixedPart,
      TypeOf, RdLength, RrType;
    var body := p + |Wire(e.owner)|;
    LiesAtParts(pkt, p, Wire(e.owner) + FixedPart(e), Data(e.content));
    LiesAtParts(pkt, p, Wire(e.owner), FixedPart(e));
    WireReads(pkt, p, e.owner);
    DataSize(e.content);
    SliceOf(pkt, body + 10, Data(e.content));
    FixedPartSays(pkt, body, e);
    SaysFields(pkt, body, TypeOf(e.content), |Data(e.content)|);
    ContentReads(pkt, body, e.content);
  }

  // ----- whole answers ---------------------------------------------------------------------------

  ghost predicate AllProper(entries: seq<Entry>) {
    forall e | e in entries :: ProperEntry(e)
  }

  function WireEntries(entries: seq<Entry>): seq<Byte>
    requires forall e | e in entries :: |e.ttl| == 4
  {
    if entries == [] then [] else WireEntry(entries[0]) + WireEntries(entries[1..])
  }

  function Meanings(entries: seq<Entry>): seq<RR> {
    if entries == [] then [] else [Meaning(entries[0].content)] + Meanings(entries[1..])
  }

  lemma WireEntriesStep(entries: seq<Entry>)
    requires entries != [] && AllProper(entries)
    ensures WireEntries(entries) == WireEntry(entries[0]) + WireEntries(entries[1..])
    ensures ProperEntry(entries[0]) && AllProper(entries[1..])
  {}

  /** Records one after the other tile the message and are read as what they say. */
  lemma {:induction false} EntriesTile(a: seq<Byte>, p: nat, entries: seq<Entry>) returns (recs: seq<Extent>)
    requires AllProper(entries) && p <= |a| && a[p..] == WireEntries(entries)
    ensures Tiled(a, p, recs) && |recs| == |entries|
    ensures forall k: nat | k <= |entries| :: Collect(a, recs[..k]) == Records(Meanings(entries[..k]))
    decreases |entries|
  {
    hide WireEntry, WireEntries, ProperEntry, AllProper, WellFormedName, SizeInPlace, ReadRecord, Meaning;
    if entries == [] {
      recs := [];
      NoEntries();
    } else {
      var e := entries[0];
      WireEntriesStep(entries);
      var next := p + |WireEntry(e)|;
      var body := p + |Wire(e.owner)|;
      Seqs.SubSlice(a, p, |a|, 0, |WireEntry(e)|);
      Seqs.SubSlice(a, p, |a|, |WireEntry(e)|, |a| - p);
      EntryReads(a, p, e);
      var rest := EntriesTile(a, next, entries[1..]);
      recs := [Extent(p, body, next)] + rest;
      assert recs[1..] == rest;
      forall k: nat | k <= |entries|
        ensures Collect(a, recs[..k]) == Records(Meanings(entries[..k]))
      {
        if k > 0 {
          assert recs[..k][1..] == rest[..k - 1] && entries[..k][1..] == entries[1..][..k - 1];
        }
      }
    }
  }

  lemma NoEntries()
    ensures WireEntries([]) == []
  {}

  /** The header of an answer, field by field. */
  function AnswerHeader(id: Word16, authoritative: bool, truncated: bool, checked: bool, rcode: nat,
                        an: Word16, ns: Word16, ar: Word16): (h: seq<Byte>)
    requires rcode < 16
    ensures |h| == 12
  {
    [(id / 256) as Byte, (id % 256) as Byte,
     128 + (if authoritative then 4 else 0) + (if truncated then 2 else 0) + 1,
     128 + (if checked then 32 else 0) + rcode,
     0, 1,
     (an / 256) as Byte, (an % 256) as Byte,
     (ns / 256) as Byte, (ns % 256) as Byte,
     (ar / 256) as Byte, (ar % 256) as Byte]
  }

  lemma HeaderReads(a: seq<Byte>, id: Word16, authoritative: bool, truncated: bool, checked: bool, rcode: nat,
                    an: Word16, ns: Word16, ar: Word16)
    requires rcode < 16
    requires |a| >= 12 && a[..12] == AnswerHeader(id, authoritative, truncated, checked, rcode, an, ns, ar)
    ensures QdCount(a) == 1 && AnCount(a) == an && NsCount(a) == ns && ArCount(a) == ar
    ensures Rcode(a) == rcode && Truncation(a) == truncated && AuthenticData(a) == checked
  {
    var h := AnswerHeader(id, authoritative, truncated, checked, rcode, an, ns, ar);
    assert forall i | 0 <= i < 12 :: a[i] == a[..12][i] == h[i];
  }

  /** A question for a name: its wire form, the type and the class. */
  function WireQuestion(labels: seq<Label>, qtype: Word16, qclass: Word16): seq<Byte> {
    Wire(labels) + [(qtype / 256) as Byte, (qtype % 256) as Byte, (qclass / 256) as Byte, (qclass % 256) as Byte]
  }

  lemma QuestionReads(a: seq<Byte>, labels: seq<Label>, qtype: Word16, qclass: Word16)
    requires WithinLimits(labels) && LiesAt(a, 12, WireQuestion(labels, qtype, qclass))
    ensures NameAt(a, 12, labels, 0) && NameOk(a, 12) && NameText(a, 12) == Text(labels)
    ensures WellFormedName(a, 12) && SizeInPlace(a, 12) == |Wire(labels)|
    ensures var p := 12 + |Wire(labels)|;
            p + 4 <= |a| && As16(a[p], a[p + 1]) == qtype && As16(a[p + 2], a[p + 3]) == qclass
  {
    hide Wire, NameAt, WellFormedName, WithinLimits, LiesAt, SizeInPlace, NameOk, NameText, Text;
    var four: seq<Byte> := [qtype / 256, qtype % 256, qclass / 256, qclass % 256];
    var p := 12 + |Wire(labels)|;
    LiesAtParts(a, 12, Wire(labels), four);
    WireReads(a, 12, labels);
    NameIsRead(a, 12, labels, 0);
    LiesAtOctet(a, p, four, 0);
    LiesAtOctet(a, p, four, 1);
    LiesAtOctet(a, p, four, 2);
    LiesAtOctet(a, p, four, 3);
  }

  /** A whole answer to one question with the records of its three sections. */
  function AnswerMessage(header: seq<Byte>, labels: seq<Label>, qtype: Word16, qclass: Word16,
                         entries: seq<Entry>): seq<Byte>
    requires forall e | e in entries :: |e.ttl| == 4
  {
    header + WireQuestion(labels, qtype, qclass) + WireEntries(entries)
  }

  /** Every answer that is written as the standards say, with any records of the types that are read, is
      good exactly when it is whole, has no error but a missing name and has at least one record, and
      the values of its answer section come out in order. */
  lemma AnswerReadsBack(labels: seq<Label>, qtype: Word16, qclass: Word16, id: Word16, authoritative: bool,
                        truncated: bool, checked: bool, rcode: nat,
                        an: Word16, ns: Word16, ar: Word16, entries: seq<Entry>)
    requires WithinLimits(labels) && rcode < 16
    requires AllProper(entries) && |entries| == an + ns + ar
    ensures var h := AnswerHeader(id, authoritative, truncated, checked, rcode, an, ns, ar);
            var a := AnswerMessage(h, labels, qtype, qclass, entries);
            && |a| >= 12
            && (GoodAnswer(a, Text(labels), qtype, qclass) <==>
                  (rcode == 0 || rcode == 3) && !truncated && entries != [])
            && Rcode(a) == rcode && Truncation(a) == truncated && AuthenticData(a) == checked
            && (AnCount(a) != 0 <==> an != 0)
            && FetchAll(a, false) == Records(Meanings(entries[..an]))
  {
    hide *;
    FourOctetsEach(entries);
    var h := AnswerHeader(id, authoritative, truncated, checked, rcode, an, ns, ar);
    var a := AnswerMessage(h, labels, qtype, qclass, entries);
    var p := 12 + |Wire(labels)| + 4;
    MessageParts(h, labels, qtype, qclass, entries);
    HeaderReads(a, id, authoritative, truncated, checked, rcode, an, ns, ar);
    QuestionReads(a, labels, qtype, qclass);
    var recs := EntriesTile(a, p, entries);
    FetchTiled(a, p, recs, an);
    FetchOne(a, p, recs, an);
    GoodIff(a, labels, qtype, qclass, p, recs);
  }

  lemma MessageParts(header: seq<Byte>, labels: seq<Label>, qtype: Word16, qclass: Word16, entries: seq<Entry>)
    requires |header| == 12 && AllProper(entries)
    ensures var a := AnswerMessage(header, labels, qtype, qclass, entries);
            var p := 12 + |Wire(labels)| + 4;
            && p <= |a| && a[..12] == header && LiesAt(a, 12, WireQuestion(labels, qtype, qclass))
            && a[p..] == WireEntries(entries) && (|a| > p <==> entries != [])
  {
    hide Wire, WireEntry;
    if entries != [] {
      WireEntriesStep(entries);
      EntryNotEmpty(entries[0]);
    }
  }

  lemma FourOctetsEach(entries: seq<Entry>)
    requires AllProper(entries)
    ensures forall e | e in entries :: |e.ttl| == 4
  {}

  lemma EntryNotEmpty(e: Entry)
    requires |e.ttl| == 4
    ensures |WireEntry(e)| > 0
  {
    hide Wire, Data, FixedPart;
  }

  lemma FetchOne(a: seq<Byte>, p: nat, recs: seq<Extent>, an: nat)
    requires |a| >= 12 && QdCount(a) == 1 && AnCount(a) == an && NameOk(a, 12) && p == 12 + SizeInPlace(a, 12) + 4
    ensures FetchAll(a, false) == FetchAnswers(a, p, an, false)
  {
    hide SizeInPlace, NameOk, FetchAnswers, QdCount, AnCount;
    OneQuestion(a);
  }

  lemma GoodIff(a: seq<Byte>, labels: seq<Label>, qtype: Word16, qclass: Word16, p: nat, recs: seq<Extent>)
    requires |a| >= 12 && QdCount(a) == 1 && |recs| == AnCount(a) + NsCount(a) + ArCount(a)
    requires WellFormedName(a, 12) && NameOk(a, 12) && NameText(a, 12) == Text(labels)
    requires p == 12 + SizeInPlace(a, 12) + 4 <= |a| && Tiled(a, p, recs)
    requires As16(a[p - 4], a[p - 3]) == qtype && As16(a[p - 2], a[p - 1]) == qclass
    ensures GoodAnswer(a, Text(labels), qtype, qclass) <==> Rcode(a) in {0, 3} && !Truncation(a) && p < |a|
  {
    hide WellFormedName, NameOk, NameText, SizeInPlace, Tiled, Text, Rcode, Truncation, QdCount, AnCount, NsCount,
      ArCount, As16;
    assert IsRecords(a, recs);
  }

  // ----- the question ----------------------------------------------------------------------------

  /** A question of ours desires recursion, sets no other flag, and announces one question, no answers and
      one additional record.  That record is all that follows the question: an OPT record without data
      for the root, with a size of 4096 octets in the place of the class, no extended response code,
      version 0 and the DO bit: section 6.1.2 of RFC 6891 and section 3 of RFC 3225. */
  lemma QuestionIsTiled(labels: seq<Label>, qtype: Word16, qclass: Word16, id: Word16)
    requires WithinLimits(labels)
    ensures var q := QuestionMessage(labels, qtype, qclass, id);
            var p := 12 + |Wire(labels)| + 4;
            && |q| == p + 11
            && q[..12] == [(id / 256) as Byte, (id % 256) as Byte, 1, 0, 0, 1, 0, 0, 0, 0, 0, 1]
            && LiesAt(q, 12, WireQuestion(labels, qtype, qclass))
            && QdCount(q) == 1 && AnCount(q) == 0 && NsCount(q) == 0 && ArCount(q) == 1
            && Tiled(q, p, [Extent(p, p + 1, p + 11)]) && NameAt(q, p, [], 0)
            && RrType(q, p + 1) == 41 && As16(q[p + 3], q[p + 4]) == 4096
            && q[p + 5..] == [0, 0, 128, 0, 0, 0]
  {
    hide Wire, WithinLimits, Tiled, WellFormedName;
    var q, p := QuestionMessage(labels, qtype, qclass, id), 12 + |Wire(labels)| + 4;
    assert q[..12] == Header(id);
    HeaderOctets(q, id);
    assert q == Header(id) + WireQuestion(labels, qtype, qclass) + Opt();
    assert q[p..] == Opt() && q[12..p] == WireQuestion(labels, qtype, qclass);
    OptTiles(q, p);
  }

  lemma HeaderOctets(q: seq<Byte>, id: Word16)
    requires |q| >= 12 && q[..12] == Header(id)
    ensures QdCount(q) == 1 && AnCount(q) == 0 && NsCount(q) == 0 && ArCount(q) == 1
  {
    assert forall i | 0 <= i < 12 :: q[i] == q[..12][i];
  }

  lemma OptTiles(q: seq<Byte>, p: nat)
    requires p <= |q| && q[p..] == Opt()
    ensures |q| == p + 11 && NameAt(q, p, [], 0) && Tiled(q, p, [Extent(p, p + 1, p + 11)])
    ensures RrType(q, p + 1) == 41 && As16(q[p + 3], q[p + 4]) == 4096 && q[p + 5..] == [0, 0, 128, 0, 0, 0]
  {
    assert forall i | 0 <= i < 11 :: q[p + i] == q[p..][i];
    assert q[p + 5..] == q[p..][5..];
    RootIsName(q, p);
    var one := [Extent(p, p + 1, p + 11)];
    assert one[1..] == [];
    assert WellFormedName(q, p);
  }

  // ----- names that match ------------------------------------------------------------------------

  /** Names without a trailing dot match when they agree but for the case of the letters A to Z. */
  lemma SameNameIff(s: seq<Byte>, t: seq<Byte>)
    requires (s == [] || s[|s| - 1] != 46) && (t == [] || t[|t| - 1] != 46)
    ensures SameName(s, t) <==>
              |s| == |t| && forall i | 0 <= i < |s| ::
                s[i] == t[i] || (65 <= s[i] <= 90 && t[i] as int == s[i] as int + 32)
                || (65 <= t[i] <= 90 && s[i] as int == t[i] as int + 32)
    ensures SameName(s + [46], t) <==> SameName(s, t)
    ensures SameName(s, t + [46]) <==> SameName(s, t)
  {}
}
