/** Reply addresses that describe themselves: the address of a correspondent and a local part of
    ours in one local part, with a keyed hash against forgery. */
module Reply {
  import opened Options
  import opened Ascii
  import opened Base32
  import opened Mailbox
  import Seqs

  datatype FromTo = FromTo(mailFrom: string, rcptToLocalPart: string)

  /** What is foreign to the module: the digest of SHA-256, and the grammar of address literals. */
  datatype Context = Context(sha: string -> Sum, literals: string -> bool)

  type Sum = s: string | |s| == 32 && IsOctets(s) witness seq(32, _ => 'a')

  const HASH_LENGTH := 6
  const REP_PREFIX := "rep="

  // ----- encoding --------------------------------------------------------------------------------

  function HashRep(rep: FromTo, secret: string, ctx: Context): (h: string)
    ensures |h| == HASH_LENGTH
  {
    Lower(Encode(ctx.sha(secret + Lower(rep.mailFrom) + Lower(rep.rcptToLocalPart)))[..HASH_LENGTH])
  }

  function Packet(rep: FromTo, secret: string, ctx: Context): string {
    HashRep(rep, secret, ctx) + "\0" + rep.rcptToLocalPart + "\0" + rep.mailFrom
  }

  function EncReplyBlob(rep: FromTo, secret: string, ctx: Context): string {
    Lower(Encode(Packet(rep, secret, ctx)))
  }

  /** Invalid arguments throw; a failed CHECK ends the program. */
  datatype Outcome<T> = Returned(value: T) | Throws | Dies

  function Separated(local: string, sep: char, domain: string, hash: string, rcpt: string): string {
    local + [sep] + ("at" + [sep] + (domain + [sep] + (hash + [sep] + rcpt)))
  }

  function EncReply(rep: FromTo, secret: string, ctx: Context): Outcome<string> {
    var result := Parse(rep.mailFrom, ctx.literals);
    if result.None? then Throws
    else if result.value.quoted || result.value.literal then Returned(EncReplyBlob(rep, secret, ctx))
    else
      var rcptTo := Parse(rep.rcptToLocalPart + "@" + OURS, ctx.literals);
      if rcptTo.None? then Throws
      else if rcptTo.value.quoted then Returned(EncReplyBlob(rep, secret, ctx))
      else if '_' !in rep.rcptToLocalPart then EncSeparated(rep, secret, ctx, result.value, '_')
      else if '=' !in rep.rcptToLocalPart then EncSeparated(rep, secret, ctx, result.value, '=')
      else Returned(EncReplyBlob(rep, secret, ctx))
  }

  function EncSeparated(rep: FromTo, secret: string, ctx: Context, from: Parsed, sep: char): Outcome<string> {
    if sep in from.domain then Dies
    else Returned(Separated(from.local, sep, from.domain, HashRep(rep, secret, ctx), rep.rcptToLocalPart))
  }

  // ----- decoding --------------------------------------------------------------------------------

  /** The parts of a text between runs of a delimiter; none of them is empty. */
  function Split(s: string, delim: char): seq<string>
    decreases |s|
  {
    if s == "" then []
    else if s[0] == delim then Split(s[1..], delim)
    else
      var k := FirstIndex(s, delim);
      [s[..k]] + Split(s[k..], delim)
  }

  /** The place of the first octet from i on that is not the delimiter, or the length. */
  method FindFirstNotOf(s: string, delim: char, i: nat) returns (k: nat)
    requires i <= |s|
    ensures i <= k <= |s| && (k < |s| ==> s[k] != delim)
    ensures Split(s[i..], delim) == Split(s[k..], delim)
  {
    k := i;
    while k < |s| && s[k] == delim
      invariant i <= k <= |s| && Split(s[i..], delim) == Split(s[k..], delim)
    {
      assert s[k..][1..] == s[k + 1..];
      k := k + 1;
    }
  }

  /** The loop that splits. */
  method SplitAll(s: string, delim: char) returns (parts: seq<string>)
    ensures parts == Split(s, delim)
  {
    hide Split;
    parts := [];
    var start := FindFirstNotOf(s, delim, 0);
    assert s[0..] == s;
    NothingLeft(s, delim);
    while start < |s|
      invariant start <= |s| && (start < |s| ==> s[start] != delim)
      invariant Split(s, delim) == parts + Split(s[start..], delim)
      decreases |s| - start
    {
      var end := start + FirstIndex(s[start..], delim);
      SplitStep(s, delim, start);
      Seqs.Assoc(parts, [s[start..end]], Split(s[end..], delim));
      parts := parts + [s[start..end]];
      start := FindFirstNotOf(s, delim, end);
    }
  }

  lemma SplitStep(s: string, delim: char, start: nat)
    requires start < |s| && s[start] != delim
    ensures var end := start + FirstIndex(s[start..], delim);
            end <= |s| && Split(s[start..], delim) == [s[start..end]] + Split(s[end..], delim)
  {
    var end := start + FirstIndex(s[start..], delim);
    assert s[start..][..end - start] == s[start..end] && s[start..][end - start..] == s[end..];
  }

  lemma NothingLeft(s: string, delim: char)
    ensures Split(s[|s|..], delim) == []
  {}

  function DecReplyBlob(addr: string, secret: string, ctx: Context): Outcome<Option<FromTo>> {
    var pkt := Decode(addr);
    if pkt.None? then Throws
    else
      var parts := Split(pkt.value, '\0');
      if |parts| != 3 then Returned(None)
      else
        var rep := FromTo(parts[2], parts[1]);
        if !EqualIgnoringCase(HashRep(rep, secret, ctx), parts[0]) then Returned(None) else Returned(Some(rep))
  }

  /** The text with one of the separators, from the last of them to the front. */
  function TryDecode(addr: string, secret: string, sep: char, ctx: Context): Option<FromTo> {
    var rcptSep := LastIndex(addr, sep);
    if rcptSep < 0 then None
    else
      var rcpt, upToHash := addr[rcptSep + 1..], addr[..rcptSep];
      var hashSep := LastIndex(upToHash, sep);
      if hashSep < 0 then None
      else
        var hash, upToDomain := upToHash[hashSep + 1..], upToHash[..hashSep];
        if !Pure(hash) then None
        else
          var domainSep := LastIndex(upToDomain, sep);
          if domainSep < 0 then None
          else
            var domain, local := upToDomain[domainSep + 1..], WithoutAt(upToDomain[..domainSep], sep);
            Checked(FromTo(local + "@" + domain, rcpt), hash, secret, ctx)
  }

  /** Takes the separator and the "at" away from the end of a local part. */
  function WithoutAt(local: string, sep: char): string {
    if EndsWith(local, [sep] + "at") then local[..|local| - 3] else local
  }

  function Checked(rep: FromTo, hash: string, secret: string, ctx: Context): Option<FromTo> {
    if Parse(rep.mailFrom, ctx.literals).Some? && EqualIgnoringCase(HashRep(rep, secret, ctx), hash)
    then Some(rep) else None
  }

  /** The format of old that starts with a prefix. */
  function OldDecReply(addr: string, secret: string, ctx: Context): Outcome<Option<FromTo>> {
    if Pure(addr) then DecReplyBlob(addr, secret, ctx)
    else
      var first, last := FirstIndex(addr, '='), LastIndex(addr, '=');
      if first == |addr| || first == last then Returned(None)
      else
        var afterFirst := addr[first + 1..];
        var second := FirstIndex(afterFirst, '=');
        if first + 1 + second >= last then Returned(None)
        else
          var rep := FromTo(addr[first + 1 + second + 1..last] + "@" + addr[last + 1..], afterFirst[..second]);
          Returned(if EqualIgnoringCase(addr[..first], HashRep(rep, secret, ctx)) then Some(rep) else None)
  }

  function DecReply(addr: string, secret: string, ctx: Context): Outcome<Option<FromTo>> {
    if StartsWith(addr, REP_PREFIX) then OldDecReply(addr[|REP_PREFIX|..], secret, ctx)
    else if Parse(addr + "@" + OURS, ctx.literals).None? then Throws
    else if Pure(addr) then
      if |addr| > 25 then DecReplyBlob(addr, secret, ctx) else Returned(None)
    else
      var rep := TryDecode(addr, secret, '_', ctx);
      if rep.Some? then Returned(rep) else Returned(TryDecode(addr, secret, '=', ctx))
  }

  // ----- the hash --------------------------------------------------------------------------------

  lemma HashIsPure(rep: FromTo, secret: string, ctx: Context)
    ensures Pure(HashRep(rep, secret, ctx)) && OctetsOnly(HashRep(rep, secret, ctx))
    ensures DotString(HashRep(rep, secret, ctx))
  {
    var x := ctx.sha(secret + Lower(rep.mailFrom) + Lower(rep.rcptToLocalPart));
    RoundTrip(x);
    LowerIsPure(Encode(x)[..HASH_LENGTH]);
    PureIsDotString(HashRep(rep, secret, ctx));
  }

  lemma {:induction false} PureIsAtoms(s: string)
    requires Pure(s)
    ensures Dots(s, false)
  {
    if s != "" {
      PureIsAtoms(s[1..]);
    }
  }

  lemma PureIsDotString(s: string)
    requires Pure(s) && s != ""
    ensures DotString(s) && OctetsOnly(s)
  {
    PureIsAtoms(s[1..]);
  }

  // ----- addresses with separators ---------------------------------------------------------------

  /** An encoding with separators is a local part that cannot be taken for a blob. */
  lemma SeparatedIsLocalPart(local: string, sep: char, domain: string, hash: string, rcpt: string)
    requires DotString(local) && DotString(domain) && DotString(hash) && DotString(rcpt)
    requires sep == '_' || sep == '='
    ensures DotString(Separated(local, sep, domain, hash, rcpt))
    ensures !Pure(Separated(local, sep, domain, hash, rcpt))
  {
    hide DotString;
    assert DotString("at") by { PureOrAt(); }
    Join(hash, sep, rcpt);
    Join(domain, sep, hash + [sep] + rcpt);
    Join("at", sep, domain + [sep] + (hash + [sep] + rcpt));
    Join(local, sep, "at" + [sep] + (domain + [sep] + (hash + [sep] + rcpt)));
    assert Separated(local, sep, domain, hash, rcpt)[|local|] == sep;
  }

  lemma PureOrAt()
    ensures DotString("at")
  {
    PureIsDotString("at");
  }

  /** From the last separator to the front, the parts come back. */
  lemma SeparatedDecodes(rep: FromTo, local: string, sep: char, domain: string, secret: string, ctx: Context)
    requires Parse(rep.mailFrom, ctx.literals) == Some(Parsed(local, domain, false, false))
    requires sep !in rep.rcptToLocalPart && sep !in domain && (sep == '_' || sep == '=')
    ensures var addr := Separated(local, sep, domain, HashRep(rep, secret, ctx), rep.rcptToLocalPart);
            TryDecode(addr, secret, sep, ctx) == Some(rep)
  {
    hide HashRep, Parse, Separated;
    var hash, rcpt := HashRep(rep, secret, ctx), rep.rcptToLocalPart;
    var addr := Separated(local, sep, domain, hash, rcpt);
    var at := local + [sep] + "at";
    HashIsPure(rep, secret, ctx);
    ParsedClean(rep.mailFrom, ctx.literals);
    NoSeparator(hash, sep);
    SeparatedInOrder(local, sep, domain, hash, rcpt);
    LastIndexIs(at + [sep] + domain + [sep] + hash, sep, rcpt);
    CutAt(at + [sep] + domain + [sep] + hash, sep, rcpt);
    LastIndexIs(at + [sep] + domain, sep, hash);
    CutAt(at + [sep] + domain, sep, hash);
    LastIndexIs(at, sep, domain);
    CutAt(at, sep, domain);
    AtTaken(local, sep);
  }

  lemma NoSeparator(hash: string, sep: char)
    requires Pure(hash) && (sep == '_' || sep == '=')
    ensures sep !in hash
  {}

  lemma CutAt(a: string, c: char, b: string)
    ensures (a + [c] + b)[..|a|] == a && (a + [c] + b)[|a| + 1..] == b
  {}

  lemma AtTaken(local: string, sep: char)
    ensures WithoutAt(local + [sep] + "at", sep) == local
  {
    var s := local + [sep] + "at";
    assert s[|s| - 3..] == [sep] + "at" && s[..|s| - 3] == local;
  }

  // ----- blobs -----------------------------------------------------------------------------------

  lemma SplitFirst(a: string, delim: char, b: string)
    requires a != "" && delim !in a
    ensures Split(a + [delim] + b, delim) == [a] + Split(b, delim)
  {
    var s := a + [delim] + b;
    FirstIndexIs(a, delim, b);
    CutAt(a, delim, b);
    assert s[0] == a[0] && s[|a|..] == [delim] + b && ([delim] + b)[1..] == b;
  }

  lemma SplitLast(a: string, delim: char)
    requires a != "" && delim !in a
    ensures Split(a, delim) == [a]
  {
    assert FirstIndex(a, delim) == |a| && a[..|a|] == a && a[|a|..] == "";
  }

  lemma BlobDecodes(rep: FromTo, secret: string, ctx: Context)
    requires rep.rcptToLocalPart != "" && OctetsOnly(rep.rcptToLocalPart)
    requires rep.mailFrom != "" && OctetsOnly(rep.mailFrom)
    ensures var addr := EncReplyBlob(rep, secret, ctx);
            && |addr| == (8 * (HASH_LENGTH + 2 + |rep.rcptToLocalPart| + |rep.mailFrom|) + 4) / 5
            && Pure(addr) && DecReplyBlob(addr, secret, ctx) == Returned(Some(rep))
  {
    hide HashRep, Encode, Decode, Split;
    var hash, rcpt, from := HashRep(rep, secret, ctx), rep.rcptToLocalPart, rep.mailFrom;
    HashIsPure(rep, secret, ctx);
    RoundTrip(Packet(rep, secret, ctx));
    LowerIsPure(Encode(Packet(rep, secret, ctx)));
    Seqs.Assoc(hash + "\0", rcpt, "\0" + from);
    assert Packet(rep, secret, ctx) == hash + "\0" + (rcpt + "\0" + from);
    SplitFirst(hash, '\0', rcpt + "\0" + from);
    SplitFirst(rcpt, '\0', from);
    SplitLast(from, '\0');
    assert Split(Packet(rep, secret, ctx), '\0') == [hash, rcpt, from];
  }

  // ----- the round trip --------------------------------------------------------------------------

  /** Which addresses are encoded as a blob. */
  predicate UsesBlob(rep: FromTo, ctx: Context) {
    var result := Parse(rep.mailFrom, ctx.literals);
    var rcptTo := Parse(rep.rcptToLocalPart + "@" + OURS, ctx.literals);
    || (result.Some? && (result.value.quoted || result.value.literal))
    || (rcptTo.Some? && rcptTo.value.quoted)
    || ('_' in rep.rcptToLocalPart && '=' in rep.rcptToLocalPart)
  }

  /** The domain never has a separator in it, so that the CHECK never fails. */
  lemma EncNeverDies(rep: FromTo, secret: string, ctx: Context)
    ensures !EncReply(rep, secret, ctx).Dies?
  {
    hide Parse, HashRep, EncReplyBlob, Domain, DotString;
    var result := Parse(rep.mailFrom, ctx.literals);
    if result.Some? {
      ParsedClean(rep.mailFrom, ctx.literals);
      if !result.value.literal {
        DomainClean(result.value.domain);
      }
    }
  }

  /** Reading a text at its underscores never gives a local part with an underscore. */
  lemma UnderscoreFree(addr: string, secret: string, ctx: Context)
    ensures var rep := TryDecode(addr, secret, '_', ctx);
            rep.Some? ==> '_' !in rep.value.rcptToLocalPart
  {
    hide Parse, HashRep, Pure;
  }

  lemma {:induction false} SplitParts(s: string, delim: char)
    ensures forall i | 0 <= i < |Split(s, delim)| :: Split(s, delim)[i] != "" && delim !in Split(s, delim)[i]
    decreases |s|
  {
    if s != "" {
      if s[0] == delim {
        SplitParts(s[1..], delim);
      } else {
        SplitParts(s[FirstIndex(s, delim)..], delim);
      }
    }
  }

  lemma EncodedAsBlob(rep: FromTo, secret: string, ctx: Context)
    requires EncReply(rep, secret, ctx).Returned? && UsesBlob(rep, ctx)
    ensures EncReply(rep, secret, ctx).value == EncReplyBlob(rep, secret, ctx)
    ensures rep.mailFrom != "" && OctetsOnly(rep.mailFrom)
  {
    hide Parse, HashRep, Domain, DotString, EncReplyBlob, OctetsOnly;
    ParsedClean(rep.mailFrom, ctx.literals);
  }

  lemma BlobIsPure(rep: FromTo, secret: string, ctx: Context)
    requires OctetsOnly(rep.mailFrom) && IsOctets(rep.rcptToLocalPart)
    ensures var addr := EncReplyBlob(rep, secret, ctx);
            && Pure(addr) && addr != ""
            && (|addr| > 25 <==> |rep.rcptToLocalPart| + |rep.mailFrom| >= 8)
  {
    hide HashRep, Encode;
    HashIsPure(rep, secret, ctx);
    RoundTrip(Packet(rep, secret, ctx));
    LowerIsPure(Encode(Packet(rep, secret, ctx)));
  }

  /** A text that is pure base 32 is read as a blob when it is long enough. */
  lemma DecodedAsBlob(addr: string, secret: string, ctx: Context)
    requires Pure(addr) && addr != ""
    ensures Parse(addr + "@" + OURS, ctx.literals).Some?
    ensures DecReply(addr, secret, ctx) == if |addr| > 25 then DecReplyBlob(addr, secret, ctx) else Returned(None)
  {
    hide Parse, Pure, Domain, DotString, DecReplyBlob, TryDecode, OldDecReply, StartsWith;
    PureIsDotString(addr);
    OursIsDomain();
    LocalIsMailbox(addr, OURS, ctx.literals);
    NoPrefixInPure(addr);
  }

  lemma BlobGivesParts(addr: string, secret: string, ctx: Context)
    ensures var r := DecReplyBlob(addr, secret, ctx);
            r.Returned? && r.value.Some? ==> var rcpt := r.value.value.rcptToLocalPart; rcpt != "" && '\0' !in rcpt
  {
    hide HashRep, Split;
    if Decode(addr).Some? {
      SplitParts(Decode(addr).value, '\0');
    }
  }

  /** A blob comes back exactly when our local part can be told from its surroundings and the whole is
      long enough to be taken for a blob. */
  lemma BlobRoundTripIff(rep: FromTo, secret: string, ctx: Context)
    requires EncReply(rep, secret, ctx).Returned? && UsesBlob(rep, ctx) && IsOctets(rep.rcptToLocalPart)
    ensures var addr, rcpt := EncReply(rep, secret, ctx).value, rep.rcptToLocalPart;
            && Parse(addr + "@" + OURS, ctx.literals).Some?
            && (DecReply(addr, secret, ctx) == Returned(Some(rep))
                <==> rcpt != "" && '\0' !in rcpt && |rcpt| + |rep.mailFrom| >= 8)
  {
    hide *;
    EncodedAsBlob(rep, secret, ctx);
    var addr, rcpt := EncReplyBlob(rep, secret, ctx), rep.rcptToLocalPart;
    BlobIsPure(rep, secret, ctx);
    DecodedAsBlob(addr, secret, ctx);
    if rcpt != "" && '\0' !in rcpt {
      NoZeroOctet(rcpt);
      BlobDecodes(rep, secret, ctx);
    } else {
      BlobGivesParts(addr, secret, ctx);
    }
  }

  lemma NoZeroOctet(s: string)
    requires IsOctets(s) && '\0' !in s
    ensures OctetsOnly(s)
  {}

  /** Whether a text has three separators. */
  predicate HasThree(s: string, sep: char) {
    var k3 := LastIndex(s, sep);
    var k2 := if k3 < 0 then -1 else LastIndex(s[..k3], sep);
    k2 >= 0 && LastIndex(s[..k2], sep) >= 0
  }

  /** What has to be so for the underscores of a text to be taken for separators. */
  lemma UnderscoresRead(addr: string, secret: string, ctx: Context) returns (p: nat, q: nat, r: nat)
    requires TryDecode(addr, secret, '_', ctx).Some?
    ensures p < q < r < |addr| && addr[p] == addr[q] == addr[r] == '_'
    ensures '_' !in addr[p + 1..q] && '_' !in addr[q + 1..r] && '_' !in addr[r + 1..]
    ensures Pure(addr[q + 1..r])
    ensures exists local: string :: Parse(local + "@" + addr[p + 1..q], ctx.literals).Some?
                                    && (forall i | 0 <= i < |local| :: local[i] in addr)
  {
    hide Parse, HashRep, Pure;
    r := LastIndex(addr, '_');
    q := LastIndex(addr[..r], '_');
    p := LastIndex(addr[..r][..q], '_');
    assert addr[..r][..q] == addr[..q] && addr[..q][p + 1..] == addr[p + 1..q];
    assert addr[..r][q + 1..] == addr[q + 1..r];
    var local := WithoutAt(addr[..q][..p], '_');
    assert forall i | 0 <= i < |local| :: local[i] == addr[i];
    assert Parse(local + "@" + addr[p + 1..q], ctx.literals).Some?;
  }

  /** What is taken for a domain is one when the text is a dot string. */
  lemma ReadDomain(local: string, domain: string, addr: string, ctx: Context)
    requires DotString(addr) && Parse(local + "@" + domain, ctx.literals).Some?
    requires (forall i | 0 <= i < |local| :: local[i] in addr) && (domain != "" ==> domain[0] in addr)
    ensures Domain(domain)
  {
    hide Domain, DotString, QuotedString;
    DotStringClean(addr);
    var m := local + "@" + domain;
    ParsedClean(m, ctx.literals);
    FirstIndexIs(local, '@', domain);
    CutAt(local, '@', domain);
    assert m[0] == if local == "" then '@' else local[0];
    NotQuoted(m);
  }

  lemma NotQuoted(s: string)
    requires s != "" && s[0] != '"'
    ensures QuotedString(s) == 0
  {}

  lemma {:induction false} LastIsLast(s: string, c: char, i: nat)
    requires i < |s| && s[i] == c
    ensures LastIndex(s, c) >= i
  {
    if i < |s| - 1 {
      LastIsLast(s[..|s| - 1], c, i);
    }
  }

  lemma ThreePlaces(s: string, c: char, p: nat, q: nat, r: nat)
    requires p < q < r < |s| && s[p] == s[q] == s[r] == c
    ensures HasThree(s, c)
  {
    LastIsLast(s, c, r);
    var k3 := LastIndex(s, c);
    LastIsLast(s[..k3], c, q);
    LastIsLast(s[..LastIndex(s[..k3], c)], c, p);
  }

  /** An equals sign is in none of the parts that are read at underscores, so that all three
      underscores come after it when one does. */
  lemma AllAfter(addr: string, e: nat, secret: string, ctx: Context) returns (p: nat, q: nat, r: nat)
    requires DotString(addr) && TryDecode(addr, secret, '_', ctx).Some?
    requires e < |addr| && addr[e] == '=' && '_' in addr[e + 1..]
    ensures e < p < q < r < |addr| && addr[p] == addr[q] == addr[r] == '_'
  {
    hide DotString, TryDecode, Domain, Parse;
    p, q, r := UnderscoresRead(addr, secret, ctx);
    var local: string :| Parse(local + "@" + addr[p + 1..q], ctx.literals).Some?
                         && (forall i | 0 <= i < |local| :: local[i] in addr);
    var domain := addr[p + 1..q];
    ReadDomain(local, domain, addr, ctx);
    if p < e < q {
      InDomain(addr, p + 1, q, e);
    } else if q < e < r {
      InHash(addr, q + 1, r, e);
    } else if r < e {
      AfterThat(addr, r, e, '_');
    }
  }

  lemma InDomain(s: string, lo: nat, hi: nat, i: nat)
    requires lo <= i < hi <= |s| && Domain(s[lo..hi])
    ensures s[i] != '='
  {
    hide Domain, DotString;
    DomainClean(s[lo..hi]);
    assert s[lo..hi][i - lo] == s[i];
  }

  lemma InHash(s: string, lo: nat, hi: nat, i: nat)
    requires lo <= i < hi <= |s| && Pure(s[lo..hi])
    ensures s[i] != '='
  {
    assert s[lo..hi][i - lo] == s[i];
  }

  lemma AfterThat(s: string, r: nat, e: nat, c: char)
    requires r < e < |s| && c in s[e + 1..]
    ensures c in s[r + 1..]
  {
    assert s[e + 1..] == s[r + 1..][e - r..];
  }

  lemma ThreeInLast(local: string, domain: string, hash: string, rcpt: string, secret: string, ctx: Context)
    requires var addr := Separated(local, '=', domain, hash, rcpt);
             DotString(addr) && TryDecode(addr, secret, '_', ctx).Some? && '_' in rcpt
    ensures HasThree(rcpt, '_')
  {
    hide DotString, TryDecode, HasThree, Separated;
    var addr := Separated(local, '=', domain, hash, rcpt);
    var before := local + ['='] + "at" + ['='] + domain + ['='] + hash;
    SeparatedInOrder(local, '=', domain, hash, rcpt);
    CutAt(before, '=', rcpt);
    var n := |before| + 1;
    assert forall i | n <= i < |addr| :: addr[n..][i - n] == addr[i];
    var p, q, r := AllAfter(addr, |before|, secret, ctx);
    ThreePlaces(rcpt, '_', p - n, q - n, r - n);
  }

  lemma SeparatedInOrder(local: string, sep: char, domain: string, hash: string, rcpt: string)
    ensures Separated(local, sep, domain, hash, rcpt)
         == local + [sep] + "at" + [sep] + domain + [sep] + hash + [sep] + rcpt
  {}

  // ----- when an address with separators comes back ----------------------------------------------

  /** What an address with equals signs has before our local part. */
  function Before(local: string, domain: string, hash: string): string {
    local + "=" + "at" + "=" + domain + "=" + hash + "="
  }

  /** Our local part has three underscores, and what stands between the last of them is, with all that
      comes before, a sender and a hash that fits. */
  predicate Misread(before: string, rcpt: string, secret: string, ctx: Context) {
    && HasThree(rcpt, '_')
    && var k3 := LastIndex(rcpt, '_');
       var k2 := LastIndex(rcpt[..k3], '_');
       var k1 := LastIndex(rcpt[..k2], '_');
       var domain, hash := rcpt[k1 + 1..k2], rcpt[k2 + 1..k3];
       && Pure(hash)
       && Checked(FromTo(WithoutAt(before + rcpt[..k1], '_') + "@" + domain, rcpt[k3 + 1..]), hash, secret, ctx).Some?
  }

  lemma {:induction false} LastIndexAppend(a: string, b: string, c: char)
    ensures LastIndex(b, c) >= 0 ==> LastIndex(a + b, c) == |a| + LastIndex(b, c)
    ensures LastIndex(b, c) < 0 ==> LastIndex(a + b, c) == LastIndex(a, c)
  {
    if b == "" {
      assert a + b == a;
    } else {
      assert (a + b)[|a + b| - 1] == b[|b| - 1] && (a + b)[..|a + b| - 1] == a + b[..|b| - 1];
      LastIndexAppend(a, b[..|b| - 1], c);
    }
  }

  /** One cut from the back, which falls into the second part. */
  lemma CutInSecond(a: string, b: string, k: nat, c: char)
    requires k == LastIndex(b, c)
    ensures LastIndex(a + b, c) == |a| + k
    ensures (a + b)[..|a| + k] == a + b[..k] && (a + b)[|a| + k + 1..] == b[k + 1..]
  {
    hide LastIndex;
    LastIndexAppend(a, b, c);
  }

  lemma MisreadWithThree(before: string, rcpt: string, secret: string, ctx: Context)
    requires HasThree(rcpt, '_')
    ensures TryDecode(before + rcpt, secret, '_', ctx).Some? <==> Misread(before, rcpt, secret, ctx)
  {
    hide LastIndex, WithoutAt, Checked, Pure;
    var k3 := LastIndex(rcpt, '_');
    var k2 := LastIndex(rcpt[..k3], '_');
    CutInSecond(before, rcpt, k3, '_');
    CutInSecond(before, rcpt[..k3], k2, '_');
    assert rcpt[..k3][..k2] == rcpt[..k2] && rcpt[..k3][k2 + 1..] == rcpt[k2 + 1..k3];
    var k1 := LastIndex(rcpt[..k2], '_');
    CutInSecond(before, rcpt[..k2], k1, '_');
    assert rcpt[..k2][..k1] == rcpt[..k1] && rcpt[..k2][k1 + 1..] == rcpt[k1 + 1..k2];
  }

  /** Underscores are taken for separators exactly in a misread. */
  lemma MisreadIff(local: string, domain: string, hash: string, rcpt: string, secret: string, ctx: Context)
    requires DotString(Separated(local, '=', domain, hash, rcpt)) && '_' in rcpt
    ensures TryDecode(Separated(local, '=', domain, hash, rcpt), secret, '_', ctx).Some?
            <==> Misread(Before(local, domain, hash), rcpt, secret, ctx)
  {
    hide DotString, TryDecode, HasThree, Separated;
    SeparatedInOrder(local, '=', domain, hash, rcpt);
    if HasThree(rcpt, '_') {
      MisreadWithThree(Before(local, domain, hash), rcpt, secret, ctx);
    } else if TryDecode(Separated(local, '=', domain, hash, rcpt), secret, '_', ctx).Some? {
      ThreeInLast(local, domain, hash, rcpt, secret, ctx);
    }
  }

  /** The sender's local part makes the whole begin like the old format. */
  predicate LooksOld(local: string, sep: char) {
    StartsWith(local, REP_PREFIX) || (EqualIgnoringCase(local, "rep") && sep == '=')
  }

  lemma LooksOldIff(local: string, sep: char, domain: string, hash: string, rcpt: string)
    requires sep == '_' || sep == '='
    ensures StartsWith(Separated(local, sep, domain, hash, rcpt), REP_PREFIX) <==> LooksOld(local, sep)
  {
    var addr := Separated(local, sep, domain, hash, rcpt);
    var n := |local|;
    assert addr[n] == sep && forall i | 0 <= i < n :: addr[i] == local[i];
    if n >= 4 {
      assert addr[..4] == local[..4];
    } else if n == 3 {
      assert addr[..4] == local + [sep];
      assert forall i | 0 <= i < 3 :: addr[..4][i] == local[i] && REP_PREFIX[i] == "rep"[i];
      assert addr[..4][3] == sep && REP_PREFIX[3] == '=';
    } else {
      assert addr[..4][n] == sep;
    }
  }

  /** The old format has other lengths: what it would have to give does not leave room for its hash. */
  lemma OldNeverGives(addr: string, rep: FromTo, secret: string, ctx: Context)
    requires !Pure(addr) && |addr| == |rep.mailFrom| + |rep.rcptToLocalPart| + HASH_LENGTH + 1
    ensures OldDecReply(addr, secret, ctx) != Returned(Some(rep))
  {
    hide HashRep, Pure;
  }

  lemma LastSeparator(addr: string, k: nat)
    requires 4 <= k < |addr| && (addr[k] == '_' || addr[k] == '=')
    ensures !Pure(addr[4..])
  {
    assert addr[4..][k - 4] == addr[k];
  }

  /** An address that begins like the old format does not come back. */
  lemma PrefixIsLost(rep: FromTo, local: string, sep: char, domain: string, secret: string, ctx: Context)
    requires rep.mailFrom == local + "@" + domain && (sep == '_' || sep == '=')
    requires StartsWith(Separated(local, sep, domain, HashRep(rep, secret, ctx), rep.rcptToLocalPart), REP_PREFIX)
    ensures DecReply(Separated(local, sep, domain, HashRep(rep, secret, ctx), rep.rcptToLocalPart), secret, ctx)
            != Returned(Some(rep))
  {
    hide HashRep, Pure, OldDecReply, StartsWith, Separated, Parse, TryDecode;
    var hash, rcpt := HashRep(rep, secret, ctx), rep.rcptToLocalPart;
    var addr := Separated(local, sep, domain, hash, rcpt);
    SeparatedInOrder(local, sep, domain, hash, rcpt);
    var k := |local| + 4 + |domain| + 1 + |hash|;
    assert addr[k] == sep && |addr| == k + 1 + |rcpt|;
    LastSeparator(addr, k);
    OldNeverGives(addr[4..], rep, secret, ctx);
  }

  /** Which separator an address is encoded with. */
  function SepOf(rcpt: string): char {
    if '_' !in rcpt then '_' else '='
  }

  /** For every address that is encoded with separators: the encoding is a local part, and it comes
      back exactly when it neither begins like the old format nor can be misread at underscores. */
  lemma SeparatedRoundTripIff(rep: FromTo, secret: string, ctx: Context)
    requires EncReply(rep, secret, ctx).Returned? && !UsesBlob(rep, ctx)
    ensures Parse(EncReply(rep, secret, ctx).value + "@" + OURS, ctx.literals).Some?
    ensures var from, rcpt := Parse(rep.mailFrom, ctx.literals).value, rep.rcptToLocalPart;
            DecReply(EncReply(rep, secret, ctx).value, secret, ctx) == Returned(Some(rep))
            <==> !LooksOld(from.local, SepOf(rcpt))
                 && !Misread(Before(from.local, from.domain, HashRep(rep, secret, ctx)), rcpt, secret, ctx)
  {
    hide Parse, HashRep, Domain, DotString, TryDecode, Separated, StartsWith, Pure, Misread, Before, LooksOld;
    var from := Parse(rep.mailFrom, ctx.literals).value;
    var hash, rcpt := HashRep(rep, secret, ctx), rep.rcptToLocalPart;
    var sep := SepOf(rcpt);
    var addr := Separated(from.local, sep, from.domain, hash, rcpt);
    ParsedClean(rep.mailFrom, ctx.literals);
    DomainClean(from.domain);
    LocalParts(rcpt, ctx.literals);
    HashIsPure(rep, secret, ctx);
    SeparatedIsLocalPart(from.local, sep, from.domain, hash, rcpt);
    OursIsDomain();
    LocalIsMailbox(addr, OURS, ctx.literals);
    LooksOldIff(from.local, sep, from.domain, hash, rcpt);
    if StartsWith(addr, REP_PREFIX) {
      PrefixIsLost(rep, from.local, sep, from.domain, secret, ctx);
    } else {
      SeparatedDecodes(rep, from.local, sep, from.domain, secret, ctx);
      if sep == '=' {
        MisreadIff(from.local, from.domain, hash, rcpt, secret, ctx);
        UnderscoreFree(addr, secret, ctx);
      } else {
        NoMisread(Before(from.local, from.domain, hash), rcpt, secret, ctx);
      }
    }
  }

  lemma NoMisread(before: string, rcpt: string, secret: string, ctx: Context)
    requires !HasThree(rcpt, '_') || '_' !in rcpt
    ensures !Misread(before, rcpt, secret, ctx)
  {}

  /** With fewer than three underscores in our local part only the prefix matters. */
  lemma MisreadNeedsThree(rep: FromTo, secret: string, ctx: Context)
    requires EncReply(rep, secret, ctx).Returned? && !UsesBlob(rep, ctx)
    requires !HasThree(rep.rcptToLocalPart, '_')
    ensures DecReply(EncReply(rep, secret, ctx).value, secret, ctx) == Returned(Some(rep))
            <==> !LooksOld(Parse(rep.mailFrom, ctx.literals).value.local, SepOf(rep.rcptToLocalPart))
  {
    hide DecReply, Parse, HashRep, HasThree, Misread, Before, LooksOld, UsesBlob;
    SeparatedRoundTripIff(rep, secret, ctx);
    var from := Parse(rep.mailFrom, ctx.literals).value;
    NoMisread(Before(from.local, from.domain, HashRep(rep, secret, ctx)), rep.rcptToLocalPart, secret, ctx);
  }

  // ----- addresses that do not come back ---------------------------------------------------------

  /** What is encoded for senders and local parts of the plain kind. */
  lemma PlainIsEncoded(local: string, domain: string, rcpt: string, secret: string, ctx: Context)
    requires DotString(local) && Domain(domain) && DotString(rcpt) && !('_' in rcpt && '=' in rcpt)
    ensures var rep := FromTo(local + "@" + domain, rcpt);
            && Parse(rep.mailFrom, ctx.literals) == Some(Parsed(local, domain, false, false))
            && EncReply(rep, secret, ctx).Returned? && !UsesBlob(rep, ctx)
  {
    hide Parse, HashRep, Domain, DotString, EncReplyBlob;
    LocalIsMailbox(local, domain, ctx.literals);
    OursIsDomain();
    LocalIsMailbox(rcpt, OURS, ctx.literals);
    DomainClean(domain);
  }

  /** The text of an encoding, with its hash: the first six digits of base 32 of the digest, in lower case.
      Underscores separate, or equals signs when our local part has an underscore; with both in it, the
      hash, our local part and the sender are joined by zero octets and written in base 32. */
  lemma EncWrittenOut(local: string, domain: string, rcpt: string, secret: string, ctx: Context)
    requires DotString(local) && Domain(domain) && DotString(rcpt)
    ensures var from := local + "@" + domain;
            var hash := Lower(Encode(ctx.sha(secret + Lower(from) + Lower(rcpt)))[..6]);
            && |hash| == 6
            && EncReply(FromTo(from, rcpt), secret, ctx) == Returned(
                 if '_' !in rcpt then local + "_at_" + domain + "_" + hash + "_" + rcpt
                 else if '=' !in rcpt then local + "=at=" + domain + "=" + hash + "=" + rcpt
                 else Lower(Encode(hash + "\0" + rcpt + "\0" + from)))
  {
    hide Parse, Domain, DotString, Encode, Separated;
    LocalIsMailbox(local, domain, ctx.literals);
    OursIsDomain();
    LocalIsMailbox(rcpt, OURS, ctx.literals);
    DomainClean(domain);
    var hash := HashRep(FromTo(local + "@" + domain, rcpt), secret, ctx);
    SeparatedText(local, domain, hash, rcpt);
  }

  lemma SeparatedText(local: string, domain: string, hash: string, rcpt: string)
    ensures Separated(local, '_', domain, hash, rcpt) == local + "_at_" + domain + "_" + hash + "_" + rcpt
    ensures Separated(local, '=', domain, hash, rcpt) == local + "=at=" + domain + "=" + hash + "=" + rcpt
  {
    SeparatedInOrder(local, '_', domain, hash, rcpt);
    SeparatedInOrder(local, '=', domain, hash, rcpt);
    assert local + ['_'] + "at" + ['_'] == local + "_at_" && local + ['='] + "at" + ['='] == local + "=at=";
  }

  // ----- the format of old -----------------------------------------------------------------------

  /** The old format has the hash first, then our local part, then the sender's local part, which may
      have equals signs in it, and the domain; neither the case of the prefix nor that of the hash
      matters. */
  lemma OldFormatReads(prefix: string, hash: string, rcpt: string, local: string, domain: string,
                       secret: string, ctx: Context)
    requires EqualIgnoringCase(prefix, "rep=")
    requires '=' !in hash && '=' !in rcpt && '=' !in domain
    ensures var rep := FromTo(local + "@" + domain, rcpt);
            DecReply(prefix + hash + "=" + rcpt + "=" + local + "=" + domain, secret, ctx)
            == Returned(if EqualIgnoringCase(hash, HashRep(rep, secret, ctx)) then Some(rep) else None)
  {
    hide HashRep, EqualIgnoringCase, OldDecReply;
    var rest := hash + "=" + rcpt + "=" + local + "=" + domain;
    var addr := prefix + hash + "=" + rcpt + "=" + local + "=" + domain;
    assert addr == prefix + rest;
    PrefixLength(prefix);
    assert addr[..4] == prefix && addr[4..] == rest;
    OldParts(hash, rcpt, local, domain, secret, ctx);
  }

  lemma PrefixLength(prefix: string)
    requires EqualIgnoringCase(prefix, "rep=")
    ensures |prefix| == 4
  {}

  lemma OldParts(hash: string, rcpt: string, local: string, domain: string, secret: string, ctx: Context)
    requires '=' !in hash && '=' !in rcpt && '=' !in domain
    ensures var rep := FromTo(local + "@" + domain, rcpt);
            OldDecReply(hash + "=" + rcpt + "=" + local + "=" + domain, secret, ctx)
            == Returned(if EqualIgnoringCase(hash, HashRep(rep, secret, ctx)) then Some(rep) else None)
  {
    hide HashRep, EqualIgnoringCase, FirstIndex, LastIndex, DecReplyBlob;
    var s := hash + "=" + rcpt + "=" + local + "=" + domain;
    var afterFirst, upToLast := rcpt + "=" + local + "=" + domain, hash + "=" + rcpt + "=" + local;
    assert s == hash + ['='] + afterFirst && s == upToLast + ['='] + domain;
    assert afterFirst == rcpt + ['='] + (local + "=" + domain);
    FirstIndexIs(hash, '=', afterFirst);
    FirstIndexIs(rcpt, '=', local + "=" + domain);
    LastIndexIs(upToLast, '=', domain);
    CutAt(hash, '=', afterFirst);
    CutAt(upToLast, '=', domain);
    assert s[|hash|] == '=' && !Pure(s);
    var k := |hash| + 1 + |rcpt| + 1;
    assert s[k..|upToLast|] == local;
    assert afterFirst[..|rcpt|] == rcpt;
    CaseIsSymmetric(hash, HashRep(FromTo(local + "@" + domain, rcpt), secret, ctx));
  }

  lemma CaseIsSymmetric(a: string, b: string)
    ensures EqualIgnoringCase(a, b) == EqualIgnoringCase(b, a)
  {}

  /** The old prefix before a blob: the same blob. */
  lemma OldBlobReads(rep: FromTo, secret: string, ctx: Context)
    requires rep.rcptToLocalPart != "" && OctetsOnly(rep.rcptToLocalPart)
    requires rep.mailFrom != "" && OctetsOnly(rep.mailFrom)
    ensures DecReply("rep=" + EncReplyBlob(rep, secret, ctx), secret, ctx) == Returned(Some(rep))
  {
    hide EncReplyBlob, DecReplyBlob, EqualIgnoringCase, Pure;
    BlobDecodes(rep, secret, ctx);
    var addr := "rep=" + EncReplyBlob(rep, secret, ctx);
    assert addr[..4] == "rep=" && addr[4..] == EncReplyBlob(rep, secret, ctx);
    SameText("rep=");
  }

  lemma SameText(s: string)
    ensures EqualIgnoringCase(s, s)
  {}

  lemma ShortDomain()
    ensures Domain("b.c")
  {
    assert FirstIndex("b.c", '.') == 1 && FirstIndex("c", '.') == 1;
    assert Label("b", false) && Label("c", false);
    assert "b.c"[2..] == "c" && "c"[..1] == "c" && "b.c"[..1] == "b";
  }

  /** A sender whose local part begins like the old format, with any local part of ours. */
  lemma PrefixOccurs(rcpt: string, secret: string, ctx: Context)
    requires DotString(rcpt) && !('_' in rcpt && '=' in rcpt)
    ensures var rep := FromTo("rep=a@b.c", rcpt);
            && EncReply(rep, secret, ctx).Returned? && !UsesBlob(rep, ctx)
            && DecReply(EncReply(rep, secret, ctx).value, secret, ctx) != Returned(Some(rep))
  {
    hide EncReply, DecReply, Parse, HashRep, Misread, Before, UsesBlob, DotString;
    PureIsDotString("rep");
    PureIsDotString("a");
    Join("rep", '=', "a");
    ShortDomain();
    assert "rep" + ['='] + "a" == "rep=a" && "rep=a" + "@" + "b.c" == "rep=a@b.c";
    PlainIsEncoded("rep=a", "b.c", rcpt, secret, ctx);
    assert "rep=a"[..4] == "rep=";
    SeparatedRoundTripIff(FromTo("rep=a@b.c", rcpt), secret, ctx);
  }

  /** A blob of two very short addresses, the second with both separators in it. */
  lemma ShortBlobIsLost(secret: string, ctx: Context)
    ensures var rep := FromTo("a@b", "_=");
            && EncReply(rep, secret, ctx).Returned? && UsesBlob(rep, ctx)
            && DecReply(EncReply(rep, secret, ctx).value, secret, ctx) != Returned(Some(rep))
  {
    hide DecReply, HashRep, EncReplyBlob, Parse, DotString, Domain;
    PureIsDotString("a");
    TwoSeparators();
    ShortestDomain();
    OursIsDomain();
    LocalIsMailbox("a", "b", ctx.literals);
    LocalIsMailbox("_=", OURS, ctx.literals);
    assert "a" + "@" + "b" == "a@b" && "_="[0] == '_' && "_="[1] == '=';
    BlobRoundTripIff(FromTo("a@b", "_="), secret, ctx);
  }

  lemma TwoSeparators()
    ensures DotString("_=")
  {
    assert "_="[1..] == "=" && "="[1..] == "";
    assert Atext("_=") == 1 && Atext("=") == 1 && Dots("", false);
  }

  lemma ShortestDomain()
    ensures Domain("b")
  {
    assert FirstIndex("b", '.') == 1 && Label("b", false) && "b"[..1] == "b";
  }

  /** A digest that is the same for all texts. */
  function AllAlike(): Context {
    Context(_ => "aaaaaaaaaaaaaaaaaaaaaaaaaaaaaaaa", _ => false)
  }

  /** A local part of ours that is misread: with a digest that collides, the hash can be foreseen and
      put between two underscores. */
  lemma MisreadOccurs(secret: string)
    ensures var ctx := AllAlike();
            var hash := HashRep(FromTo("", ""), secret, ctx);
            var rep := FromTo("a@b.c", "a_b.c_" + hash + "_a");
            && EncReply(rep, secret, ctx).Returned? && !UsesBlob(rep, ctx) && !LooksOld("a", '=')
            && DecReply(EncReply(rep, secret, ctx).value, secret, ctx) != Returned(Some(rep))
  {
    hide EncReply, DecReply, Parse, Misread, UsesBlob, DotString, Domain, HasThree, Encode, Before;
    var ctx := AllAlike();
    var hash := HashRep(FromTo("", ""), secret, ctx);
    var rcpt := "a_b.c_" + hash + "_a";
    var rep := FromTo("a@b.c", rcpt);
    assert HashRep(rep, secret, ctx) == hash;
    HashIsPure(rep, secret, ctx);
    PureIsDotString("a");
    ShortDomain();
    DomainClean("b.c");
    Join("a", '_', "b.c");
    Join("a" + ['_'] + "b.c", '_', hash);
    Join("a" + ['_'] + "b.c" + ['_'] + hash, '_', "a");
    assert rcpt == "a" + ['_'] + "b.c" + ['_'] + hash + ['_'] + "a";
    NoSeparator(hash, '=');
    PlainIsEncoded("a", "b.c", rcpt, secret, ctx);
    assert "a" + "@" + "b.c" == "a@b.c";
    SeparatedRoundTripIff(rep, secret, ctx);
    MisreadHere(hash, secret);
  }

  lemma MisreadHere(hash: string, secret: string)
    requires hash == HashRep(FromTo("", ""), secret, AllAlike())
    ensures Misread(Before("a", "b.c", hash), "a" + ['_'] + "b.c" + ['_'] + hash + ['_'] + "a", secret, AllAlike())
  {
    hide Encode, DotString, Domain, Parse;
    var ctx, before := AllAlike(), Before("a", "b.c", hash);
    HashIsPure(FromTo("", ""), secret, ctx);
    NoSeparator(hash, '_');
    LastIndexIs("a" + ['_'] + "b.c" + ['_'] + hash, '_', "a");
    CutAt("a" + ['_'] + "b.c" + ['_'] + hash, '_', "a");
    LastIndexIs("a" + ['_'] + "b.c", '_', hash);
    CutAt("a" + ['_'] + "b.c", '_', hash);
    LastIndexIs("a", '_', "b.c");
    CutAt("a", '_', "b.c");
    PureIsDotString("a");
    ShortDomain();
    DomainClean("b.c");
    SeparatedIsLocalPart("a", '=', "b.c", hash, "a");
    SeparatedInOrder("a", '=', "b.c", hash, "a");
    LocalIsMailbox(before + "a", "b.c", ctx.literals);
    assert (before + "a")[|before|] == 'a';
    assert WithoutAt(before + "a", '_') == before + "a";
    var rcpt := "a" + ['_'] + "b.c" + ['_'] + hash + ['_'] + "a";
    var k2 := |"a" + ['_'] + "b.c"|;
    assert rcpt[..k2 + 1 + |hash|] == "a" + ['_'] + "b.c" + ['_'] + hash;
    assert rcpt[..k2] == "a" + ['_'] + "b.c" && rcpt[..1] == "a";
    assert rcpt[2..k2] == "b.c" && rcpt[k2 + 1..k2 + 1 + |hash|] == hash;
  }

  lemma NoPrefixInPure(s: string)
    requires Pure(s)
    ensures !StartsWith(s, REP_PREFIX)
  {
    if |s| >= 4 {
      assert s[..4][3] == s[3] && REP_PREFIX[3] == '=';
    }
  }
}
