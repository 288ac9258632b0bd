/** Names in DNS messages: what section 4.1.4 of RFC 1035 says an encoded name means, and the
    two passes that measure and expand one. */
module DnsName {
  import opened Options
  import Seqs

  type Byte = b: int | 0 <= b < 256

  type Label = seq<Byte>

  const DOT: Byte := 46
  const BACKSLASH: Byte := 92

  // ----- the meaning of an encoded name ----------------------------------------------------------

  /** Offset that a compression pointer at p leads to. */
  function PointerTarget(pkt: seq<Byte>, p: nat): nat
    requires p + 1 < |pkt| && pkt[p] >= 192
  {
    (pkt[p] as int - 192) * 256 + pkt[p + 1] as int
  }

  /** The octets at p encode these labels and follow this many pointers: section 4.1.4 of
      RFC 1035, with every octet inside the message. */
  ghost predicate NameAt(pkt: seq<Byte>, p: nat, labels: seq<Label>, hops: nat)
    decreases hops, |labels|
  {
    && p < |pkt|
    && (|| (pkt[p] == 0 && labels == [] && hops == 0)
        || (1 <= pkt[p] < 64 && p + 1 + pkt[p] <= |pkt| && labels != []
            && labels[0] == pkt[p + 1..p + 1 + pkt[p]]
            && NameAt(pkt, p + 1 + pkt[p], labels[1..], hops))
        || (pkt[p] >= 192 && p + 1 < |pkt| && hops > 0
            && NameAt(pkt, PointerTarget(pkt, p), labels, hops - 1)))
  }

  /** Two octets with the two high bits set and an offset of 14 bits, the most significant first, lead to
      the name at that offset. */
  lemma PointerIsName(pkt: seq<Byte>, p: nat, o: nat, labels: seq<Label>, hops: nat)
    requires p + 1 < |pkt| && o < 0x4000 && pkt[p] as int == 192 + o / 256 && pkt[p + 1] as int == o % 256
    requires NameAt(pkt, o, labels, hops)
    ensures NameAt(pkt, p, labels, hops + 1)
  {
    assert PointerTarget(pkt, p) == o;
  }

  /** How many pointers a name may follow. */
  function MaxHops(pkt: seq<Byte>): nat {
    if |pkt| < 50 then |pkt| else 50
  }

  ghost predicate WellFormedName(pkt: seq<Byte>, p: nat) {
    exists labels: seq<Label>, hops: nat :: hops <= MaxHops(pkt) && NameAt(pkt, p, labels, hops)
  }

  /** The labels of the name at p, if it is well formed within a budget of pointers. */
  function Decode(pkt: seq<Byte>, p: nat, budget: nat): (r: Option<seq<Label>>)
    decreases budget, |pkt| - p
  {
    if p >= |pkt| then None
    else if pkt[p] == 0 then Some([])
    else if pkt[p] >= 192 then
      if p + 1 < |pkt| && PointerTarget(pkt, p) < |pkt| && budget > 0
      then Decode(pkt, PointerTarget(pkt, p), budget - 1)
      else None
    else if pkt[p] < 64 && p + pkt[p] + 1 < |pkt| then
      match Decode(pkt, p + 1 + pkt[p], budget)
      case None => None
      case Some(rest) => Some([pkt[p + 1..p + 1 + pkt[p]]] + rest)
    else None
  }

  lemma {:induction false} NameAtDecodes(pkt: seq<Byte>, p: nat, labels: seq<Label>, hops: nat, budget: nat)
    requires NameAt(pkt, p, labels, hops) && hops <= budget
    ensures Decode(pkt, p, budget) == Some(labels)
    decreases hops, |labels|
  {
    if pkt[p] == 0 {
    } else if pkt[p] < 64 {
      NameAtDecodes(pkt, p + 1 + pkt[p], labels[1..], hops, budget);
      assert labels == [labels[0]] + labels[1..];
    } else {
      NameAtDecodes(pkt, PointerTarget(pkt, p), labels, hops - 1, budget - 1);
    }
  }

  lemma {:induction false} DecodeIsName(pkt: seq<Byte>, p: nat, budget: nat) returns (hops: nat)
    requires Decode(pkt, p, budget).Some?
    ensures hops <= budget && NameAt(pkt, p, Decode(pkt, p, budget).value, hops)
    decreases budget, |pkt| - p
  {
    if pkt[p] == 0 {
      hops := 0;
    } else if pkt[p] >= 192 {
      hops := DecodeIsName(pkt, PointerTarget(pkt, p), budget - 1);
      hops := hops + 1;
    } else {
      hops := DecodeIsName(pkt, p + 1 + pkt[p], budget);
      var rest := Decode(pkt, p + 1 + pkt[p], budget).value;
      assert ([pkt[p + 1..p + 1 + pkt[p]]] + rest)[1..] == rest;
    }
  }

  /** A name behind more pointers than the budget is not decoded. */
  lemma {:induction false} TooManyPointers(pkt: seq<Byte>, p: nat, labels: seq<Label>, hops: nat, budget: nat)
    requires NameAt(pkt, p, labels, hops) && hops > budget
    ensures Decode(pkt, p, budget).None?
    decreases hops, |labels|
  {
    if pkt[p] < 64 {
      TooManyPointers(pkt, p + 1 + pkt[p], labels[1..], hops, budget);
    } else if budget > 0 {
      TooManyPointers(pkt, PointerTarget(pkt, p), labels, hops - 1, budget - 1);
    }
  }

  /** A name behind more than 50 pointers is not well formed, although each of them leads into the message. */
  lemma PointersAreLimited(pkt: seq<Byte>, p: nat, labels: seq<Label>, hops: nat)
    requires NameAt(pkt, p, labels, hops) && (hops > 50 || hops > |pkt|)
    ensures !WellFormedName(pkt, p)
  {
    hide NameAt, Decode;
    TooManyPointers(pkt, p, labels, hops, MaxHops(pkt));
    WellFormedIffDecodes(pkt, p);
  }

  /** Decode finds exactly the names that the definition allows, and their only labels. */
  lemma WellFormedIffDecodes(pkt: seq<Byte>, p: nat)
    ensures Decode(pkt, p, MaxHops(pkt)).Some? <==> WellFormedName(pkt, p)
    ensures forall labels: seq<Label>, hops: nat | hops <= MaxHops(pkt) && NameAt(pkt, p, labels, hops)
              :: Decode(pkt, p, MaxHops(pkt)) == Some(labels)
  {
    forall labels: seq<Label>, hops: nat | hops <= MaxHops(pkt) && NameAt(pkt, p, labels, hops)
      ensures Decode(pkt, p, MaxHops(pkt)) == Some(labels)
    {
      NameAtDecodes(pkt, p, labels, hops, MaxHops(pkt));
    }
    if Decode(pkt, p, MaxHops(pkt)).Some? {
      var hops := DecodeIsName(pkt, p, MaxHops(pkt));
    }
  }

  // ----- the text of a name ----------------------------------------------------------------------

  /** A label with dots and backslashes escaped. */
  function Escaped(lab: Label): seq<Byte> {
    if lab == [] then []
    else if lab[0] == DOT || lab[0] == BACKSLASH then [BACKSLASH, lab[0]] + Escaped(lab[1..])
    else [lab[0]] + Escaped(lab[1..])
  }

  /** Every label followed by a dot. */
  function Dotted(labels: seq<Label>): seq<Byte> {
    if labels == [] then [] else Escaped(labels[0]) + [DOT] + Dotted(labels[1..])
  }

  /** The labels separated by dots. */
  function Text(labels: seq<Label>): (r: seq<Byte>) {
    if labels == [] then []
    else if |labels| == 1 then Escaped(labels[0])
    else Escaped(labels[0]) + [DOT] + Text(labels[1..])
  }

  /** The labels "a.b", "\\" and "c" as text: a.b has its dot escaped, and the backslash itself is. */
  lemma TextExample()
    ensures Text([[97, 46, 98], [92], [99]]) == [97, 92, 46, 98, 46, 92, 92, 46, 99]
  {
    var abc: seq<Label> := [[97, 46, 98], [92], [99]];
    assert abc[1..] == [[92], [99]] && abc[1..][1..] == [[99]];
    var ab: Label, bs: Label, c: Label := [97, 46, 98], [92], [99];
    assert ab[1..] == [46, 98] && ab[1..][1..] == [98] && ab[1..][1..][1..] == [];
    assert bs[1..] == [] && c[1..] == [];
    assert Escaped(ab[1..][1..]) == [98] && Escaped(ab[1..]) == [92, 46, 98];
    assert Escaped(ab) == [97, 92, 46, 98] && Escaped(bs) == [92, 92] && Escaped(c) == [99];
    assert Text(abc[1..]) == [92, 92, 46, 99];
  }

  lemma {:induction false} DottedIsTextAndDot(labels: seq<Label>)
    requires labels != []
    ensures Dotted(labels) == Text(labels) + [DOT]
  {
    if |labels| > 1 {
      DottedIsTextAndDot(labels[1..]);
    } else {
      assert Dotted(labels[1..]) == [];
    }
  }

  lemma {:induction false} EscapedAppend(a: Label, c: Byte)
    ensures Escaped(a + [c]) == Escaped(a) + if c == DOT || c == BACKSLASH then [BACKSLASH, c] else [c]
  {
    if a != [] {
      EscapedAppend(a[1..], c);
      assert (a + [c])[1..] == a[1..] + [c];
    }
  }

  lemma EscapedPrefix(a: Label, i: nat)
    requires i < |a|
    ensures Escaped(a[..i + 1])
         == Escaped(a[..i]) + if a[i] == DOT || a[i] == BACKSLASH then [BACKSLASH, a[i]] else [a[i]]
  {
    EscapedAppend(a[..i], a[i]);
    assert a[..i + 1] == a[..i] + [a[i]];
  }

  lemma {:induction false} DottedAppend(labels: seq<Label>, l: Label)
    ensures Dotted(labels + [l]) == Dotted(labels) + Escaped(l) + [DOT]
  {
    hide Dotted, Escaped;
    if labels == [] {
      DottedStep([l]);
      NothingDotted();
      assert [l][1..] == [] && [] + [l] == [l];
      assert Escaped(l) + [DOT] + [] == [] + Escaped(l) + [DOT];
    } else {
      DottedAppend(labels[1..], l);
      DottedStep(labels);
      DottedStep(labels + [l]);
      assert (labels + [l])[1..] == labels[1..] + [l];
      var front, rest := Escaped(labels[0]) + [DOT], Dotted(labels[1..]);
      Seqs.Assoc(front, rest, Escaped(l));
      Seqs.Assoc(front, rest + Escaped(l), [DOT]);
    }
  }

  lemma NothingDotted()
    ensures Dotted([]) == []
  {}

  lemma DottedStep(labels: seq<Label>)
    requires labels != []
    ensures Dotted(labels) == Escaped(labels[0]) + [DOT] + Dotted(labels[1..])
  {
    hide Escaped;
  }

  // ----- the size of an encoded name in its place ------------------------------------------------

  /** The octets that the name occupies at p: up to the root label or through the first pointer. */
  function SizeInPlace(pkt: seq<Byte>, p: nat): nat
    decreases |pkt| - p
  {
    if p >= |pkt| || pkt[p] == 0 then 1
    else if pkt[p] >= 64 then 2
    else 1 + pkt[p] + SizeInPlace(pkt, p + 1 + pkt[p])
  }

  // ----- the first pass --------------------------------------------------------------------------

  /** labels were read before p, and what the name at start decodes to is them and what follows at p. */
  ghost predicate ReadSoFar(pkt: seq<Byte>, start: nat, labels: seq<Label>, p: nat, budget: nat) {
    Decode(pkt, start, MaxHops(pkt)) ==
      match Decode(pkt, p, budget)
      case None => None
      case Some(rest) => Some(labels + rest)
  }

  lemma ReadLabel(pkt: seq<Byte>, start: nat, labels: seq<Label>, p: nat, budget: nat)
    requires p < |pkt| && 1 <= pkt[p] < 64 && p + pkt[p] + 1 < |pkt|
    requires ReadSoFar(pkt, start, labels, p, budget)
    ensures ReadSoFar(pkt, start, labels + [pkt[p + 1..p + 1 + pkt[p]]], p + 1 + pkt[p], budget)
  {
    var l := pkt[p + 1..p + 1 + pkt[p]];
    var rest := Decode(pkt, p + 1 + pkt[p], budget);
    if rest.Some? {
      assert labels + ([l] + rest.value) == (labels + [l]) + rest.value;
    }
  }

  /** The length of the expansion of the name at encoded, or -1 when it is not well formed. */
  method NameLength(encoded: nat, pkt: seq<Byte>) returns (r: int)
    ensures r >= 0 <==> Decode(pkt, encoded, MaxHops(pkt)).Some?
    ensures r >= 0 ==> r == |Text(Decode(pkt, encoded, MaxHops(pkt)).value)|
    ensures r < 0 ==> r == -1
  {
    hide Escaped;
    if encoded >= |pkt| {
      return -1;
    }
    var p := encoded;
    var length, nindir := 0, 0;
    ghost var labels: seq<Label> := [];
    assert ReadSoFar(pkt, encoded, labels, p, MaxHops(pkt)) by {
      var d := Decode(pkt, encoded, MaxHops(pkt));
      if d.Some? {
        assert [] + d.value == d.value;
      }
    }
    while pkt[p] != 0
      invariant 0 <= p < |pkt| && 0 <= nindir <= MaxHops(pkt)
      invariant ReadSoFar(pkt, encoded, labels, p, MaxHops(pkt) - nindir)
      invariant length == |Dotted(labels)|
      decreases MaxHops(pkt) - nindir, |pkt| - p
    {
      if pkt[p] >= 192 {
        if p + 1 >= |pkt| {
          return -1;
        }
        var offset := PointerTarget(pkt, p);
        if offset >= |pkt| {
          return -1;
        }
        nindir := nindir + 1;
        if nindir > |pkt| || nindir > 50 {
          return -1;
        }
        p := offset;
      } else if pkt[p] < 64 {
        var offset := pkt[p];
        if p + offset + 1 >= |pkt| {
          return -1;
        }
        ghost var q, lab := p, pkt[p + 1..p + 1 + offset];
        p := p + 1;
        EscapedNone(lab);
        while offset > 0
          invariant 0 <= offset <= |lab| && p == q + 1 + |lab| - offset
          invariant length == |Dotted(labels)| + |Escaped(lab[..|lab| - offset])|
        {
          EscapedPrefix(lab, |lab| - offset);
          length := length + if pkt[p] == DOT || pkt[p] == BACKSLASH then 2 else 1;
          offset := offset - 1;
          p := p + 1;
        }
        assert lab[..|lab|] == lab;
        length := length + 1;
        DottedAppend(labels, lab);
        ReadLabel(pkt, encoded, labels, q, MaxHops(pkt) - nindir);
        labels := labels + [lab];
      } else {
        return -1;
      }
    }
    assert Decode(pkt, encoded, MaxHops(pkt)) == Some(labels) by {
      assert labels + [] == labels;
    }
    if labels != [] {
      DottedIsTextAndDot(labels);
    }
    r := if length != 0 then length - 1 else length;
  }

  // ----- the second pass -------------------------------------------------------------------------

  /** What a well-formed name looks like where it continues at p. */
  lemma DecodeStep(pkt: seq<Byte>, start: nat, labels: seq<Label>, p: nat, budget: nat)
    requires Decode(pkt, p, budget).Some? && ReadSoFar(pkt, start, labels, p, budget)
    ensures p < |pkt|
    ensures pkt[p] == 0 ==> Decode(pkt, start, MaxHops(pkt)) == Some(labels)
    ensures pkt[p] >= 192 ==>
      && p + 1 < |pkt| && budget > 0
      && Decode(pkt, PointerTarget(pkt, p), budget - 1).Some?
      && ReadSoFar(pkt, start, labels, PointerTarget(pkt, p), budget - 1)
    ensures 0 < pkt[p] < 192 ==>
      && pkt[p] < 64 && p + 1 + pkt[p] < |pkt|
      && var lab := pkt[p + 1..p + 1 + pkt[p]];
      && Decode(pkt, p + 1 + pkt[p], budget).Some?
      && ReadSoFar(pkt, start, labels + [lab], p + 1 + pkt[p], budget)
      && Dotted(labels + [lab]) == Dotted(labels) + Escaped(lab) + [DOT]
  {
    if pkt[p] == 0 {
      assert labels + [] == labels;
    } else if pkt[p] < 64 {
      ReadLabel(pkt, start, labels, p, budget);
      DottedAppend(labels, pkt[p + 1..p + 1 + pkt[p]]);
    }
  }

  lemma SizeStep(pkt: seq<Byte>, p: nat)
    requires p < |pkt|
    ensures SizeInPlace(pkt, p)
         == if pkt[p] == 0 then 1 else if pkt[p] >= 64 then 2 else 1 + pkt[p] + SizeInPlace(pkt, p + 1 + pkt[p])
  {}

  lemma StartReading(pkt: seq<Byte>, start: nat)
    ensures ReadSoFar(pkt, start, [], start, MaxHops(pkt)) && Dotted([]) == []
  {
    var d := Decode(pkt, start, MaxHops(pkt));
    if d.Some? {
      assert [] + d.value == d.value;
    }
  }

  /** The root has an empty text and sits at the end of its pointers; any other name has a text. */
  lemma RootOrNot(pkt: seq<Byte>, p: nat, budget: nat)
    requires Decode(pkt, p, budget).Some?
    ensures var labels := Decode(pkt, p, budget).value;
            && (|Text(labels)| == 0 <==> labels == [])
            && (labels == [] ==> pkt[p] == 0 || pkt[p] >= 192)
            && (labels != [] ==> Dotted(labels) == Text(labels) + [DOT])
  {
    LabelsNonEmpty(pkt, p, budget);
    var labels := Decode(pkt, p, budget).value;
    if labels != [] {
      DottedIsTextAndDot(labels);
    }
  }

  lemma EscapedNone(lab: Label)
    ensures Escaped(lab[..0]) == [] && lab[..|lab|] == lab
  {}

  /** Expands the name at encoded.  It succeeds exactly on the well-formed names and gives their
      text, of the length that the first pass predicted, and their size in place. */
  method ExpandName(encoded: nat, pkt: seq<Byte>) returns (ok: bool, name: seq<Byte>, encLen: nat)
    ensures ok <==> WellFormedName(pkt, encoded)
    ensures ok <==> Decode(pkt, encoded, MaxHops(pkt)).Some?
    ensures ok ==> name == Text(Decode(pkt, encoded, MaxHops(pkt)).value)
    ensures ok ==> encLen == SizeInPlace(pkt, encoded)
  {
    hide Decode, Dotted, Escaped, Text, SizeInPlace, ReadSoFar, WellFormedName, PointerTarget;
    WellFormedIffDecodes(pkt, encoded);
    name, encLen := [], 0;
    var indir := false;
    var nlen := NameLength(encoded, pkt);
    if nlen < 0 {
      return false, name, encLen;
    }
    ghost var all := Decode(pkt, encoded, MaxHops(pkt)).value;
    StartReading(pkt, encoded);
    DecodeStep(pkt, encoded, [], encoded, MaxHops(pkt));
    RootOrNot(pkt, encoded, MaxHops(pkt));
    SizeStep(pkt, encoded);
    if nlen == 0 {
      encLen := if pkt[encoded] >= 192 then 2 else 1;
      return true, name, encLen;
    }
    var p := encoded;
    ghost var labels: seq<Label>, hops: nat := [], 0;
    while pkt[p] != 0
      invariant 0 <= p < |pkt| && hops <= MaxHops(pkt)
      invariant Decode(pkt, p, MaxHops(pkt) - hops).Some?
      invariant ReadSoFar(pkt, encoded, labels, p, MaxHops(pkt) - hops)
      invariant name == Dotted(labels)
      invariant indir ==> encLen == SizeInPlace(pkt, encoded)
      invariant !indir ==> encoded <= p && SizeInPlace(pkt, encoded) == p - encoded + SizeInPlace(pkt, p)
      decreases MaxHops(pkt) - hops, |pkt| - p
    {
      DecodeStep(pkt, encoded, labels, p, MaxHops(pkt) - hops);
      SizeStep(pkt, p);
      if pkt[p] >= 192 {
        if !indir {
          encLen := p + 2 - encoded;
          indir := true;
        }
        p := PointerTarget(pkt, p);
        hops := hops + 1;
        DecodeStep(pkt, encoded, labels, p, MaxHops(pkt) - hops);
      } else {
        var len := pkt[p];
        ghost var q, lab := p, pkt[p + 1..p + 1 + len];
        p := p + 1;
        EscapedNone(lab);
        while len > 0
          invariant 0 <= len <= |lab| && p == q + 1 + |lab| - len
          invariant name == Dotted(labels) + Escaped(lab[..|lab| - len])
        {
          EscapedPrefix(lab, |lab| - len);
          if pkt[p] == DOT || pkt[p] == BACKSLASH {
            name := name + [BACKSLASH];
          }
          name := name + [pkt[p]];
          len := len - 1;
          p := p + 1;
        }
        name := name + [DOT];
        labels := labels + [lab];
      }
    }
    if !indir {
      SizeStep(pkt, p);
      encLen := p + 1 - encoded;
    }
    DecodeStep(pkt, encoded, labels, p, MaxHops(pkt) - hops);
    if |name| > 0 && name[|name| - 1] == DOT {
      name := name[..|name| - 1];
    }
    ok := true;
  }

  lemma {:induction false} LabelsNonEmpty(pkt: seq<Byte>, p: nat, budget: nat)
    requires Decode(pkt, p, budget).Some?
    ensures forall l | l in Decode(pkt, p, budget).value :: 1 <= |l| <= 63
    decreases budget, |pkt| - p
  {
    if pkt[p] == 0 {
    } else if pkt[p] >= 192 {
      LabelsNonEmpty(pkt, PointerTarget(pkt, p), budget - 1);
    } else {
      LabelsNonEmpty(pkt, p + 1 + pkt[p], budget);
    }
  }
}
