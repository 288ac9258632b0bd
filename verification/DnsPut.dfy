/** Writing a textual name in wire form, and the question message built around it. */
module DnsPut {
  import opened Options
  import opened DnsName
  import opened Seqs

  // ----- the labels that a text denotes ----------------------------------------------------------

  /** A C string ends at its first NUL octet. */
  ghost predicate CString(t: seq<Byte>) {
    forall i | 0 <= i < |t| :: t[i] != 0
  }

  /** The label at the front of t and how far it reaches: an unescaped dot or the end. */
  function FrontLabel(t: seq<Byte>): (r: (Label, nat))
    ensures r.1 <= |t| && |r.0| <= r.1
    ensures r.1 < |t| ==> t[r.1] == DOT
    ensures t != [] && t[0] != DOT ==> |r.0| > 0
  {
    if t == [] || t[0] == DOT then ([], 0)
    else if t[0] == BACKSLASH && |t| > 1 then
      var (l, n) := FrontLabel(t[2..]);
      ([t[1]] + l, n + 2)
    else
      var (l, n) := FrontLabel(t[1..]);
      ([t[0]] + l, n + 1)
  }

  /** The labels of a text; none for a text with an empty label. */
  function Labels(t: seq<Byte>): Option<seq<Label>>
    decreases |t|
  {
    if t == [] then Some([])
    else if t[0] == DOT then None
    else
      var (l, n) := FrontLabel(t);
      if n == |t| then Some([l])
      else
        match Labels(t[n + 1..])
        case None => None
        case Some(rest) => Some([l] + rest)
  }

  /** The text as the encoder reads it: a lone dot is the root. */
  function Effective(t: seq<Byte>): seq<Byte> {
    if t == [DOT] then [] else t
  }

  // ----- the wire form ---------------------------------------------------------------------------

  function WireLabels(labels: seq<Label>): seq<Byte> {
    if labels == [] then []
    else [(|labels[0]| % 256) as Byte] + labels[0] + WireLabels(labels[1..])
  }

  /** Length-prefixed labels and the root label: section 3.1 of RFC 1035. */
  function Wire(labels: seq<Label>): (r: seq<Byte>)
    ensures |r| >= 1
  {
    WireLabels(labels) + [0]
  }

  /** The size limits of section 2.3.4 of RFC 1035. */
  ghost predicate WithinLimits(labels: seq<Label>) {
    && (forall l | l in labels :: 1 <= |l| <= 63)
    && |Wire(labels)| <= 255
  }

  lemma {:induction false} WireLabelsAppend(labels: seq<Label>, l: Label)
    ensures WireLabels(labels + [l]) == WireLabels(labels) + [(|l| % 256) as Byte] + l
  {
    hide WireLabels;
    NoWireLabels();
    if labels == [] {
      assert [] + [l] == [l] && [l][1..] == [];
      WireLabelsStep([l]);
      var w: seq<Byte> := [|l| % 256] + l;
      assert w + [] == w && [] + [(|l| % 256) as Byte] + l == w;
    } else {
      WireLabelsAppend(labels[1..], l);
      WireLabelsStep(labels);
      WireLabelsStep(labels + [l]);
      assert (labels + [l])[1..] == labels[1..] + [l];
      var front: seq<Byte>, rest := [|labels[0]| % 256] + labels[0], WireLabels(labels[1..]);
      Assoc(front, rest, [(|l| % 256) as Byte]);
      Assoc(front, rest + [(|l| % 256) as Byte], l);
    }
  }

  lemma NoWireLabels()
    ensures WireLabels([]) == []
  {}

  lemma WireLabelsStep(labels: seq<Label>)
    requires labels != []
    ensures WireLabels(labels) == [(|labels[0]| % 256) as Byte] + labels[0] + WireLabels(labels[1..])
  {}

  lemma {:induction false} LabelInWire(labels: seq<Label>, l: Label)
    requires l in labels
    ensures |l| < |WireLabels(labels)|
  {
    if labels[0] != l {
      LabelInWire(labels[1..], l);
    }
  }

  // ----- name_put --------------------------------------------------------------------------------

  /** How many octets of the text a character takes: an escape takes two. */
  function CharSize(t: seq<Byte>): (n: nat)
    requires t != []
    ensures 1 <= n <= |t|
  {
    if t[0] == BACKSLASH && |t| > 1 then 2 else 1
  }

  lemma FrontLabelStep(t: seq<Byte>)
    requires t != [] && t[0] != DOT
    ensures var n := CharSize(t);
            var (l, m) := FrontLabel(t[n..]);
            FrontLabel(t) == ([t[n - 1]] + l, n + m)
  {}

  /** The labels of the whole text are those already written and those of what is left. */
  ghost predicate PutSoFar(whole: seq<Byte>, done: seq<Label>, left: seq<Byte>) {
    Labels(whole) ==
      match Labels(left)
      case None => None
      case Some(rest) => Some(done + rest)
  }

  lemma PutStep(whole: seq<Byte>, done: seq<Label>, left: seq<Byte>)
    requires PutSoFar(whole, done, left) && left != [] && left[0] != DOT
    ensures var (l, n) := FrontLabel(left);
            && 1 <= |l| <= n <= |left|
            && (Labels(whole).Some? ==> l in Labels(whole).value)
            && PutSoFar(whole, done + [l], if n == |left| then [] else left[n + 1..])
  {
    hide FrontLabel, Labels, CharSize;
    var (l, n) := FrontLabel(left);
    var next := if n == |left| then [] else left[n + 1..];
    LabelsStep(left);
    if Labels(next).Some? {
      Regroup(done, l, Labels(next).value);
    }
  }

  lemma LabelsStep(t: seq<Byte>)
    requires t != [] && t[0] != DOT
    ensures var (l, n) := FrontLabel(t);
            Labels(t) == match Labels(if n == |t| then [] else t[n + 1..])
                         case None => None
                         case Some(rest) => Some([l] + rest)
  {
    var (l, n) := FrontLabel(t);
    assert [l] + [] == [l];
  }

  lemma Regroup(a: seq<Label>, l: Label, b: seq<Label>)
    ensures a + ([l] + b) == (a + [l]) + b && l in a + ([l] + b)
  {
    assert (a + ([l] + b))[|a|] == l;
  }

  /** The part of the front label that lies before position p. */
  ghost predicate CountedSoFar(t: seq<Byte>, counted: Label, p: nat) {
    && p <= |t|
    && FrontLabel(t) == (counted + FrontLabel(t[p..]).0, p + FrontLabel(t[p..]).1)
  }

  lemma CountStep(t: seq<Byte>, counted: Label, p: nat)
    requires CountedSoFar(t, counted, p)
    ensures p <= |t| && (p == |t| || t[p] == DOT ==> FrontLabel(t) == (counted, p))
    ensures p < |t| && t[p] != DOT ==>
      var n := if t[p] == BACKSLASH && p + 1 < |t| then 2 else 1;
      p + n <= FrontLabel(t).1 <= |t| && CountedSoFar(t, counted + [t[p + n - 1]], p + n)
  {
    hide FrontLabel;
    if p == |t| || t[p] == DOT {
      FrontLabelEnd(t[p..]);
      assert counted + [] == counted;
    } else {
      FrontLabelStep(t[p..]);
      CountMore(t, counted, p, CharSize(t[p..]));
    }
  }

  lemma CountMore(t: seq<Byte>, counted: Label, p: nat, n: nat)
    requires CountedSoFar(t, counted, p) && 0 < n <= |t| - p
    requires FrontLabel(t[p..]) == ([t[p..][n - 1]] + FrontLabel(t[p..][n..]).0, n + FrontLabel(t[p..][n..]).1)
    ensures CountedSoFar(t, counted + [t[p + n - 1]], p + n)
  {
    hide FrontLabel;
    assert t[p..][n..] == t[p + n..] && t[p..][n - 1] == t[p + n - 1];
    var rest := FrontLabel(t[p + n..]).0;
    assert counted + ([t[p + n - 1]] + rest) == (counted + [t[p + n - 1]]) + rest;
  }

  lemma FrontLabelEnd(t: seq<Byte>)
    requires t == [] || t[0] == DOT
    ensures FrontLabel(t) == ([], 0)
  {}

  lemma CountStart(t: seq<Byte>)
    ensures CountedSoFar(t, [], 0) && FrontLabel(t).1 <= |t|
  {
    assert t[0..] == t;
    assert [] + FrontLabel(t).0 == FrontLabel(t).0;
  }

  /** What the final size check makes of labels whose lengths were checked modulo 256 only. */
  lemma LimitsFromWrapped(labels: seq<Label>)
    requires PassedWrapped(labels)
    ensures WithinLimits(labels) <==> |Wire(labels)| <= 255
  {
    if |Wire(labels)| <= 255 {
      forall l | l in labels
        ensures 1 <= |l| <= 63
      {
        LabelInWire(labels, l);
      }
    }
  }

  /** The length of the front label in an 8-bit counter. */
  method CountLabel(name: seq<Byte>) returns (len: Byte)
    ensures len == |FrontLabel(name).0| % 256
  {
    hide FrontLabel, CountedSoFar;
    len := 0;
    var p := 0;
    ghost var counted: Label := [];
    CountStart(name);
    while p < |name| && name[p] != DOT
      invariant p <= |name| && CountedSoFar(name, counted, p) && len == |counted| % 256
      decreases |name| - p
    {
      CountStep(name, counted, p);
      if name[p] == BACKSLASH && p + 1 < |name| {
        p := p + 1;
      }
      len := (len + 1) % 256;
      counted := counted + [name[p]];
      p := p + 1;
    }
    CountStep(name, counted, p);
  }

  /** Writes the length octet and the front label, without the escapes, at start. */
  method PutLabel(bfr: array<Byte>, start: nat, len: Byte, name: seq<Byte>) returns (p: nat, q: nat)
    requires start + 1 + FrontLabel(name).1 <= bfr.Length
    modifies bfr
    ensures var (l, n) := FrontLabel(name);
            && p == n && q == start + 1 + |l|
            && bfr[..q] == old(bfr[..start]) + [len] + l && bfr[q..] == old(bfr[q..])
  {
    hide FrontLabel, CountedSoFar;
    p, q := 0, start;
    ghost var l: Label := [];
    CountStart(name);
    bfr[q] := len;
    q := q + 1;
    while p < |name| && name[p] != DOT
      invariant p <= FrontLabel(name).1 <= |name| && CountedSoFar(name, l, p) && |l| <= p && q == start + 1 + |l|
      invariant bfr[..q] == old(bfr[..start]) + [len] + l
      invariant forall i | q <= i < bfr.Length :: bfr[i] == old(bfr[i])
      decreases |name| - p
    {
      CountStep(name, l, p);
      if name[p] == BACKSLASH && p + 1 < |name| {
        p := p + 1;
      }
      bfr[q] := name[p];
      l := l + [name[p]];
      q := q + 1;
      p := p + 1;
    }
    CountStep(name, l, p);
  }

  /** Encodes the text into the buffer at start.  It succeeds exactly when the text denotes labels
      within the size limits, although the label counter is 8 bits wide and wraps; it never writes
      outside the |text| + 2 octets at start. */
  method NamePut(bfr: array<Byte>, start: nat, text: seq<Byte>) returns (r: int)
    requires CString(text) && start + |text| + 2 <= bfr.Length
    modifies bfr
    ensures bfr[..start] == old(bfr[..start])
    ensures bfr[start + |text| + 2..] == old(bfr[start + |text| + 2..])
    ensures r >= 0 <==> Labels(Effective(text)).Some? && WithinLimits(Labels(Effective(text)).value)
    ensures r >= 0 ==> var wire := Wire(Labels(Effective(text)).value);
              r == |wire| && r <= |text| + 2 && bfr[..start + r] == old(bfr[..start]) + wire
    ensures r < 0 ==> r == -1
  {
    hide FrontLabel, Labels, WireLabels, PutSoFar, WithinLimits, Wire, CString, Putting, PassedWrapped, Effective;
    var name := Effective(text);
    var q := start;
    ghost var whole := name;
    ghost var end, done: seq<Label>, was := start + |text| + 2, [], bfr[..];
    PutStart(name);
    NoneWrapped();
    EffectiveSize(text);
    PuttingStart(was, start, end);
    while name != []
      invariant start <= q && q + |name| + (if name == [] then 1 else 2) <= end
      invariant Putting(bfr[..], was, start, q, end, done)
      invariant PutSoFar(whole, done, name)
      invariant PassedWrapped(done)
      decreases |name|
    {
      PuttingKeeps(bfr[..], was, start, q, end, done);
      ghost var front, before, from := FrontLabel(name), bfr[..], q;
      if name[0] == DOT {
        EmptyLabel(whole, done, name);
      } else {
        PutStep(whole, done, name);
      }
      var ok, rest;
      ok, q, rest := PutFront(bfr, q, name);
      if !ok {
        if name[0] != DOT {
          LabelTooLong(whole, front.0);
        }
        return -1;
      }
      PuttingStep(before, bfr[..], was, start, from, q, end, done, |front.0| % 256, front.0);
      OneMoreWrapped(done, front.0);
      done := done + [front.0];
      name := rest;
    }
    PutEnd(whole, done);
    LimitsFromWrapped(done);
    ghost var before := bfr[..];
    r := PutRoot(bfr, start, q);
    PuttingEnd(before, bfr[..], was, start, q, end, done);
  }

  /** All these labels have passed the check of the wrapped counter. */
  ghost predicate PassedWrapped(labels: seq<Label>) {
    forall l | l in labels :: |l| >= 1 && |l| % 256 <= 63
  }

  lemma NoneWrapped()
    ensures PassedWrapped([])
  {}

  lemma OneMoreWrapped(labels: seq<Label>, l: Label)
    requires PassedWrapped(labels) && |l| >= 1 && |l| % 256 <= 63
    ensures PassedWrapped(labels + [l])
  {}

  lemma EffectiveSize(text: seq<Byte>)
    ensures |Effective(text)| <= |text|
  {}

  /** The buffer while the labels are written: nothing before start and nothing from end on changes. */
  ghost predicate Putting(now: seq<Byte>, was: seq<Byte>, start: nat, q: nat, end: nat, done: seq<Label>) {
    && |now| == |was| && start <= q <= end <= |now|
    && now[..q] == was[..start] + WireLabels(done) && now[end..] == was[end..]
  }

  lemma PuttingStart(was: seq<Byte>, start: nat, end: nat)
    requires start <= end <= |was|
    ensures Putting(was, was, start, start, end, [])
  {}

  lemma PuttingKeeps(now: seq<Byte>, was: seq<Byte>, start: nat, q: nat, end: nat, done: seq<Label>)
    requires Putting(now, was, start, q, end, done)
    ensures |now| == |was| && now[..start] == was[..start] && now[end..] == was[end..]
  {
    hide WireLabels;
    KeptPrefix(now, was[..start], WireLabels(done), q);
  }

  lemma PuttingStep(before: seq<Byte>, now: seq<Byte>, was: seq<Byte>, start: nat, from: nat, q: nat, end: nat,
                    done: seq<Label>, len: Byte, l: Label)
    requires Putting(before, was, start, from, end, done) && |now| == |before| && q <= end && q == from + 1 + |l|
    requires now[..q] == before[..from] + [len] + l && now[q..] == before[q..] && len == |l| % 256
    ensures Putting(now, was, start, q, end, done + [l])
  {
    hide WireLabels;
    WireLabelsAppend(done, l);
    Associate(was[..start], WireLabels(done), [len], l);
    KeptSuffix(now, before, q, end);
  }

  lemma PuttingEnd(before: seq<Byte>, now: seq<Byte>, was: seq<Byte>, start: nat, q: nat, end: nat, done: seq<Label>)
    requires Putting(before, was, start, q, end, done) && |now| == |before| && q < end
    requires now[..q + 1] == before[..q] + [0] && now[q + 1..] == before[q + 1..]
    ensures now[..q + 1] == was[..start] + (WireLabels(done) + [0])
    ensures q + 1 == start + |WireLabels(done) + [0]|
    ensures now[..start] == was[..start] && now[end..] == was[end..]
  {
    hide WireLabels;
    Associate(was[..start], WireLabels(done), [0], []);
    KeptPrefix(now, was[..start], WireLabels(done) + [0], q + 1);
    KeptSuffix(now, before, q + 1, end);
  }

  /** The label in front of a text, when it is neither empty nor counted as too long. */
  method PutFront(bfr: array<Byte>, start: nat, name: seq<Byte>) returns (ok: bool, q: nat, rest: seq<Byte>)
    requires name != [] && FrontLabel(name).1 <= |name|
    requires start + 1 + FrontLabel(name).1 <= bfr.Length
    modifies bfr
    ensures var (l, n) := FrontLabel(name);
            && (ok <==> name[0] != DOT && |l| % 256 <= 63)
            && (!ok ==> bfr[..] == old(bfr[..]))
            && (ok ==> q == start + 1 + |l| <= bfr.Length && rest == if n == |name| then [] else name[n + 1..])
            && (ok ==> bfr[..q] == old(bfr[..start]) + [(|l| % 256) as Byte] + l && bfr[q..] == old(bfr[q..]))
  {
    hide FrontLabel;
    q, rest := start, name;
    if name[0] == DOT {
      return false, q, rest;
    }
    var len := CountLabel(name);
    if len > 63 {
      return false, q, rest;
    }
    var p;
    p, q := PutLabel(bfr, start, len, name);
    rest := if p == |name| then [] else name[p + 1..];
    ok := true;
  }

  /** The root label ends a name, which must not be too long. */
  method PutRoot(bfr: array<Byte>, start: nat, q: nat) returns (r: int)
    requires start <= q < bfr.Length
    modifies bfr
    ensures bfr[..q + 1] == old(bfr[..q]) + [0] && bfr[q + 1..] == old(bfr[q + 1..])
    ensures r == if q + 1 - start > 255 then -1 else q + 1 - start
  {
    bfr[q] := 0;
    var sz := q + 1 - start;
    if sz > 255 {
      return -1;
    }
    return sz;
  }

  lemma KeptPrefix(s: seq<Byte>, a: seq<Byte>, b: seq<Byte>, q: nat)
    requires q <= |s| && s[..q] == a + b
    ensures s[..|a|] == a
  {
    assert s[..|a|] == s[..q][..|a|];
  }

  lemma KeptSuffix(s: seq<Byte>, t: seq<Byte>, q: nat, end: nat)
    requires q <= end <= |s| == |t| && s[q..] == t[q..]
    ensures s[end..] == t[end..]
  {
    assert s[end..] == s[q..][end - q..];
    assert t[end..] == t[q..][end - q..];
  }

  lemma Associate(a: seq<Byte>, b: seq<Byte>, c: seq<Byte>, d: seq<Byte>)
    ensures a + b + c + d == a + (b + c + d)
    ensures d == [] ==> a + b + c == a + (b + c)
  {
    assert a + b + c == a + (b + c);
  }

  lemma LabelTooLong(whole: seq<Byte>, l: Label)
    requires |l| % 256 > 63 && (Labels(whole).Some? ==> l in Labels(whole).value)
    ensures !(Labels(whole).Some? && WithinLimits(Labels(whole).value))
  {}

  lemma PutStart(t: seq<Byte>)
    ensures PutSoFar(t, [], t) && WireLabels([]) == []
  {
    if Labels(t).Some? {
      assert [] + Labels(t).value == Labels(t).value;
    }
  }

  lemma PutEnd(whole: seq<Byte>, done: seq<Label>)
    requires PutSoFar(whole, done, [])
    ensures Labels(whole) == Some(done) && Wire(done) == WireLabels(done) + [0]
  {
    assert done + [] == done;
  }

  lemma EmptyLabel(whole: seq<Byte>, done: seq<Label>, left: seq<Byte>)
    requires PutSoFar(whole, done, left) && left != [] && left[0] == DOT
    ensures Labels(whole).None?
  {}

  // ----- encoding and expanding undo each other --------------------------------------------------

  /** Reading an escaped label gives the label back. */
  lemma {:induction false} FrontOfEscaped(l: Label, rest: seq<Byte>)
    requires rest == [] || rest[0] == DOT
    ensures FrontLabel(Escaped(l) + rest) == (l, |Escaped(l)|)
  {
    var t := Escaped(l) + rest;
    if l == [] {
      assert t == rest;
      FrontLabelEnd(t);
    } else {
      hide FrontLabel;
      var n := if l[0] == DOT || l[0] == BACKSLASH then 2 else 1;
      EscapedHead(l, rest);
      FrontOfEscaped(l[1..], rest);
      FrontLabelStep(t);
      assert [l[0]] + l[1..] == l;
    }
  }

  lemma EscapedHead(l: Label, rest: seq<Byte>)
    requires l != [] && (rest == [] || rest[0] == DOT)
    ensures var t, n := Escaped(l) + rest, if l[0] == DOT || l[0] == BACKSLASH then 2 else 1;
            && |t| >= n && t[0] != DOT && CharSize(t) == n && t[n - 1] == l[0]
            && t[n..] == Escaped(l[1..]) + rest && |Escaped(l)| == n + |Escaped(l[1..])|
  {
    var n := if l[0] == DOT || l[0] == BACKSLASH then 2 else 1;
    var head := Escaped(l)[..n];
    assert Escaped(l) == head + Escaped(l[1..]);
    Assoc(head, Escaped(l[1..]), rest);
  }

  lemma EscapedStart(l: Label)
    requires l != []
    ensures Escaped(l) != [] && Escaped(l)[0] != DOT
  {}

  /** The text of labels denotes these labels. */
  lemma {:induction false} LabelsOfText(labels: seq<Label>)
    requires forall l | l in labels :: l != []
    ensures Labels(Text(labels)) == Some(labels)
    ensures Effective(Text(labels)) == Text(labels)
  {
    hide FrontLabel, Escaped, Labels;
    if labels == [] {
      NoText();
    } else {
      assert labels[0] in labels;
      assert forall l | l in labels[1..] :: l in labels;
      EscapedStart(labels[0]);
      LabelsOfText(labels[1..]);
      var e, t := Escaped(labels[0]), Text(labels);
      LabelsStep(t) by {
        assert t[0] == e[0];
      }
      assert labels == [labels[0]] + labels[1..];
      if |labels| == 1 {
        assert t == e + [] && labels[1..] == [];
        FrontOfEscaped(labels[0], []);
        NoText();
      } else {
        var rest := Text(labels[1..]);
        Assoc(e, [DOT], rest);
        FrontOfEscaped(labels[0], [DOT] + rest);
        Middle(e, [DOT], rest);
      }
    }
  }

  lemma NoText()
    ensures Labels([]) == Some([])
  {}

  /** An octet of a label as it may be written: as it is, or any octet behind a backslash. */
  datatype Spelt = Plain(octet: Byte) | Quoted(octet: Byte)

  predicate CanBeSpelt(c: Spelt) {
    c.Plain? ==> c.octet != 46 && c.octet != 92
  }

  function Spelling(cs: seq<Spelt>): seq<Byte> {
    if cs == [] then []
    else (if cs[0].Plain? then [cs[0].octet] else [92, cs[0].octet]) + Spelling(cs[1..])
  }

  function Meant(cs: seq<Spelt>): Label {
    if cs == [] then [] else [cs[0].octet] + Meant(cs[1..])
  }

  /** However the octets of a label are written, the label is these octets. */
  lemma {:induction false} FrontOfSpelling(cs: seq<Spelt>, rest: seq<Byte>)
    requires (forall c | c in cs :: CanBeSpelt(c)) && (rest == [] || rest[0] == 46)
    ensures FrontLabel(Spelling(cs) + rest) == (Meant(cs), |Spelling(cs)|)
  {
    var t := Spelling(cs) + rest;
    if cs == [] {
      assert t == rest;
      FrontLabelEnd(t);
    } else {
      hide FrontLabel;
      assert cs[0] in cs;
      assert forall c | c in cs[1..] :: c in cs;
      var head := if cs[0].Plain? then [cs[0].octet] else [92, cs[0].octet];
      Assoc(head, Spelling(cs[1..]), rest);
      FrontOfSpelling(cs[1..], rest);
      FrontLabelStep(t);
      assert t[|head|..] == Spelling(cs[1..]) + rest;
    }
  }

  function Spellings(names: seq<seq<Spelt>>): seq<Byte> {
    if names == [] then []
    else if |names| == 1 then Spelling(names[0])
    else Spelling(names[0]) + [46] + Spellings(names[1..])
  }

  function AllMeant(names: seq<seq<Spelt>>): seq<Label> {
    if names == [] then [] else [Meant(names[0])] + AllMeant(names[1..])
  }

  /** A text of labels with dots between them, and perhaps one at the end, stands for these labels. */
  lemma {:induction false} LabelsOfSpellings(names: seq<seq<Spelt>>, dot: bool)
    requires names != [] && forall cs | cs in names :: cs != [] && forall c | c in cs :: CanBeSpelt(c)
    ensures Labels(Spellings(names) + if dot then [46] else []) == Some(AllMeant(names))
  {
    hide FrontLabel, Labels, Spelling, Meant, CanBeSpelt, Spellings, AllMeant;
    var cs, tail: seq<Byte> := names[0], if dot then [46] else [];
    assert cs in names;
    SpellingsStep(names);
    NoText();
    if |names| == 1 {
      assert dot ==> tail[1..] == [];
      OneSpelling(cs, tail);
    } else {
      assert forall other | other in names[1..] :: other in names;
      LabelsOfSpellings(names[1..], dot);
      var rest := Spellings(names[1..]) + tail;
      assert Spellings(names) + tail == Spelling(cs) + ([46] + rest);
      OneSpelling(cs, [46] + rest);
      assert ([46] + rest)[1..] == rest;
    }
  }

  lemma SpellingsStep(names: seq<seq<Spelt>>)
    requires names != []
    ensures |names| == 1 ==> Spellings(names) == Spelling(names[0]) && AllMeant(names) == [Meant(names[0])] + []
    ensures |names| > 1 ==> Spellings(names) == Spelling(names[0]) + [46] + Spellings(names[1..])
    ensures |names| > 1 ==> AllMeant(names) == [Meant(names[0])] + AllMeant(names[1..])
  {
    hide Spelling, Meant;
    assert |names| == 1 ==> AllMeant(names[1..]) == [];
  }

  /** The label in front, and what stands behind its dot. */
  lemma OneSpelling(cs: seq<Spelt>, rest: seq<Byte>)
    requires cs != [] && (forall c | c in cs :: CanBeSpelt(c)) && (rest == [] || rest[0] == 46)
    ensures Labels(Spelling(cs) + rest) == match Labels(if rest == [] then [] else rest[1..])
                                           case None => None
                                           case Some(more) => Some([Meant(cs)] + more)
  {
    hide FrontLabel, Labels, Spelling, Meant, CanBeSpelt;
    var e, t := Spelling(cs), Spelling(cs) + rest;
    SpellingStart(cs);
    FrontOfSpelling(cs, rest);
    assert t[0] == e[0];
    LabelsStep(t);
    assert rest != [] ==> t[|e| + 1..] == rest[1..];
  }

  lemma SpellingStart(cs: seq<Spelt>)
    requires cs != [] && CanBeSpelt(cs[0])
    ensures Spelling(cs) != [] && Spelling(cs)[0] != 46
  {}

  /** A text with an empty label stands for none: two dots in a row, or a dot in front. */
  lemma {:induction false} EmptyLabelsHaveNone(names: seq<seq<Spelt>>, more: seq<Byte>)
    requires forall cs | cs in names :: cs != [] && forall c | c in cs :: CanBeSpelt(c)
    ensures Labels((if names == [] then [] else Spellings(names) + [46]) + [46] + more).None?
    decreases |names|
  {
    hide FrontLabel, Labels, Spelling, Meant, CanBeSpelt;
    var t := (if names == [] then [] else Spellings(names) + [46]) + [46] + more;
    if names == [] {
      assert t[0] == 46;
      DotInFront(t);
    } else {
      var cs := names[0];
      assert cs in names;
      assert forall other | other in names[1..] :: other in names;
      EmptyLabelsHaveNone(names[1..], more);
      var rest := (if names[1..] == [] then [] else Spellings(names[1..]) + [46]) + [46] + more;
      assert t == Spelling(cs) + ([46] + rest);
      OneSpelling(cs, [46] + rest);
      assert ([46] + rest)[1..] == rest;
    }
  }

  lemma DotInFront(t: seq<Byte>)
    requires t != [] && t[0] == 46
    ensures Labels(t).None?
  {}

  /** Octets in wire form are read as the name they encode, wherever they stand in a message. */
  lemma {:induction false} WireIsName(pkt: seq<Byte>, p: nat, labels: seq<Label>)
    requires forall l | l in labels :: 1 <= |l| <= 63
    requires p + |Wire(labels)| <= |pkt| && pkt[p..p + |Wire(labels)|] == Wire(labels)
    ensures NameAt(pkt, p, labels, 0) && SizeInPlace(pkt, p) == |Wire(labels)|
    decreases labels
  {
    hide Wire, NameAt, SizeInPlace;
    if labels == [] {
      RootWire();
      assert pkt[p] == pkt[p..p + 1][0];
      RootIsName(pkt, p);
    } else {
      assert labels[0] in labels;
      assert forall l | l in labels[1..] :: l in labels;
      WireSlices(pkt, p, labels);
      WireIsName(pkt, p + 1 + |labels[0]|, labels[1..]);
      LabelIsName(pkt, p, labels, 0);
    }
  }

  /** The wire form of some labels and a pointer behind them, two octets that give an offset of 14 bits:
      these labels and then those of the name at that offset. */
  lemma {:induction false} WireThenPointer(pkt: seq<Byte>, p: nat, labels: seq<Label>, o: nat,
                                           more: seq<Label>, hops: nat)
    requires forall l | l in labels :: 1 <= |l| <= 63
    requires o < 0x4000 && NameAt(pkt, o, more, hops)
    requires var n := |WireLabels(labels)|;
             && p + n + 2 <= |pkt| && pkt[p..p + n] == WireLabels(labels)
             && pkt[p + n] as int == 192 + o / 256 && pkt[p + n + 1] as int == o % 256
    ensures NameAt(pkt, p, labels + more, hops + 1) && SizeInPlace(pkt, p) == |WireLabels(labels)| + 2
    ensures hops < 50 && hops < |pkt| ==> Decode(pkt, p, MaxHops(pkt)) == Some(labels + more)
    decreases labels
  {
    hide WireLabels, NameAt, SizeInPlace, Decode;
    if labels == [] {
      NoWireLabels();
      PointerIsName(pkt, p, o, more, hops);
      PointerSize(pkt, p);
      assert [] + more == more;
    } else {
      var l, rest := labels[0], labels[1..];
      assert forall k | k in rest :: k in labels;
      assert l in labels;
      WireLabelsStep(labels);
      FrontSlices(pkt, p, l, WireLabels(rest));
      WireThenPointer(pkt, p + 1 + |l|, rest, o, more, hops);
      assert (labels + more)[0] == l && (labels + more)[1..] == rest + more;
      LabelIsName(pkt, p, labels + more, hops + 1);
    }
    if hops < 50 && hops < |pkt| {
      NameAtDecodes(pkt, p, labels + more, hops + 1, MaxHops(pkt));
    }
  }

  lemma FrontSlices(pkt: seq<Byte>, p: nat, l: Label, rest: seq<Byte>)
    requires 1 <= |l| <= 63
    requires var w := [(|l| % 256) as Byte] + l + rest; p + |w| <= |pkt| && pkt[p..p + |w|] == w
    ensures pkt[p] == |l| && pkt[p + 1..p + 1 + |l|] == l
    ensures pkt[p + 1 + |l|..p + 1 + |l| + |rest|] == rest
  {
    var w: seq<Byte> := [|l|];
    Assoc(w, l, rest);
    CutInThree(pkt, p, w, l, rest);
    assert pkt[p] == pkt[p..p + 1][0];
  }

  lemma PointerSize(pkt: seq<Byte>, p: nat)
    requires p < |pkt| && pkt[p] >= 192
    ensures SizeInPlace(pkt, p) == 2
  {}

  lemma RootIsName(pkt: seq<Byte>, p: nat)
    requires p < |pkt| && pkt[p] == 0
    ensures NameAt(pkt, p, [], 0) && SizeInPlace(pkt, p) == 1
  {}

  /** A label in front of a name is a name. */
  lemma LabelIsName(pkt: seq<Byte>, p: nat, labels: seq<Label>, hops: nat)
    requires labels != [] && 1 <= |labels[0]| <= 63 && p + 1 + |labels[0]| <= |pkt|
    requires pkt[p] == |labels[0]| && pkt[p + 1..p + 1 + |labels[0]|] == labels[0]
    requires NameAt(pkt, p + 1 + |labels[0]|, labels[1..], hops)
    ensures NameAt(pkt, p, labels, hops)
    ensures SizeInPlace(pkt, p) == 1 + |labels[0]| + SizeInPlace(pkt, p + 1 + |labels[0]|)
  {}

  lemma RootWire()
    ensures Wire([]) == [0]
  {}

  lemma WireSlices(pkt: seq<Byte>, p: nat, labels: seq<Label>)
    requires labels != [] && |labels[0]| <= 63
    requires p + |Wire(labels)| <= |pkt| && pkt[p..p + |Wire(labels)|] == Wire(labels)
    ensures var l, rest := labels[0], Wire(labels[1..]);
            && |Wire(labels)| == 1 + |l| + |rest| && pkt[p] == |l|
            && pkt[p + 1..p + 1 + |l|] == l
            && pkt[p + 1 + |l|..p + 1 + |l| + |rest|] == rest
  {
    hide Wire;
    var l, rest := labels[0], Wire(labels[1..]);
    WireCons(labels);
    CutInThree(pkt, p, [|l| as Byte], l, rest);
    assert pkt[p] == pkt[p..p + 1][0];
  }

  lemma WireCons(labels: seq<Label>)
    requires labels != [] && |labels[0]| <= 63
    ensures Wire(labels) == [|labels[0]| as Byte] + (labels[0] + Wire(labels[1..]))
  {
    var l, w := labels[0], WireLabels(labels[1..]);
    Assoc([|l| as Byte] + l, w, [0]);
    Assoc([|l| as Byte], l, w + [0]);
  }

  /** A wire form decodes to its labels, and the text that it expands to stands for the same labels. */
  lemma NamesRoundTrip(pkt: seq<Byte>, p: nat, labels: seq<Label>)
    requires WithinLimits(labels)
    requires p + |Wire(labels)| <= |pkt| && pkt[p..p + |Wire(labels)|] == Wire(labels)
    ensures Decode(pkt, p, MaxHops(pkt)) == Some(labels) && SizeInPlace(pkt, p) == |Wire(labels)|
    ensures Labels(Effective(Text(labels))) == Some(labels)
  {
    WireIsName(pkt, p, labels);
    WellFormedIffDecodes(pkt, p);
    LabelsOfText(labels);
  }

  /** Expands a name of a packet and encodes the text again: the buffer gets the wire form of the
      labels, which are the octets of the name itself where it was written in one piece. */
  method Reencode(pkt: seq<Byte>, p: nat, bfr: array<Byte>, start: nat) returns (r: int)
    requires Decode(pkt, p, MaxHops(pkt)).Some?
    requires forall l | l in Decode(pkt, p, MaxHops(pkt)).value :: CString(l)
    requires start + |Text(Decode(pkt, p, MaxHops(pkt)).value)| + 2 <= bfr.Length
    modifies bfr
    ensures var labels := Decode(pkt, p, MaxHops(pkt)).value;
            && (r >= 0 <==> WithinLimits(labels))
            && (r >= 0 ==> r == |Wire(labels)| && start + r <= bfr.Length)
            && (r >= 0 ==> bfr[..start] == old(bfr[..start]) && bfr[start..start + r] == Wire(labels))
    ensures forall labels: seq<Label> | WithinLimits(labels) && p + |Wire(labels)| <= |pkt|
              :: pkt[p..p + |Wire(labels)|] == Wire(labels) ==>
                   r == |Wire(labels)| && bfr[start..start + r] == pkt[p..p + r]
  {
    hide Wire, Text, WithinLimits, Labels, WellFormedName, Decode, CString, Effective;
    ghost var labels := Decode(pkt, p, MaxHops(pkt)).value;
    var ok, name, encLen := ExpandName(p, pkt);
    TextIsCString(labels);
    LabelsNonEmpty(pkt, p, MaxHops(pkt));
    NonEmptyLabels(labels);
    LabelsOfText(labels);
    r := NamePut(bfr, start, name);
    assert r >= 0 ==> (bfr[..start + r])[start..] == bfr[start..start + r];
    forall other: seq<Label> | WithinLimits(other) && p + |Wire(other)| <= |pkt|
                               && pkt[p..p + |Wire(other)|] == Wire(other)
      ensures other == labels
    {
      NamesRoundTrip(pkt, p, other);
    }
  }

  lemma NonEmptyLabels(labels: seq<Label>)
    requires forall l | l in labels :: 1 <= |l| <= 63
    ensures forall l | l in labels :: l != []
  {}

  /** Labels without NUL octets have a text that is a C string. */
  lemma {:induction false} TextIsCString(labels: seq<Label>)
    requires forall l | l in labels :: CString(l)
    ensures CString(Text(labels))
  {
    if labels != [] {
      assert labels[0] in labels;
      EscapedIsCString(labels[0]);
      TextIsCString(labels[1..]);
    }
  }

  lemma {:induction false} EscapedIsCString(l: Label)
    requires CString(l)
    ensures CString(Escaped(l))
  {
    if l != [] {
      EscapedIsCString(l[1..]);
    }
  }

  // ----- the question message --------------------------------------------------------------------

  type Word16 = w: int | 0 <= w < 0x10000

  function Octets16(w: Word16): seq<Byte> {
    [(w / 256) as Byte, (w % 256) as Byte]
  }

  function As16(hi: Byte, lo: Byte): Word16 {
    hi as int * 256 + lo as int
  }

  /** Header with recursion desired, one question and one additional record. */
  function Header(id: Word16): seq<Byte> {
    Octets16(id) + [1, 0, 0, 1, 0, 0, 0, 0, 0, 1]
  }

  function Question(qtype: Word16, qclass: Word16): seq<Byte> {
    Octets16(qtype) + Octets16(qclass)
  }

  const MAX_UDP_SIZE: Word16 := 4096

  /** The OPT pseudo-record of section 6.1.2 of RFC 6891, with the DO bit of RFC 3225. */
  function Opt(): seq<Byte> {
    [0, 0, 41] + Octets16(MAX_UDP_SIZE) + [0, 0, 0x80, 0, 0, 0]
  }

  function QuestionMessage(labels: seq<Label>, qtype: Word16, qclass: Word16, id: Word16): seq<Byte> {
    Header(id) + Wire(labels) + Question(qtype, qclass) + Opt()
  }

  /** Copies octets into the buffer. */
  method PutOctets(bfr: array<Byte>, start: nat, octets: seq<Byte>) returns (q: nat)
    requires start + |octets| <= bfr.Length
    modifies bfr
    ensures q == start + |octets|
    ensures bfr[..q] == old(bfr[..start]) + octets
  {
    for i := 0 to |octets|
      invariant bfr[..start + i] == old(bfr[..start]) + octets[..i]
    {
      bfr[start + i] := octets[i];
      assert octets[..i + 1] == octets[..i] + [octets[i]];
    }
    assert octets[..|octets|] == octets;
    q := start + |octets|;
  }

  /** Builds the question in a buffer sized from the text; None stands for the failed check on a
      malformed name.  The message fits the buffer and a 16-bit length. */
  method CreateQuestion(name: seq<Byte>, qtype: Word16, qclass: Word16, id: Word16)
      returns (r: Option<seq<Byte>>)
    requires CString(name)
    ensures r.Some? <==> Labels(Effective(name)).Some? && WithinLimits(Labels(Effective(name)).value)
    ensures r.Some? ==> r.value == QuestionMessage(Labels(Effective(name)).value, qtype, qclass, id)
    ensures r.Some? ==> |r.value| < 0x10000
  {
    hide Labels, Wire, WireLabels, Effective;
    var szAlloc := |name| + 2 + 12 + 4 + 11;
    var bfr := new Byte[szAlloc](_ => 0);
    var q := PutOctets(bfr, 0, Header(id));
    assert bfr[..q] == Header(id);
    var len := NamePut(bfr, q, name);
    if len < 1 {
      return None;
    }
    ghost var wire := Wire(Labels(Effective(name)).value);
    q := q + len;
    assert bfr[..q] == Header(id) + wire;
    q := PutOctets(bfr, q, Question(qtype, qclass));
    q := PutOctets(bfr, q, Opt());
    assert q <= szAlloc;
    r := Some(bfr[..q]);
  }

  /** Reading the question that was built gives back the name, the type and the class, so the
      checks that the answer reader makes of it hold. */
  lemma {:induction false} QuestionReadsBack(labels: seq<Label>, qtype: Word16, qclass: Word16, id: Word16)
    requires WithinLimits(labels)
    ensures var q := QuestionMessage(labels, qtype, qclass, id);
            var p := 12 + SizeInPlace(q, 12);
            && 12 <= |q| && As16(q[0], q[1]) == id && As16(q[4], q[5]) == 1
            && Decode(q, 12, MaxHops(q)) == Some(labels)
            && p + 4 <= |q| && As16(q[p], q[p + 1]) == qtype && As16(q[p + 2], q[p + 3]) == qclass
  {
    hide Wire, WireLabels, Decode, SizeInPlace, WithinLimits;
    var q, n := QuestionMessage(labels, qtype, qclass, id), |Wire(labels)|;
    assert q[12..12 + n] == Wire(labels);
    NamesRoundTrip(q, 12, labels);
    assert q[12 + n..12 + n + 4] == Question(qtype, qclass);
    FourOctets(q, 12 + n);
    assert q[..12] == Header(id);
    FourOctets(q, 0);
    FourOctets(q, 4);
  }

  lemma FourOctets(q: seq<Byte>, p: nat)
    requires p + 4 <= |q|
    ensures q[p..p + 4] == [q[p], q[p + 1], q[p + 2], q[p + 3]]
  {}
}
