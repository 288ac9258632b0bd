/** Facts about slices and concatenations that proofs over octet sequences use. */
module Seqs {
  lemma SubSlice<T>(s: seq<T>, a: nat, b: nat, i: nat, j: nat)
    requires a <= b <= |s| && i <= j <= b - a
    ensures s[a..b][i..j] == s[a + i..a + j]
  {
    var t, u := s[a..b][i..j], s[a + i..a + j];
    forall k | 0 <= k < j - i
      ensures t[k] == u[k]
    {
      assert t[k] == s[a..b][i + k] == s[a + (i + k)];
      assert u[k] == s[(a + i) + k];
    }
  }

  lemma Middle<T>(a: seq<T>, b: seq<T>, c: seq<T>)
    ensures (a + (b + c))[|a|..|a| + |b|] == b
    ensures (a + (b + c))[|a| + |b|..] == c
    ensures (a + (b + c))[..|a|] == a
  {}

  lemma NextElement<T>(s: seq<T>, a: nat, b: nat)
    requires a <= b < |s|
    ensures s[a..b + 1] == s[a..b] + [s[b]]
  {}

  lemma PrefixThen<T>(s: seq<T>, a: nat, b: nat)
    requires a <= b <= |s|
    ensures s[..a] + s[a..b] == s[..b]
  {}

  lemma Assoc<T>(a: seq<T>, b: seq<T>, c: seq<T>)
    ensures a + b + c == a + (b + c)
  {}

  /** A stretch of s that is a + (b + c) can be cut into the three. */
  lemma CutInThree<T>(s: seq<T>, p: nat, a: seq<T>, b: seq<T>, c: seq<T>)
    requires p + |a| + |b| + |c| <= |s| && s[p..p + |a| + |b| + |c|] == a + (b + c)
    ensures s[p..p + |a|] == a
    ensures s[p + |a|..p + |a| + |b|] == b
    ensures s[p + |a| + |b|..p + |a| + |b| + |c|] == c
  {
    var end := p + |a| + |b| + |c|;
    Middle(a, b, c);
    SubSlice(s, p, end, 0, |a|);
    SubSlice(s, p, end, |a|, |a| + |b|);
    SubSlice(s, p, end, |a| + |b|, |a| + |b| + |c|);
    assert s[p..end][|a| + |b|..|a| + |b| + |c|] == s[p..end][|a| + |b|..];
  }
}
