/** Host names in text: label bytes, boundaries and boundary-valid occurrences. */
module Hosts {
  import opened Text

  /** `is_dns_label_byte` */
  predicate IsLabelByte(b: byte) {
    'a' <= b <= 'z' || 'A' <= b <= 'Z' || '0' <= b <= '9' || b == '_' || b == '-'
  }

  predicate IsHostByte(b: byte) {
    IsLabelByte(b) || b == '.'
  }

  predicate AllHost(s: Text) {
    forall i :: 0 <= i < |s| ==> IsHostByte(s[i])
  }

  predicate HostShaped(s: Text) {
    s != [] && AllHost(s)
  }

  /** `normalize_host` and `normalize_rewrite_host` */
  function NormalizeHost(host: Text): Text {
    Lower(TrimEndByte(Trim(host), '.'))
  }

  /** A host as configuration and requests deliver it: lower case, host bytes only, no trailing dot. */
  predicate PlainHost(h: Text) {
    HostShaped(h) && Lower(h) == h && h[|h| - 1] != '.'
  }

  predicate LeftBoundary(s: Text, start: nat)
    requires start <= |s|
  {
    start == 0 || !IsLabelByte(s[start - 1])
  }

  predicate RightBoundary(s: Text, end: nat)
    requires end <= |s|
  {
    end == |s| || (!IsLabelByte(s[end]) && s[end] != '.')
  }

  /** The bytes of s at c are h, up to ASCII case. */
  predicate FoldAt(h: Text, s: Text, c: nat)
    requires c + |h| <= |s|
  {
    forall k :: 0 <= k < |h| ==> LowerByte(h[k]) == LowerByte(s[c + k])
  }

  /** Host h occurs in s at position c, up to ASCII case and between host boundaries. */
  predicate Occurs(h: Text, s: Text, c: nat) {
    c + |h| <= |s| && LeftBoundary(s, c) && RightBoundary(s, c + |h|) && FoldAt(h, s, c)
  }

  lemma FoldAtIsEqFold(h: Text, s: Text, c: nat)
    requires c + |h| <= |s|
    ensures FoldAt(h, s, c) <==> EqFold(s[c..c + |h|], h)
  {
    var t := s[c..c + |h|];
    assert forall k :: 0 <= k < |h| ==> t[k] == s[c + k];
    if EqFold(t, h) {
      forall k | 0 <= k < |h| ensures LowerByte(h[k]) == LowerByte(s[c + k]) {
        assert Lower(t)[k] == Lower(h)[k];
      }
    }
  }

  /** Only host bytes match host bytes. */
  lemma OccurrenceBytes(h: Text, s: Text, c: nat, i: nat)
    requires c <= i < c + |h| <= |s| && FoldAt(h, s, c)
    ensures IsHostByte(s[i]) <==> IsHostByte(h[i - c])
    ensures IsLabelByte(s[i]) <==> IsLabelByte(h[i - c])
  {
    assert LowerByte(h[i - c]) == LowerByte(s[c + (i - c)]);
  }

  lemma AllHostConcat(a: Text, b: Text)
    ensures AllHost(a + b) <==> AllHost(a) && AllHost(b)
  {
    if AllHost(a + b) {
      assert forall i :: 0 <= i < |a| ==> a[i] == (a + b)[i];
      assert forall i :: 0 <= i < |b| ==> b[i] == (a + b)[|a| + i];
    }
  }

  // ---- maximal runs of host bytes ----

  /** [a, e) is a maximal run of host bytes of s. */
  predicate IsRun(s: Text, a: nat, e: nat) {
    && a < e <= |s|
    && (forall i :: a <= i < e ==> IsHostByte(s[i]))
    && (a == 0 || !IsHostByte(s[a - 1]))
    && (e == |s| || !IsHostByte(s[e]))
  }

  /** h is a suffix of the run, up to case, that starts a label. */
  predicate LabelSuffix(h: Text, run: Text) {
    |h| <= |run| && Occurs(h, run, |run| - |h|)
  }

  /** A label suffix of a label suffix is one. */
  lemma SuffixOfSuffix(q: Text, f: Text, h: Text)
    requires LabelSuffix(q, f) && LabelSuffix(f, h)
    ensures LabelSuffix(q, h)
  {
  }

  lemma FoldAtShift(h: Text, s: Text, c: nat, t: Text, d: nat)
    requires c + |h| <= |s| && d + |h| <= |t|
    requires forall k :: d <= k < d + |h| ==> t[k] == s[c - d + k]
    ensures FoldAt(h, s, c) <==> FoldAt(h, t, d)
  {
    assert forall k :: 0 <= k < |h| ==> LowerByte(h[k]) == LowerByte(h[k]) && t[d + k] == s[c - d + (d + k)];
  }

  /** Inside a maximal run, the occurrences of h are exactly its label suffixes of the run.
      A host with other bytes has none, except in text that has nothing but the run. */
  lemma OccursInRun(h: Text, s: Text, a: nat, e: nat, c: nat)
    requires IsRun(s, a, e) && a <= c < e && h != []
    requires AllHost(h) || e == |s|
    ensures Occurs(h, s, c) <==> c + |h| == e && LabelSuffix(h, s[a..e])
  {
    var run := s[a..e];
    if c + |h| < e { assert IsHostByte(s[c + |h|]); }
    if c + |h| > e && Occurs(h, s, c) { OccurrenceBytes(h, s, c, e); }
    if c + |h| == e {
      assert forall j :: 0 <= j < |run| ==> run[j] == s[a + j];
      FoldAtShift(h, s, c, run, c - a);
    }
  }

  lemma NoOccurrenceOutsideRuns(h: Text, s: Text, c: nat)
    requires HostShaped(h) && c <= |s| && (c < |s| ==> !IsHostByte(s[c]))
    ensures !Occurs(h, s, c)
  {
    if Occurs(h, s, c) { OccurrenceBytes(h, s, c, c); }
  }

  /** Two overlapping occurrences of host-shaped hosts end at the same byte. */
  lemma OverlapEndsTogether(h1: Text, c1: nat, h2: Text, c2: nat, s: Text)
    requires HostShaped(h1) && HostShaped(h2)
    requires Occurs(h1, s, c1) && Occurs(h2, s, c2)
    requires c1 < c2 + |h2| && c2 < c1 + |h1|
    ensures c1 + |h1| == c2 + |h2|
  {
    if c1 + |h1| < c2 + |h2| {
      OccurrenceBytes(h2, s, c2, c1 + |h1|);
    } else if c2 + |h2| < c1 + |h1| {
      OccurrenceBytes(h1, s, c1, c2 + |h2|);
    }
  }

  // ---- plain hosts are in normal form ----

  lemma NoSpaceAtHostByte(s: Text, i: nat)
    requires i < |s| && IsHostByte(s[i])
    ensures SpaceAt(s, i) == 0 && SpaceBefore(s, i + 1) == 0
  {
  }

  lemma PlainTrim(h: Text)
    requires PlainHost(h)
    ensures Trim(h) == h
  {
    NoSpaceAtHostByte(h, 0);
    NoSpaceAtHostByte(h, |h| - 1);
    assert SkipSpace(h, 0) == 0 && SkipSpaceBack(h, |h|) == |h|;
    assert h[0..] == h && h[..|h|] == h;
  }

  lemma PlainIsNormal(h: Text)
    requires PlainHost(h)
    ensures NormalizeHost(h) == h && Trim(h) == h
  {
    PlainTrim(h);
    assert SkipByteBack(h, '.', |h|) == |h|;
    assert h[..|h|] == h;
  }
}
