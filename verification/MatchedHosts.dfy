/** Every match of a request, whatever bytes its label is made of: its hosts are in normal form, so its own
    pair is a rule of its plan. */
module MatchedHosts {
  import opened Text
  import opened Hosts
  import opened Config
  import opened Plans
  import opened Rewriting
  import opened RoundTrip
  import opened Routing
  import opened RoutingUndo

  /** m is what the table gives to a request for its own incoming host. */
  ghost predicate Matched(t: RouteTable, m: MatchedRoute) {
    NormalRoute(m) && Lower(m.incomingHost) == m.incomingHost && MatchNormalized(t, m.incomingHost) == Some(m)
  }

  // ---- white space at the start ----

  lemma SpaceInPrefix(s: Text, n: nat)
    requires n <= |s| && SpaceAt(s, 0) == 0
    ensures SpaceAt(s[..n], 0) == 0
  {
    assert forall i :: 0 <= i < n ==> s[..n][i] == s[i];
  }

  lemma LowerSpace(s: Text)
    requires SpaceAt(s, 0) == 0
    ensures SpaceAt(Lower(s), 0) == 0
  {
    assert forall i :: 0 <= i < |s| ==> Lower(s)[i] == LowerByte(s[i]);
  }

  lemma SpaceAfterSlice(s: Text, i: nat)
    requires i <= |s| && SpaceAt(s, i) == 0
    ensures SpaceAt(s[i..], 0) == 0
  {
    assert forall k :: 0 <= k < |s| - i ==> s[i..][k] == s[i + k];
  }

  /** A normalised host does not begin with white space. */
  lemma NormalizedStart(raw: Text)
    ensures SpaceAt(NormalizeHost(raw), 0) == 0
  {
    var i := SkipSpace(raw, 0);
    SpaceAfterSlice(raw, i);
    var started := raw[i..];
    SpaceInPrefix(started, SkipSpaceBack(started, |started|));
    var trimmed := Trim(raw);
    SpaceInPrefix(trimmed, SkipByteBack(trimmed, '.', |trimmed|));
    LowerSpace(TrimEndByte(trimmed, '.'));
  }

  /** Whether a label starts with white space does not depend on the suffix. */
  lemma LabelStart(p: Text, s: Text, s': Text)
    requires p != [] && s != [] && s' != [] && s[0] == s'[0] == '.' && SpaceAt(p + s, 0) == 0
    ensures SpaceAt(p + s', 0) == 0
  {
    var a, b := p + s, p + s';
    assert forall i :: 0 <= i < |p| ==> a[i] == p[i] == b[i];
    assert a[|p|] == '.' == b[|p|];
  }

  /** What does not begin with white space, ends in a label byte and is lower-case, is normal. */
  lemma NormalFrom(h: Text)
    requires h != [] && SpaceAt(h, 0) == 0 && IsLabelByte(h[|h| - 1]) && Lower(h) == h
    ensures NormalizeHost(h) == h && Trim(h) == h
  {
    NoSpaceAtHostByte(h, |h| - 1);
    assert SkipSpace(h, 0) == 0 && SkipSpaceBack(h, |h|) == |h|;
    assert h[0..] == h && h[..|h|] == h;
    assert SkipByteBack(h, '.', |h|) == |h|;
  }

  lemma NormalRequest(h: Text)
    requires h != [] && SpaceAt(h, 0) == 0 && IsLabelByte(h[|h| - 1]) && Lower(h) == h
    requires h[0] != '[' && ':' !in h
    ensures NormalizeRequestHost(h) == Some(h)
  {
    NormalFrom(h);
    assert IndexOf(h, ':', 0) == |h|;
    assert h[..|h|] == h;
  }

  // ---- matches ----

  lemma LabelNormal(p: Text, s: Text, s': Text)
    requires p != [] && PlainSuffix(s) && PlainSuffix(s') && SpaceAt(p + s, 0) == 0 && Lower(p + s) == p + s
    ensures NormalizeHost(p + s') == p + s' && Lower(p) == p
  {
    LabelStart(p, s, s');
    LowerConcat(p, s);
    assert p == (p + s)[..|p|] && Lower(p) == (Lower(p) + Lower(s))[..|p|];
    SuffixEnd(s');
    LowerConcat(p, s');
    NormalFrom(p + s');
  }

  lemma SuffixEnd(s: Text)
    requires PlainSuffix(s)
    ensures Lower(s) == s && IsLabelByte(s[|s| - 1])
  {
    assert s[|s| - 1] == s[1..][|s| - 2];
    assert forall i :: 1 <= i < |s| ==> s[i] == s[1..][i - 1] == Lower(s[1..])[i - 1];
  }

  /** The match of any request has normal hosts. */
  lemma RequestMatched(t: RouteTable, request: Text)
    requires WellFormed(t) && MatchHost(t, request).Some?
    ensures var m := MatchHost(t, request).value;
      Matched(t, m) && NormalizeRequestHost(request) == Some(m.incomingHost)
  {
    var h := NormalizeRequestHost(request).value;
    NormalizedIsLower(WithoutPort(Trim(request)));
    NormalizedStart(WithoutPort(Trim(request)));
    NormalIsMatched(t, h);
  }

  lemma NormalIsMatched(t: RouteTable, h: Text)
    requires WellFormed(t) && MatchNormalized(t, h).Some? && Lower(h) == h && SpaceAt(h, 0) == 0
    ensures Matched(t, MatchNormalized(t, h).value) && MatchNormalized(t, h).value.incomingHost == h
  {
    var a := HowAccepted(t, h);
    var m := MatchNormalized(t, h).value;
    if a.ByLabel? {
      var inc, up := t.wildcard[a.rule].incomingSuffix, t.wildcard[a.rule].upstreamSuffix;
      LabelNormal(a.prefix, inc, inc);
      LabelNormal(a.prefix, inc, up);
    } else {
      DeclaredArePlain(t, h, m.upstreamHost, a);
      PlainIsNormal(h);
      PlainIsNormal(m.upstreamHost);
    }
  }

  lemma RoutedIsMatched(t: RouteTable, h: Text, upstream: Text)
    requires WellFormed(t) && Routes(t, h, upstream)
    ensures Matched(t, MatchNormalized(t, h).value) && MatchNormalized(t, h).value.incomingHost == h
  {
    NoSpaceAtHostByte(h, 0);
    NormalIsMatched(t, h);
  }

  /** A match whose upstream is made of host bytes is one of a plain host. */
  lemma MatchedIsRouted(t: RouteTable, m: MatchedRoute)
    requires WellFormed(t) && Matched(t, m) && AllHost(m.upstreamHost)
    ensures Routes(t, m.incomingHost, m.upstreamHost)
  {
    var a := HowAccepted(t, m.incomingHost);
    if a.ByLabel? {
      AllHostConcat(a.prefix, t.wildcard[a.rule].upstreamSuffix);
      LowerConcat(a.prefix, t.wildcard[a.rule].incomingSuffix);
      assert a.prefix == m.incomingHost[..|a.prefix|];
      assert Lower(a.prefix) == Lower(m.incomingHost)[..|a.prefix|];
      PlainLabel(a.prefix, t.wildcard[a.rule].incomingSuffix);
    } else {
      DeclaredArePlain(t, m.incomingHost, m.upstreamHost, a);
    }
  }
}
