/** Hosts whose label has other bytes than host bytes: a wildcard rule accepts any label without a dot. */
module SpacedHosts {
  import opened Text
  import opened Hosts
  import opened Plans
  import opened Rewriting
  import opened Runs
  import opened RewriteLaws
  import opened Routing
  import opened RoutingUndo
  import opened WildcardOrder

  /** A dot-free label cut after its last byte that is not a host byte. */
  ghost predicate Label(a: Text, c: byte, b: Text) {
    !IsHostByte(c) && AllHost(b) && '.' !in a + ([c] + b)
  }

  /** Start of the run of host bytes that ends at j. */
  function RunStart(s: Text, j: nat): (k: nat)
    requires j <= |s|
    ensures k <= j && (forall i :: k <= i < j ==> IsHostByte(s[i])) && (k > 0 ==> !IsHostByte(s[k - 1]))
  {
    if j > 0 && IsHostByte(s[j - 1]) then RunStart(s, j - 1) else j
  }

  lemma {:induction false} RunStartIs(s: Text, j: nat, k: nat)
    requires 0 < k <= j <= |s| && !IsHostByte(s[k - 1]) && forall i :: k <= i < j ==> IsHostByte(s[i])
    ensures RunStart(s, j) == k
  {
    if k < j { RunStartIs(s, j - 1, k); }
  }

  lemma LastRunAt(x: Text, y: Text, c: byte)
    requires !IsHostByte(c) && AllHost(y)
    ensures var s := x + ([c] + y); RunStart(s, |s|) == |x| + 1 && s[..|x|] == x && s[|x| + 1..] == y
  {
    var s := x + ([c] + y);
    assert forall i :: |x| < i < |s| ==> s[i] == y[i - |x| - 1];
    assert s[|x|] == c;
    RunStartIs(s, |s|, |x| + 1);
  }

  /** The last byte that is not a host byte is in one place. */
  lemma LastRun(x: Text, y: Text, x': Text, y': Text, c: byte)
    requires !IsHostByte(c) && AllHost(y) && AllHost(y') && x + ([c] + y) == x' + ([c] + y')
    ensures x == x' && y == y'
  {
    LastRunAt(x, y, c);
    LastRunAt(x', y', c);
  }

  // ---- where a rule can occur ----

  lemma NoDotIn(p: Text, s: Text)
    requires '.' !in p
    ensures forall k :: 0 <= k < |p| ==> LowerByte((p + s)[k]) != '.'
  {
    forall k | 0 <= k < |p| ensures LowerByte((p + s)[k]) != '.' {
      assert (p + s)[k] == p[k] && p[k] in p;
    }
  }

  /** A host with a dot occurs only after the last other byte of a label, because the label has no dot. */
  lemma DottedOccursLater(h: Text, p: Text, n: nat, s: Text, i: nat)
    requires '.' !in p && 0 < n <= |p| && !IsHostByte(p[n - 1])
    requires AllHost(h) && '.' in h && Occurs(h, p + s, i)
    ensures i >= n
  {
    var t := p + s;
    var d :| 0 <= d < |h| && h[d] == '.';
    assert LowerByte(h[d]) == LowerByte(t[i + d]);
    NoDotIn(p, s);
    assert t[n - 1] == p[n - 1];
    if i < n { OccurrenceBytes(h, t, i, n - 1); }
  }

  /** Inside text ending in a run of host bytes, a match ends only at the end. */
  lemma OccursToEnd(h: Text, t: Text, i: nat, n: nat)
    requires Occurs(h, t, i) && n < i + |h| && n <= |t| && forall k :: n <= k < |t| ==> IsHostByte(t[k])
    ensures i + |h| == |t|
  {
  }

  /** Where its first dot is fixes the place of a host with one. */
  lemma FirstDotFixes(q: Text, s': Text, p: Text, s: Text, i: nat)
    requires PlainSuffix(s) && PlainSuffix(s') && '.' !in q && '.' !in p && !AllHost(q)
    requires Occurs(q + s', p + s, i)
    ensures i + |q| == |p|
  {
    var h, t := q + s', p + s;
    NoDotIn(p, s);
    NoDotIn(q, s');
    assert h[|q|] == '.' && t[|p|] == '.';
    assert LowerByte(h[|q|]) == LowerByte(t[i + |q|]);
    var d :| 0 <= d < |q| && !IsHostByte(q[d]);
    assert h[d] == q[d];
    OccurrenceBytes(h, t, i, i + d);
    OtherByteInLabel(p, s, i + d);
    forall k | i <= k < i + |q| ensures LowerByte(t[k]) != '.' {
      assert LowerByte(h[k - i]) == LowerByte(t[i + (k - i)]);
    }
  }

  lemma OtherByteInLabel(p: Text, s: Text, k: nat)
    requires PlainSuffix(s) && k < |p + s| && !IsHostByte((p + s)[k])
    ensures k < |p|
  {
    SuffixIsHost(s);
    assert forall j :: |p| <= j < |p + s| ==> (p + s)[j] == s[j - |p|];
  }

  /** A spaced host occurs in another only as its tail, below the same suffix. */
  lemma SpacedOccurs(q: Text, s': Text, p: Text, s: Text, i: nat)
    requires PlainSuffix(s) && PlainSuffix(s') && '.' !in q && '.' !in p && !AllHost(q)
    requires Lower(q) == q && Lower(p) == p && Occurs(q + s', p + s, i)
    ensures i + |q| == |p| && s' == s && q == p[i..]
  {
    var h, t := q + s', p + s;
    FirstDotFixes(q, s', p, s, i);
    SuffixIsHost(s);
    SuffixIsHost(s');
    assert forall k :: |p| <= k < |t| ==> t[k] == s[k - |p|];
    OccursToEnd(h, t, i, |p|);
    LowerConcat(q, s');
    LowerConcat(p, s);
    MatchedBytes(h, t, i);
    assert t[i + |h|..] == [];
    assert t[i..] == h;
    SameCut(q, s', p, s, i);
  }

  lemma SameCut(q: Text, s': Text, p: Text, s: Text, i: nat)
    requires i + |q| == |p| && (p + s)[i..] == q + s'
    ensures s' == s && q == p[i..]
  {
    assert (p + s)[i..] == p[i..] + s;
    assert q == (q + s')[..|q|] && s' == (q + s')[|q|..];
    assert p[i..] == (p[i..] + s)[..|q|] && s == (p[i..] + s)[|q|..];
  }

  // ---- the scan of such a host ----

  /** If no rule occurs up to the last other byte, only the last run is rewritten. */
  lemma ScanLastRun(rules: seq<Rule>, p: Text, n: nat, s: Text, run': Text)
    requires ValidPlan(rules) && 0 < n <= |p| && !IsHostByte(p[n - 1]) && HostShaped(p[n..] + s)
    requires forall i :: 0 <= i < n ==> Unmatched(rules, p + s, i)
    requires RewriteRun(rules, p[n..] + s) == run'
    ensures Scan(rules, p + s, 0) == p[..n] + run'
  {
    var t := p + s;
    LastRunPieces(p, n, s);
    ScanCopies(rules, t, 0, n);
    ScanRun(rules, t, n, |t|);
    assert run' + [] == run';
  }

  lemma LastRunPieces(p: Text, n: nat, s: Text)
    requires 0 < n <= |p| && !IsHostByte(p[n - 1]) && HostShaped(p[n..] + s)
    ensures var t := p + s; IsRun(t, n, |t|) && t[0..n] == p[..n] && t[n..|t|] == p[n..] + s
  {
    var t := p + s;
    assert t[n..|t|] == p[n..] + s;
    assert forall k :: n <= k < |t| ==> t[k] == (p[n..] + s)[k - n];
    assert t[n - 1] == p[n - 1];
  }

  /** If the first rule to occur takes the whole tail, what it has to say is the result. */
  lemma ScanToEnd(rules: seq<Rule>, t: Text, i: nat, r: Rule)
    requires Searchable(rules) && i < |t| && FindRule(rules, t, i) == Some(r) && i + |r.from| == |t|
    requires forall k :: 0 <= k < i ==> Unmatched(rules, t, k)
    ensures Scan(rules, t, 0) == t[..i] + r.to
  {
    ScanCopies(rules, t, 0, i);
    ScanMatched(rules, t, i, r);
    assert r.to + [] == r.to;
    assert t[0..i] == t[..i];
  }

  /** With host rules, the part before the byte and the last run are rewritten on their own. */
  lemma ScanSplits(rules: seq<Rule>, a: Text, c: byte, run: Text)
    requires ValidPlan(rules) && HostRules(rules) && !IsHostByte(c) && HostShaped(run)
    ensures Scan(rules, a + ([c] + run), 0) == Scan(rules, a, 0) + ([c] + RewriteRun(rules, run))
  {
    RewriteIsLocal(rules, a, [c] + run);
    RewriteMeaning(rules, [c] + run);
    MeaningOfOther(rules, c, run);
    RewriteMeaning(rules, run);
    RewriteHost(rules, run);
  }

  /** The whole is restored exactly when the part before the byte is left alone and the last run restored. */
  lemma SpacedSplitIff(rules: seq<Rule>, a: Text, c: byte, run: Text, run': Text)
    requires ValidPlan(rules) && HostRules(rules) && HostTargets(rules)
    requires !IsHostByte(c) && HostShaped(run) && AllHost(run')
    ensures Scan(rules, a + ([c] + run), 0) == a + ([c] + run') <==>
      Scan(rules, a, 0) == a && RewriteRun(rules, run) == run'
  {
    ScanSplits(rules, a, c, run);
    RewriteRunIsHost(rules, run);
    if Scan(rules, a, 0) + ([c] + RewriteRun(rules, run)) == a + ([c] + run') {
      LastRun(Scan(rules, a, 0), RewriteRun(rules, run), a, run', c);
    }
  }
}
