/** Laws of the rewrite that follow from its run-by-run meaning. */
module RewriteLaws {
  import opened Text
  import opened Utf8
  import opened Hosts
  import opened Plans
  import opened Rewriting
  import opened Runs

  // ---- locality ----

  lemma FirstPiece(s: Text) returns (run: Text, rest: Text)
    requires s != []
    ensures s == run + rest && run != []
    ensures IsHostByte(s[0]) ==> HostShaped(run) && EndsRun(rest)
    ensures !IsHostByte(s[0]) ==> run == [s[0]]
  {
    var n := if IsHostByte(s[0]) then RunEnd(s, 0) else 1;
    RunEndEnds(s, 0);
    run, rest := s[..n], s[n..];
  }

  predicate Separated(a: Text, b: Text) {
    a == [] || !IsHostByte(a[|a| - 1]) || EndsRun(b)
  }

  /** Text is rewritten piece by piece, wherever it is cut outside a run. */
  lemma {:induction false} MeaningIsLocal(rules: seq<Rule>, a: Text, b: Text)
    requires Separated(a, b)
    ensures Meaning(rules, a + b) == Meaning(rules, a) + Meaning(rules, b)
    decreases |a|
  {
    if a == [] {
      assert a + b == b;
      assert [] + Meaning(rules, b) == Meaning(rules, b);
    } else {
      var run, rest := FirstPiece(a);
      MeaningIsLocal(rules, rest, b);
      ConcatAssoc(run, rest, b);
      if IsHostByte(a[0]) {
        assert EndsRun(rest + b);
        MeaningOfRun(rules, run, rest + b);
        MeaningOfRun(rules, run, rest);
        ConcatAssoc(RewriteRun(rules, run), Meaning(rules, rest), Meaning(rules, b));
      } else {
        MeaningOfOther(rules, a[0], rest + b);
        MeaningOfOther(rules, a[0], rest);
        ConcatAssoc([a[0]], Meaning(rules, rest), Meaning(rules, b));
      }
    }
  }

  lemma RewriteIsLocal(rules: seq<Rule>, a: Text, b: Text)
    requires ValidPlan(rules) && HostRules(rules)
    requires Separated(a, b)
    ensures Scan(rules, a + b, 0) == Scan(rules, a, 0) + Scan(rules, b, 0)
  {
    MeaningIsLocal(rules, a, b);
    RewriteMeaning(rules, a + b);
    RewriteMeaning(rules, a);
    RewriteMeaning(rules, b);
  }

  /** A host embedded between separators is rewritten as if it stood alone. */
  lemma RewriteEmbedded(rules: seq<Rule>, before: Text, host: Text, after: Text)
    requires ValidPlan(rules) && HostRules(rules) && HostShaped(host)
    requires (before == [] || !IsHostByte(before[|before| - 1])) && EndsRun(after)
    ensures Scan(rules, before + host + after, 0)
         == Scan(rules, before, 0) + RewriteRun(rules, host) + Scan(rules, after, 0)
  {
    assert Separated(before + host, after);
    RewriteIsLocal(rules, before + host, after);
    RewriteIsLocal(rules, before, host);
    RewriteHost(rules, host);
  }

  // ---- the runs of a text ----

  lemma RunsOfOther(b: byte, rest: Text, a: nat, e: nat)
    requires !IsHostByte(b) && IsRun([b] + rest, a, e)
    ensures a >= 1 && IsRun(rest, a - 1, e - 1) && ([b] + rest)[a..e] == rest[a - 1..e - 1]
  {
    var s := [b] + rest;
    assert s[0] == b;
    assert forall i :: 1 <= i < |s| ==> s[i] == rest[i - 1];
    assert forall i :: 0 <= i < |rest| ==> rest[i] == s[i + 1];
  }

  lemma RunsOfRun(run: Text, rest: Text, a: nat, e: nat)
    requires HostShaped(run) && EndsRun(rest) && IsRun(run + rest, a, e)
    ensures (a == 0 && e == |run| && (run + rest)[a..e] == run)
         || (a >= |run| && IsRun(rest, a - |run|, e - |run|) && (run + rest)[a..e] == rest[a - |run|..e - |run|])
  {
    var s, n := run + rest, |run|;
    assert forall i :: 0 <= i < n ==> s[i] == run[i];
    assert forall i :: n <= i < |s| ==> s[i] == rest[i - n];
    assert forall i :: 0 <= i < |rest| ==> rest[i] == s[i + n];
    assert rest != [] ==> s[n] == rest[0];
  }

  /** Every host byte lies in a maximal run. */
  lemma {:induction false} RunAround(s: Text, c: nat, k: nat) returns (a: nat, e: nat)
    requires k <= c < |s| && forall i :: k <= i <= c ==> IsHostByte(s[i])
    ensures IsRun(s, a, e) && a <= c < e
    decreases k
  {
    if k > 0 && IsHostByte(s[k - 1]) { a, e := RunAround(s, c, k - 1); }
    else { RunEndEnds(s, k); a, e := k, RunEnd(s, k); }
  }

  // ---- when nothing changes ----

  ghost predicate HostTargets(rules: seq<Rule>) {
    forall r :: r in rules ==> HostShaped(r.to)
  }

  lemma {:induction false} MeaningEndsRun(rules: seq<Rule>, s: Text)
    requires EndsRun(s)
    ensures EndsRun(Meaning(rules, s))
  {
  }

  lemma RewriteRunIsHost(rules: seq<Rule>, run: Text)
    requires HostTargets(rules) && HostShaped(run)
    ensures HostShaped(RewriteRun(rules, run))
  {
    var best := LongestSuffix(rules, run);
    if best.Some? { AllHostConcat(run[..|run| - |best.value.from|], best.value.to); }
  }

  lemma FirstRunSame(x: Text, y: Text, x': Text, y': Text)
    requires AllHost(x) && AllHost(x') && EndsRun(y) && EndsRun(y') && x + y == x' + y'
    ensures x == x'
  {
    var s := x + y;
    RunEndIs(s, 0, |x|) by {
      assert forall i :: 0 <= i < |x| ==> s[i] == x[i];
      assert y != [] ==> s[|x|] == y[0];
    }
    RunEndIs(s, 0, |x'|) by {
      assert forall i :: 0 <= i < |x'| ==> s[i] == x'[i];
      assert y' != [] ==> s[|x'|] == y'[0];
    }
    assert x == s[..|x|] && x' == s[..|x'|];
  }

  /** After a match the text goes on with something other than a host byte, and so does its rewriting. */
  lemma ScanAfterMatch(rules: seq<Rule>, s: Text, e: nat)
    requires Searchable(rules) && HostRules(rules) && e <= |s| && RightBoundary(s, e)
    ensures EndsRun(Scan(rules, s, e)) && EndsRun(s[e..])
  {
    NothingOutsideRuns(rules, s, e);
    if e < |s| { ScanUnmatched(rules, s, e); }
  }

  lemma MatchedBytes(h: Text, s: Text, c: nat)
    requires Occurs(h, s, c) && Lower(h) == h && Lower(s) == s
    ensures s[c..] == h + s[c + |h|..]
  {
    assert forall k :: 0 <= k < |h| ==> Lower(h)[k] == Lower(s)[c + k];
    assert s[c..c + |h|] == h;
  }

  ghost predicate NoIdentities(rules: seq<Rule>) {
    forall r :: r in rules ==> r.from != r.to
  }

  lemma FirstRunDiffers(x: Text, y: Text, x': Text, y': Text)
    requires AllHost(x) && AllHost(x') && EndsRun(y) && EndsRun(y') && x != x'
    ensures x + y != x' + y'
  {
    if x + y == x' + y' { FirstRunSame(x, y, x', y'); }
  }

  lemma MatchHereChanges(rules: seq<Rule>, s: Text, c: nat, r: Rule)
    requires Searchable(rules) && HostRules(rules) && c < |s| && FindRule(rules, s, c) == Some(r)
    requires Lower(r.from) == r.from && HostShaped(r.to) && r.from != r.to && Lower(s) == s
    ensures Scan(rules, s, c) != s[c..]
  {
    FindRuleFinds(rules, s, c);
    var e := c + |r.from|;
    ScanMatched(rules, s, c, r);
    MatchedBytes(r.from, s, c);
    ScanAfterMatch(rules, s, e);
    FirstRunDiffers(r.to, Scan(rules, s, e), r.from, s[e..]);
  }

  lemma FirstMatchChanges(rules: seq<Rule>, s: Text, c: nat)
    requires ValidPlan(rules) && HostRules(rules) && HostTargets(rules) && NoIdentities(rules) && Lower(s) == s
    requires c < |s| && !Unmatched(rules, s, c) && forall k :: 0 <= k < c ==> Unmatched(rules, s, k)
    ensures Scan(rules, s, 0) != s
  {
    FindRuleFinds(rules, s, c);
    MatchHereChanges(rules, s, c, FindRule(rules, s, c).value);
    ScanCopies(rules, s, 0, c);
    ConcatDiffers(s[0..c], Scan(rules, s, c), s[c..]);
    assert s == s[0..c] + s[c..];
  }

  lemma {:induction false} MatchChanges(rules: seq<Rule>, s: Text, i: nat, c: nat)
    requires ValidPlan(rules) && HostRules(rules) && HostTargets(rules) && NoIdentities(rules) && Lower(s) == s
    requires i <= c < |s| && !Unmatched(rules, s, c) && forall k :: 0 <= k < i ==> Unmatched(rules, s, k)
    ensures Scan(rules, s, 0) != s
    decreases c - i
  {
    if Unmatched(rules, s, i) { MatchChanges(rules, s, i + 1, c); } else { FirstMatchChanges(rules, s, i); }
  }

  /** A lower-case text is left as it is exactly when no host of the plan occurs in it. */
  lemma UnchangedIff(rules: seq<Rule>, s: Text)
    requires ValidPlan(rules) && HostRules(rules) && HostTargets(rules) && NoIdentities(rules) && Lower(s) == s
    ensures Scan(rules, s, 0) == s <==> !MatchedSomewhere(rules, s)
  {
    if MatchedSomewhere(rules, s) {
      var c: nat :| c < |s| && !Unmatched(rules, s, c);
      MatchChanges(rules, s, 0, c);
    } else {
      ScanCopies(rules, s, 0, |s|);
      assert s[0..|s|] + [] == s;
    }
  }
}
