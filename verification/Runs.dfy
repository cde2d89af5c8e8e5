/** What a rewrite means: cut the text into maximal runs of host bytes, and in each run replace the
    longest configured host that is a label suffix of the run. */
module Runs {
  import opened Text
  import opened Hosts
  import opened Plans
  import opened Rewriting

  /** End of the run of host bytes that starts at i. */
  function RunEnd(s: Text, i: nat): (e: nat)
    requires i <= |s|
    ensures i <= e <= |s|
    decreases |s| - i
  {
    if i < |s| && IsHostByte(s[i]) then RunEnd(s, i + 1) else i
  }

  lemma {:induction false} RunEndEnds(s: Text, i: nat)
    requires i <= |s|
    ensures forall k :: i <= k < RunEnd(s, i) ==> IsHostByte(s[k])
    ensures RunEnd(s, i) < |s| ==> !IsHostByte(s[RunEnd(s, i)])
    decreases |s| - i
  {
    if i < |s| && IsHostByte(s[i]) { RunEndEnds(s, i + 1); }
  }

  lemma {:induction false} RunEndIs(s: Text, i: nat, e: nat)
    requires i <= e <= |s|
    requires forall k :: i <= k < e ==> IsHostByte(s[k])
    requires e < |s| ==> !IsHostByte(s[e])
    ensures RunEnd(s, i) == e
    decreases e - i
  {
    if i < e { RunEndIs(s, i + 1, e); }
  }

  /** A rule with the longest host that is a label suffix of the run. */
  function LongestSuffix(rules: seq<Rule>, run: Text): (best: Option<Rule>)
    ensures best.Some? ==> best.value in rules && LabelSuffix(best.value.from, run)
    ensures best.Some? ==> forall r {:trigger LabelSuffix(r.from, run)} :: r in rules && LabelSuffix(r.from, run) ==>
      |r.from| <= |best.value.from|
    ensures best.None? ==> forall r {:trigger LabelSuffix(r.from, run)} :: r in rules ==> !LabelSuffix(r.from, run)
  {
    if rules == [] then None
    else
      var best := LongestSuffix(rules[1..], run);
      if LabelSuffix(rules[0].from, run) && (best.None? || |best.value.from| <= |rules[0].from|)
      then Some(rules[0]) else best
  }

  function RewriteRun(rules: seq<Rule>, run: Text): Text {
    match LongestSuffix(rules, run)
    case None => run
    case Some(r) => run[..|run| - |r.from|] + r.to
  }

  /** The meaning of a rewrite. */
  function Meaning(rules: seq<Rule>, s: Text): Text
    decreases |s|
  {
    if s == [] then []
    else if !IsHostByte(s[0]) then [s[0]] + Meaning(rules, s[1..])
    else RewriteRun(rules, s[..RunEnd(s, 0)]) + Meaning(rules, s[RunEnd(s, 0)..])
  }

  lemma MeaningOfOther(rules: seq<Rule>, b: byte, rest: Text)
    requires !IsHostByte(b)
    ensures Meaning(rules, [b] + rest) == [b] + Meaning(rules, rest)
  {
    assert ([b] + rest)[1..] == rest;
  }

  /** Text starting with something other than a host byte, or empty. */
  predicate EndsRun(s: Text) {
    s == [] || !IsHostByte(s[0])
  }

  lemma MeaningOfRun(rules: seq<Rule>, run: Text, rest: Text)
    requires HostShaped(run) && EndsRun(rest)
    ensures Meaning(rules, run + rest) == RewriteRun(rules, run) + Meaning(rules, rest)
  {
    var s := run + rest;
    RunEndIs(s, 0, |run|);
    assert s[..|run|] == run && s[|run|..] == rest;
  }

  /** The longest label suffix is unique. */
  lemma LongestSuffixIs(rules: seq<Rule>, run: Text, r: Rule)
    requires ValidPlan(rules) && r in rules && LabelSuffix(r.from, run)
    requires forall q :: q in rules && LabelSuffix(q.from, run) ==> |q.from| <= |r.from|
    ensures LongestSuffix(rules, run) == Some(r)
  {
    var best := LongestSuffix(rules, run).value;
    SameLengthSameRule(rules, r, best, run, |run| - |r.from|);
  }

  // ---- the scan computes the meaning ----

  /** Start of the longest label suffix of a run that ends at e. */
  function SuffixStart(best: Option<Rule>, e: nat): int {
    if best.Some? then e - |best.value.from| else e
  }

  /** Inside a run nothing matches before the longest label suffix. */
  lemma UnmatchedInRun(rules: seq<Rule>, s: Text, a: nat, e: nat, c: nat)
    requires Searchable(rules) && (HostRules(rules) || e == |s|)
    requires IsRun(s, a, e) && a <= c < SuffixStart(LongestSuffix(rules, s[a..e]), e)
    ensures Unmatched(rules, s, c)
  {
    forall k | 0 <= k < |rules| ensures !Occurs(rules[k].from, s, c) {
      OccursInRun(rules[k].from, s, a, e, c);
    }
  }

  lemma ScanBeforeSuffix(rules: seq<Rule>, s: Text, a: nat, e: nat, c: nat)
    requires Searchable(rules) && (HostRules(rules) || e == |s|)
    requires IsRun(s, a, e) && a <= c && c == SuffixStart(LongestSuffix(rules, s[a..e]), e)
    ensures c <= e && Scan(rules, s, a) == s[a..c] + Scan(rules, s, c)
  {
    forall k | a <= k < c ensures Unmatched(rules, s, k) { UnmatchedInRun(rules, s, a, e, k); }
    ScanCopies(rules, s, a, c);
  }

  /** At the longest label suffix of the run, its rule is found. */
  lemma MatchedInRun(rules: seq<Rule>, s: Text, a: nat, e: nat, r: Rule)
    requires ValidPlan(rules) && (HostRules(rules) || e == |s|)
    requires IsRun(s, a, e) && LongestSuffix(rules, s[a..e]) == Some(r)
    ensures a <= e - |r.from| < e && FindRule(rules, s, e - |r.from|) == Some(r)
  {
    var c := e - |r.from|;
    OccursInRun(r.from, s, a, e, c);
    FoundRuleIsLongest(rules, s, c, r);
    FindRuleFinds(rules, s, c);
    var found := FindRule(rules, s, c).value;
    OccursInRun(found.from, s, a, e, c);
  }

  lemma ScanThrough(rules: seq<Rule>, s: Text, a: nat, c: nat, e: nat, r: Rule)
    requires Searchable(rules) && a <= c < |s| && FindRule(rules, s, c) == Some(r) && c + |r.from| == e
    requires Scan(rules, s, a) == s[a..c] + Scan(rules, s, c)
    ensures e <= |s| && Scan(rules, s, a) == s[a..c] + (r.to + Scan(rules, s, e))
  {
    ScanMatched(rules, s, c, r);
  }

  lemma ScanRunReplaced(rules: seq<Rule>, s: Text, a: nat, c: nat, e: nat, r: Rule)
    requires ValidPlan(rules) && (HostRules(rules) || e == |s|)
    requires IsRun(s, a, e) && LongestSuffix(rules, s[a..e]) == Some(r) && c + |r.from| == e
    ensures a <= c && Scan(rules, s, a) == s[a..c] + (r.to + Scan(rules, s, e))
  {
    MatchedInRun(rules, s, a, e, r);
    ScanBeforeSuffix(rules, s, a, e, c);
    ScanThrough(rules, s, a, c, e, r);
  }

  lemma RunReplaced(rules: seq<Rule>, run: Text, r: Rule)
    requires LongestSuffix(rules, run) == Some(r)
    ensures |r.from| <= |run| && RewriteRun(rules, run) == run[..|run| - |r.from|] + r.to
  {
  }

  lemma SliceThen(s: Text, a: nat, c: nat, e: nat, to: Text, rest: Text)
    requires a <= c <= e <= |s|
    ensures s[a..e][..c - a] + to + rest == s[a..c] + (to + rest)
  {
    SliceOfSlice(s, a, e, c - a);
    ConcatAssoc(s[a..c], to, rest);
  }

  /** Scanning a whole run. */
  lemma ScanRun(rules: seq<Rule>, s: Text, a: nat, e: nat)
    requires ValidPlan(rules) && (HostRules(rules) || e == |s|)
    requires IsRun(s, a, e)
    ensures Scan(rules, s, a) == RewriteRun(rules, s[a..e]) + Scan(rules, s, e)
  {
    var best := LongestSuffix(rules, s[a..e]);
    if best.Some? { ScanRunByRule(rules, s, a, e, best.value); } else { ScanBeforeSuffix(rules, s, a, e, e); }
  }

  lemma ScanRunByRule(rules: seq<Rule>, s: Text, a: nat, e: nat, r: Rule)
    requires ValidPlan(rules) && (HostRules(rules) || e == |s|)
    requires IsRun(s, a, e) && LongestSuffix(rules, s[a..e]) == Some(r)
    ensures Scan(rules, s, a) == RewriteRun(rules, s[a..e]) + Scan(rules, s, e)
  {
    RunReplaced(rules, s[a..e], r);
    var c := e - |r.from|;
    ScanRunReplaced(rules, s, a, c, e, r);
    SliceThen(s, a, c, e, r.to, Scan(rules, s, e));
  }

  lemma MeaningFromOther(rules: seq<Rule>, s: Text, c: nat)
    requires c < |s| && !IsHostByte(s[c])
    ensures Meaning(rules, s[c..]) == [s[c]] + Meaning(rules, s[c + 1..])
  {
    assert s[c..] == [s[c]] + s[c + 1..];
    MeaningOfOther(rules, s[c], s[c + 1..]);
  }

  lemma RunPieces(s: Text, a: nat, e: nat)
    requires IsRun(s, a, e)
    ensures HostShaped(s[a..e]) && EndsRun(s[e..]) && s[a..] == s[a..e] + s[e..]
  {
  }

  lemma MeaningFromRun(rules: seq<Rule>, s: Text, c: nat, e: nat)
    requires IsRun(s, c, e)
    ensures Meaning(rules, s[c..]) == RewriteRun(rules, s[c..e]) + Meaning(rules, s[e..])
  {
    RunPieces(s, c, e);
    MeaningOfRun(rules, s[c..e], s[e..]);
  }

  lemma RunAt(s: Text, c: nat) returns (e: nat)
    requires c < |s| && IsHostByte(s[c]) && (c == 0 || !IsHostByte(s[c - 1]))
    ensures IsRun(s, c, e)
  {
    e := RunEnd(s, c);
    RunEndEnds(s, c);
  }

  /** A position that is not inside a run. */
  predicate RunBoundary(s: Text, c: nat)
    requires c <= |s|
  {
    c == 0 || c == |s| || !IsHostByte(s[c - 1]) || !IsHostByte(s[c])
  }

  /** From position c on, the scan is the meaning. */
  ghost predicate MeansFrom(rules: seq<Rule>, s: Text, c: nat)
    requires Searchable(rules)
  {
    c <= |s| && Scan(rules, s, c) == Meaning(rules, s[c..])
  }

  lemma EndMeans(rules: seq<Rule>, s: Text)
    requires Searchable(rules)
    ensures MeansFrom(rules, s, |s|)
  {
    assert s[|s|..] == [];
  }

  lemma OtherMeans(rules: seq<Rule>, s: Text, c: nat)
    requires ValidPlan(rules) && HostRules(rules) && c < |s| && !IsHostByte(s[c]) && MeansFrom(rules, s, c + 1)
    ensures MeansFrom(rules, s, c)
  {
    NothingOutsideRuns(rules, s, c);
    ScanUnmatched(rules, s, c);
    MeaningFromOther(rules, s, c);
  }

  lemma RunMeans(rules: seq<Rule>, s: Text, c: nat, e: nat)
    requires ValidPlan(rules) && HostRules(rules) && IsRun(s, c, e) && MeansFrom(rules, s, e)
    ensures MeansFrom(rules, s, c)
  {
    ScanRun(rules, s, c, e);
    MeaningFromRun(rules, s, c, e);
  }

  /** Induction over the pieces of a text, from its end. */
  lemma {:induction false} ByPieces(s: Text, p: nat -> bool, c: nat)
    requires p(|s|)
    requires forall i: nat :: i < |s| && !IsHostByte(s[i]) && p(i + 1) ==> p(i)
    requires forall i: nat, e: nat :: IsRun(s, i, e) && p(e) ==> p(i)
    requires c <= |s| && RunBoundary(s, c)
    ensures p(c)
    decreases |s| - c
  {
    if c == |s| {
    } else if !IsHostByte(s[c]) {
      ByPieces(s, p, c + 1);
    } else {
      var e := RunAt(s, c);
      ByPieces(s, p, e);
    }
  }

  /** For host-shaped rules the scan, from any position that is not inside a run, is the meaning. */
  lemma ScanIsMeaning(rules: seq<Rule>, s: Text, c: nat)
    requires ValidPlan(rules) && HostRules(rules)
    requires c <= |s| && RunBoundary(s, c)
    ensures MeansFrom(rules, s, c)
  {
    var p := (i: nat) => MeansFrom(rules, s, i);
    EndMeans(rules, s);
    forall i: nat | i < |s| && !IsHostByte(s[i]) && p(i + 1) ensures p(i) { OtherMeans(rules, s, i); }
    forall i: nat, e: nat | IsRun(s, i, e) && p(e) ensures p(i) { RunMeans(rules, s, i, e); }
    ByPieces(s, p, c);
  }

  lemma NothingOutsideRuns(rules: seq<Rule>, s: Text, c: nat)
    requires Searchable(rules) && HostRules(rules) && c <= |s| && (c < |s| ==> !IsHostByte(s[c]))
    ensures Unmatched(rules, s, c)
  {
    forall k | 0 <= k < |rules| ensures !Occurs(rules[k].from, s, c) {
      NoOccurrenceOutsideRuns(rules[k].from, s, c);
    }
  }

  /** The byte scan refines the run-by-run meaning. */
  lemma RewriteMeaning(rules: seq<Rule>, s: Text)
    requires ValidPlan(rules) && HostRules(rules)
    ensures Scan(rules, s, 0) == Meaning(rules, s)
  {
    ScanIsMeaning(rules, s, 0);
    assert s[0..] == s;
  }

  /** In text that is a single host, arbitrary rules do the same. */
  lemma RewriteHost(rules: seq<Rule>, host: Text)
    requires ValidPlan(rules) && HostShaped(host)
    ensures Scan(rules, host, 0) == RewriteRun(rules, host)
  {
    ScanRun(rules, host, 0, |host|);
    assert host[0..|host|] == host;
    assert RewriteRun(rules, host) + [] == RewriteRun(rules, host);
  }
}
