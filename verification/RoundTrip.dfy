/** `rewrite_text_body` and `rewrite_header_value`, and rewriting there and back. */
module RoundTrip {
  import opened Text
  import opened Utf8
  import opened Hosts
  import opened Plans
  import opened Rewriting
  import opened Runs
  import opened RewriteLaws

  ghost predicate LowerRules(rules: seq<Rule>) {
    forall r :: r in rules ==> Lower(r.from) == r.from
  }

  /** The plan of rules in lower case is ready to be searched. */
  lemma PlanIsValid(rules: seq<Rule>)
    requires LowerRules(rules)
    ensures ValidPlan(PlanOf(rules))
  {
    PlanOfIsPlan(rules);
    forall r | r in PlanOf(rules) ensures r.from != [] && Lower(r.from) == r.from {
      assert Smallest(r, rules);
    }
  }

  lemma NormalizedIsLower(host: Text)
    ensures Lower(NormalizeHost(host)) == NormalizeHost(host)
  {
    LowerIdempotent(TrimEndByte(Trim(host), '.'));
  }

  function SingleRule(from: Text, to: Text): (rules: seq<Rule>)
    ensures ValidPlan(rules)
  {
    NormalizedIsLower(from);
    PlanIsValid([NewRule(from, to)]);
    PlanOf([NewRule(from, to)])
  }

  /** `rewrite_text_body` and `rewrite_header_value` */
  function RewriteHeader(input: Text, from: Text, to: Text): Text {
    Scan(SingleRule(from, to), input, 0)
  }

  lemma SingleRuleIs(from: Text, to: Text)
    ensures SingleRule(from, to) == if Kept(NewRule(from, to)) then [NewRule(from, to)] else []
  {
    var r := NewRule(from, to);
    assert [r][1..] == [];
    assert Retain([]) == [] && SortRules([]) == [] && InsertRule(r, []) == [r];
    assert Retain([r]) == if Kept(r) then [r] else [];
    assert SortRules([r]) == [r];
  }

  // ---- one run there and back ----

  /** The plan that rewrites u to i, for hosts in normal form. */
  function OneRule(u: Text, i: Text): seq<Rule> {
    if u == i then [] else [Rule(u, i)]
  }

  lemma SingleRun(u: Text, i: Text, run: Text)
    ensures RewriteRun(OneRule(u, i), run) == if u != i && LabelSuffix(u, run) then run[..|run| - |u|] + i else run
  {
    var rules := OneRule(u, i);
    if rules != [] { assert rules[0] in rules; }
  }

  /** Replacing a label suffix by a host makes that host a label suffix. */
  lemma ReplacedIsSuffix(p: Text, h: Text)
    requires p == [] || !IsLabelByte(p[|p| - 1])
    ensures LabelSuffix(h, p + h) && (p + h)[..|p + h| - |h|] == p
  {
    assert forall k :: 0 <= k < |h| ==> (p + h)[|p| + k] == h[k];
  }

  lemma SameUpToCase(run: Text, u: Text)
    requires |u| <= |run|
    ensures EqFold(run[..|run| - |u|] + u, run) <==> FoldAt(u, run, |run| - |u|)
  {
    var n := |run| - |u|;
    assert run == run[..n] + run[n..];
    EqFoldSplit(run[..n], u, run[..n], run[n..]);
    FoldAtIsEqFold(u, run, n);
    assert run[n..n + |u|] == run[n..];
  }

  /** Different hosts in lower case do not match the same bytes. */
  lemma DifferentHostsDiffer(u: Text, i: Text, run: Text)
    requires Lower(u) == u && Lower(i) == i && u != i && LabelSuffix(i, run)
    ensures !EqFold(run[..|run| - |i|] + u, run)
  {
    if |u| == |i| {
      SameUpToCase(run, u);
      var k :| 0 <= k < |u| && u[k] != i[k];
      assert Lower(u)[k] == LowerByte(u[k]) && Lower(i)[k] == LowerByte(i[k]);
    } else {
      assert |Lower(run[..|run| - |i|] + u)| != |Lower(run)|;
    }
  }

  function ThereAndBack(u: Text, i: Text, run: Text): Text {
    RewriteRun(OneRule(i, u), RewriteRun(OneRule(u, i), run))
  }

  lemma RunThere(u: Text, i: Text, run: Text)
    requires LabelSuffix(u, run)
    ensures EqFold(ThereAndBack(u, i, run), run)
  {
    SingleRun(u, i, run);
    if u == i {
      SingleRun(i, u, run);
    } else {
      RunReplacedTwice(u, i, run[..|run| - |u|]);
      SameUpToCase(run, u);
    }
  }

  lemma RunReplacedTwice(u: Text, i: Text, p: Text)
    requires u != i
    requires p == [] || !IsLabelByte(p[|p| - 1])
    ensures RewriteRun(OneRule(i, u), p + i) == p + u
  {
    SingleRun(i, u, p + i);
    ReplacedIsSuffix(p, i);
  }

  lemma RunBackOnly(u: Text, i: Text, run: Text)
    requires Lower(u) == u && Lower(i) == i
    requires !LabelSuffix(u, run)
    ensures EqFold(ThereAndBack(u, i, run), run) <==> !LabelSuffix(i, run)
  {
    SingleRun(u, i, run);
    SingleRun(i, u, run);
    if LabelSuffix(i, run) {
      DifferentHostsDiffer(u, i, run);
    }
  }

  // ---- the whole text ----

  /** Every run that ends in i, up to case and at a label, also ends in u. */
  ghost predicate RunsAgree(s: Text, u: Text, i: Text) {
    forall a: nat, e: nat :: IsRun(s, a, e) ==> (LabelSuffix(i, s[a..e]) ==> LabelSuffix(u, s[a..e]))
  }

  lemma RunsAgreeOther(b: byte, rest: Text, u: Text, i: Text)
    requires !IsHostByte(b)
    ensures RunsAgree([b] + rest, u, i) <==> RunsAgree(rest, u, i)
  {
    var s := [b] + rest;
    if RunsAgree(rest, u, i) {
      forall a: nat, e: nat | IsRun(s, a, e) ensures LabelSuffix(i, s[a..e]) ==> LabelSuffix(u, s[a..e]) {
        RunsOfOther(b, rest, a, e);
      }
    }
    if RunsAgree(s, u, i) {
      forall a: nat, e: nat | IsRun(rest, a, e) ensures LabelSuffix(i, rest[a..e]) ==> LabelSuffix(u, rest[a..e]) {
        RunInsideConcat([b], rest, a, e);
      }
    }
  }

  lemma RunInsideConcat(p: Text, rest: Text, a: nat, e: nat)
    requires IsRun(rest, a, e) && p != [] && (!IsHostByte(p[|p| - 1]) || EndsRun(rest))
    ensures IsRun(p + rest, |p| + a, |p| + e) && (p + rest)[|p| + a..|p| + e] == rest[a..e]
  {
    var s, n := p + rest, |p|;
    assert forall k :: n <= k < |s| ==> s[k] == rest[k - n];
    assert s[n - 1] == p[n - 1];
  }

  lemma RunAtStart(run: Text, rest: Text)
    requires HostShaped(run) && EndsRun(rest)
    ensures IsRun(run + rest, 0, |run|) && (run + rest)[0..|run|] == run
  {
  }

  lemma RunsAgreeRun(run: Text, rest: Text, u: Text, i: Text)
    requires HostShaped(run) && EndsRun(rest)
    ensures RunsAgree(run + rest, u, i) <==>
      (LabelSuffix(i, run) ==> LabelSuffix(u, run)) && RunsAgree(rest, u, i)
  {
    var s := run + rest;
    RunAtStart(run, rest);
    if (LabelSuffix(i, run) ==> LabelSuffix(u, run)) && RunsAgree(rest, u, i) {
      forall a: nat, e: nat | IsRun(s, a, e) ensures LabelSuffix(i, s[a..e]) ==> LabelSuffix(u, s[a..e]) {
        RunsOfRun(run, rest, a, e);
      }
    }
    if RunsAgree(s, u, i) {
      forall a: nat, e: nat | IsRun(rest, a, e) ensures LabelSuffix(i, rest[a..e]) ==> LabelSuffix(u, rest[a..e]) {
        RunInsideConcat(run, rest, a, e);
      }
    }
  }

  lemma ShorterRunDiffers(x: Text, y: Text, x': Text, y': Text)
    requires AllHost(x') && EndsRun(y) && |x| < |x'|
    ensures !EqFold(x + y, x' + y')
  {
    var s, s', n := x + y, x' + y', |x|;
    if |s| == |s'| {
      assert s[n] == y[0] && s'[n] == x'[n];
      assert IsHostByte(x'[n]) && !IsHostByte(y[0]);
      assert Lower(s)[n] != Lower(s')[n];
    } else {
      assert |Lower(s)| != |Lower(s')|;
    }
  }

  /** Runs and what follows them are compared separately, also up to case. */
  lemma EqFoldByRuns(x: Text, y: Text, x': Text, y': Text)
    requires AllHost(x) && AllHost(x') && EndsRun(y) && EndsRun(y')
    ensures EqFold(x + y, x' + y') <==> EqFold(x, x') && EqFold(y, y')
  {
    if |x| == |x'| {
      EqFoldSplit(x, y, x', y');
    } else {
      assert |Lower(x)| != |Lower(x')|;
      if |x| < |x'| { ShorterRunDiffers(x, y, x', y'); } else { ShorterRunDiffers(x', y', x, y); }
    }
  }

  lemma SingleTargets(u: Text, i: Text)
    requires HostShaped(i)
    ensures HostTargets(OneRule(u, i))
  {
  }

  lemma {:induction false} MeaningThereAndBack(u: Text, i: Text, s: Text)
    requires HostShaped(u) && HostShaped(i) && Lower(u) == u && Lower(i) == i
    ensures EqFold(Meaning(OneRule(i, u), Meaning(OneRule(u, i), s)), s)
      <==> RunsAgree(s, u, i)
    decreases |s|
  {
    var there, back := OneRule(u, i), OneRule(i, u);
    if s != [] {
      var run, rest := FirstPiece(s);
      MeaningThereAndBack(u, i, rest);
      if IsHostByte(s[0]) { RunThereAndBack(u, i, run, rest); } else { OtherThereAndBack(u, i, s[0], rest); }
    }
  }

  lemma OtherThereAndBack(u: Text, i: Text, b: byte, rest: Text)
    requires !IsHostByte(b)
    requires EqFold(Meaning(OneRule(i, u), Meaning(OneRule(u, i), rest)), rest)
      <==> RunsAgree(rest, u, i)
    ensures EqFold(Meaning(OneRule(i, u), Meaning(OneRule(u, i), [b] + rest)), [b] + rest)
      <==> RunsAgree([b] + rest, u, i)
  {
    var there, back := OneRule(u, i), OneRule(i, u);
    MeaningOfOther(there, b, rest);
    MeaningOfOther(back, b, Meaning(there, rest));
    EqFoldSplit([b], Meaning(back, Meaning(there, rest)), [b], rest);
    RunsAgreeOther(b, rest, u, i);
  }

  lemma RunThereAndBack(u: Text, i: Text, run: Text, rest: Text)
    requires HostShaped(u) && HostShaped(i) && Lower(u) == u && Lower(i) == i
    requires HostShaped(run) && EndsRun(rest)
    requires EqFold(Meaning(OneRule(i, u), Meaning(OneRule(u, i), rest)), rest)
      <==> RunsAgree(rest, u, i)
    ensures EqFold(Meaning(OneRule(i, u), Meaning(OneRule(u, i), run + rest)), run + rest)
      <==> RunsAgree(run + rest, u, i)
  {
    var there, back := OneRule(u, i), OneRule(i, u);
    SingleTargets(u, i);
    SingleTargets(i, u);
    RewriteRunIsHost(there, run);
    RewriteRunIsHost(back, RewriteRun(there, run));
    MeaningOfRun(there, run, rest);
    MeaningEndsRun(there, rest);
    MeaningOfRun(back, RewriteRun(there, run), Meaning(there, rest));
    MeaningEndsRun(back, Meaning(there, rest));
    EqFoldByRuns(ThereAndBack(u, i, run), Meaning(back, Meaning(there, rest)), run, rest);
    if LabelSuffix(u, run) { RunThere(u, i, run); } else { RunBackOnly(u, i, run); }
    RunsAgreeRun(run, rest, u, i);
  }

  // ---- in terms of occurrences ----

  /** Every boundary-valid occurrence of i in s ends where an occurrence of u ends. */
  ghost predicate Covered(s: Text, u: Text, i: Text) {
    forall c: nat :: Occurs(i, s, c) ==> EndsWithHost(s, u, c + |i|)
  }

  ghost predicate EndsWithHost(s: Text, u: Text, end: nat) {
    |u| <= end && Occurs(u, s, end - |u|)
  }

  lemma CoveredIsRunsAgree(s: Text, u: Text, i: Text)
    requires HostShaped(u) && HostShaped(i)
    ensures Covered(s, u, i) <==> RunsAgree(s, u, i)
  {
    if RunsAgree(s, u, i) {
      forall c: nat | Occurs(i, s, c) ensures EndsWithHost(s, u, c + |i|) {
        OccurrenceBytes(i, s, c, c);
        var a, e := RunAround(s, c, c);
        OccursInRun(i, s, a, e, c);
        OccursInRun(u, s, a, e, e - |u|);
      }
    }
    if Covered(s, u, i) {
      forall a: nat, e: nat | IsRun(s, a, e) ensures LabelSuffix(i, s[a..e]) ==> LabelSuffix(u, s[a..e]) {
        if LabelSuffix(i, s[a..e]) {
          OccursInRun(i, s, a, e, e - |i|);
          assert EndsWithHost(s, u, e);
          OccurrenceStaysInRun(u, s, a, e, e - |u|);
          OccursInRun(u, s, a, e, e - |u|);
        }
      }
    }
  }

  lemma OccurrenceStaysInRun(u: Text, s: Text, a: nat, e: nat, c: nat)
    requires HostShaped(u) && IsRun(s, a, e) && Occurs(u, s, c) && c + |u| == e
    ensures a <= c < e
  {
    if c < a { OccurrenceBytes(u, s, c, a - 1); }
  }

  /** Rewriting u to i and back restores the text, up to ASCII case, exactly when every occurrence of i
      that was already there ends where an occurrence of u ends. */
  lemma HeaderRoundTrip(x: Text, u: Text, i: Text)
    requires HostShaped(NormalizeHost(u)) && HostShaped(NormalizeHost(i))
    ensures EqFold(RewriteHeader(RewriteHeader(x, u, i), i, u), x)
      <==> Covered(x, NormalizeHost(u), NormalizeHost(i))
  {
    SingleRuleIs(u, i);
    SingleRuleIs(i, u);
    NormalizedIsLower(u);
    NormalizedIsLower(i);
    RewriteMeaning(SingleRule(u, i), x);
    RewriteMeaning(SingleRule(i, u), RewriteHeader(x, u, i));
    MeaningThereAndBack(NormalizeHost(u), NormalizeHost(i), x);
    CoveredIsRunsAgree(x, NormalizeHost(u), NormalizeHost(i));
  }
}
