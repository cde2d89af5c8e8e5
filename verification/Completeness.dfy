/** Complete and idempotent rewriting: when nothing is left to rewrite in any output. */
module Completeness {
  import opened Text
  import opened Hosts
  import opened Plans
  import opened Rewriting
  import opened Runs
  import opened RewriteLaws

  /** Where rule r applies, it can leave the host of q behind: in its target, or, below what comes before, in
      a host that ends in its target. */
  predicate LeavesBehind(rules: seq<Rule>, r: Rule, q: Rule) {
    || LabelSuffix(q.from, r.to)
    || (LabelSuffix(r.to, q.from) && LongestSuffix(rules, q.from[..|q.from| - |r.to|] + r.from) == Some(r))
  }

  /** A condition on finitely many pairs of rules. */
  predicate NothingLeftBehind(rules: seq<Rule>) {
    forall q, r :: q in rules && r in rules ==> !LeavesBehind(rules, r, q)
  }

  // ---- the runs of the output ----

  ghost predicate RunImage(rules: seq<Rule>, t: Text) {
    exists run :: HostShaped(run) && t == RewriteRun(rules, run)
  }

  ghost predicate RunsAreImages(rules: seq<Rule>, out: Text) {
    forall a: nat, e: nat :: IsRun(out, a, e) ==> RunImage(rules, out[a..e])
  }

  lemma ImagesOfOther(rules: seq<Rule>, b: byte, out: Text)
    requires !IsHostByte(b) && RunsAreImages(rules, out)
    ensures RunsAreImages(rules, [b] + out)
  {
    forall a: nat, e: nat | IsRun([b] + out, a, e) ensures RunImage(rules, ([b] + out)[a..e]) {
      RunsOfOther(b, out, a, e);
    }
  }

  lemma ImagesOfRun(rules: seq<Rule>, run: Text, out: Text)
    requires HostShaped(run) && HostShaped(RewriteRun(rules, run)) && EndsRun(out) && RunsAreImages(rules, out)
    ensures RunsAreImages(rules, RewriteRun(rules, run) + out)
  {
    var r := RewriteRun(rules, run);
    assert RunImage(rules, r);
    forall a: nat, e: nat | IsRun(r + out, a, e) ensures RunImage(rules, (r + out)[a..e]) {
      RunsOfRun(r, out, a, e);
    }
  }

  /** Every maximal run of the output is a rewritten run of the input. */
  lemma {:induction false} RunsOfMeaning(rules: seq<Rule>, s: Text)
    requires HostTargets(rules)
    ensures RunsAreImages(rules, Meaning(rules, s))
    decreases |s|
  {
    if s != [] {
      var first, rest := FirstPiece(s);
      RunsOfMeaning(rules, rest);
      if IsHostByte(s[0]) {
        MeaningOfRun(rules, first, rest);
        RewriteRunIsHost(rules, first);
        MeaningEndsRun(rules, rest);
        ImagesOfRun(rules, first, Meaning(rules, rest));
      } else {
        MeaningOfOther(rules, s[0], rest);
        ImagesOfOther(rules, s[0], Meaning(rules, rest));
      }
    }
  }

  /** A suffix of p + t that is no longer than t is a suffix of t. */
  lemma ShortSuffixOfConcat(h: Text, p: Text, t: Text)
    requires LabelSuffix(h, p + t) && |h| <= |t|
    ensures LabelSuffix(h, t)
  {
    var s := p + t;
    var c, d := |s| - |h|, |t| - |h|;
    forall k | 0 <= k < |h| ensures LowerByte(h[k]) == LowerByte(t[d + k]) {
      assert s[c + k] == t[d + k];
    }
    if d > 0 { assert s[c - 1] == t[d - 1]; }
  }

  /** A longer suffix ends in t. */
  lemma LongSuffixOfConcat(h: Text, p: Text, t: Text)
    requires LabelSuffix(h, p + t) && |h| > |t| && !IsLabelByte(p[|p| - 1])
    ensures LabelSuffix(t, h)
  {
    var s := p + t;
    var c, d := |s| - |h|, |h| - |t|;
    OccurrenceBytes(h, s, c, |p| - 1);
    assert s[|p| - 1] == p[|p| - 1];
    forall k | 0 <= k < |t| ensures LowerByte(t[k]) == LowerByte(h[d + k]) {
      assert LowerByte(h[d + k]) == LowerByte(s[c + (d + k)]);
    }
  }

  // ---- nothing is left behind ----

  lemma TailReplaced(x: Text, y: Text, pre: Text, to: Text, f: Text, g: Text)
    requires LabelSuffix(x + y, pre + to) && |y| == |to| && EqFold(f, g)
    ensures LabelSuffix(x + f, pre + g)
  {
    var q, s, h, t := x + y, pre + to, x + f, pre + g;
    assert |Lower(f)| == |Lower(g)|;
    var c := |s| - |q|;
    assert c == |t| - |h|;
    forall k | 0 <= k < |h| ensures LowerByte(h[k]) == LowerByte(t[c + k]) {
      if k < |x| {
        assert LowerByte(q[k]) == LowerByte(s[c + k]);
      } else {
        assert Lower(f)[k - |x|] == Lower(g)[k - |x|];
      }
    }
    if c > 0 { assert s[c - 1] == pre[c - 1] == t[c - 1]; }
  }

  lemma LabelSuffixFold(h: Text, run: Text)
    requires LabelSuffix(h, run)
    ensures EqFold(h, run[|run| - |h|..])
  {
    var t := run[|run| - |h|..];
    forall k | 0 <= k < |h| ensures Lower(h)[k] == Lower(t)[k] { assert t[k] == run[|run| - |h| + k]; }
  }

  /** A rule that is the longest for a run is so for a shorter end of the run. */
  lemma LongestBelow(rules: seq<Rule>, run: Text, x: Text, r: Rule)
    requires ValidPlan(rules) && LongestSuffix(rules, run) == Some(r) && LabelSuffix(x + r.from, run)
    requires x == [] || !IsLabelByte(x[|x| - 1])
    ensures LongestSuffix(rules, x + r.from) == Some(r)
  {
    OwnSuffix(x, r.from);
    forall p | p in rules && LabelSuffix(p.from, x + r.from) ensures |p.from| <= |r.from| {
      SuffixOfSuffix(p.from, x + r.from, run);
    }
    LongestSuffixIs(rules, x + r.from, r);
  }

  /** Where a host that is longer than the target is left, its start and the host of the rule end the run. */
  lemma EndsRunBelow(pre: Text, g: Text, x: Text, y: Text, f: Text, to: Text)
    requires LabelSuffix(x + y, pre + to) && |y| == |to| && x != [] && EqFold(f, g)
    requires pre == [] || !IsLabelByte(pre[|pre| - 1])
    ensures LabelSuffix(x + f, pre + g) && LabelSuffix(to, x + y) && !IsLabelByte(x[|x| - 1])
  {
    TailReplaced(x, y, pre, to, f, g);
    LongSuffixOfConcat(x + y, pre, to);
    BoundaryBefore(x, y, pre, to);
  }

  /** A host that is longer than the target and left behind shows that the rule applies below its start. */
  lemma LeftBelow(rules: seq<Rule>, pre: Text, g: Text, x: Text, y: Text, r: Rule, q: Rule)
    requires ValidPlan(rules) && LongestSuffix(rules, pre + g) == Some(r) && EqFold(r.from, g)
    requires pre == [] || !IsLabelByte(pre[|pre| - 1])
    requires q.from == x + y && |y| == |r.to| && x != [] && LabelSuffix(q.from, pre + r.to)
    ensures LeavesBehind(rules, r, q)
  {
    EndsRunBelow(pre, g, x, y, r.from, r.to);
    LongestBelow(rules, pre + g, x, r);
    assert q.from[..|q.from| - |r.to|] == x;
  }

  lemma RunAroundRule(run: Text, f: Text) returns (pre: Text, g: Text)
    requires LabelSuffix(f, run)
    ensures run == pre + g && pre == run[..|run| - |f|] && EqFold(f, g)
    ensures pre == [] || !IsLabelByte(pre[|pre| - 1])
  {
    var n := |run| - |f|;
    pre, g := run[..n], run[n..];
    LabelSuffixFold(f, run);
  }

  lemma BoundaryBefore(x: Text, y: Text, pre: Text, to: Text)
    requires LabelSuffix(x + y, pre + to) && |y| == |to| && x != [] && !IsLabelByte(pre[|pre| - 1])
    ensures !IsLabelByte(x[|x| - 1])
  {
    var q, s := x + y, pre + to;
    OccurrenceBytes(q, s, |s| - |q|, |pre| - 1);
  }

  lemma OwnSuffix(x: Text, f: Text)
    requires x == [] || !IsLabelByte(x[|x| - 1])
    ensures LabelSuffix(f, x + f)
  {
    var s := x + f;
    forall k | 0 <= k < |f| ensures LowerByte(f[k]) == LowerByte(s[|x| + k]) { assert s[|x| + k] == f[k]; }
    if x != [] { assert s[|x| - 1] == x[|x| - 1]; }
    assert |s| - |f| == |x|;
  }

  lemma RewrittenRunIsClean(rules: seq<Rule>, run: Text, q: Rule)
    requires ValidPlan(rules) && NothingLeftBehind(rules) && q in rules
    ensures !LabelSuffix(q.from, RewriteRun(rules, run))
  {
    var best := LongestSuffix(rules, run);
    if best.Some? {
      var r := best.value;
      assert !LeavesBehind(rules, r, q);
      var pre, g := RunAroundRule(run, r.from);
      if LabelSuffix(q.from, pre + r.to) { LeftInRun(rules, pre, g, r, q); }
    }
  }

  lemma LeftInRun(rules: seq<Rule>, pre: Text, g: Text, r: Rule, q: Rule)
    requires ValidPlan(rules) && LongestSuffix(rules, pre + g) == Some(r) && EqFold(r.from, g)
    requires pre == [] || !IsLabelByte(pre[|pre| - 1])
    requires LabelSuffix(q.from, pre + r.to)
    ensures LeavesBehind(rules, r, q)
  {
    var k := |q.from| - |r.to|;
    if k <= 0 {
      ShortSuffixOfConcat(q.from, pre, r.to);
    } else {
      assert q.from == q.from[..k] + q.from[k..];
      LeftBelow(rules, pre, g, q.from[..k], q.from[k..], r, q);
    }
  }

  /** The output contains no boundary-valid occurrence of any host of the plan. */
  lemma OutputIsClean(rules: seq<Rule>, s: Text, c: nat)
    requires ValidPlan(rules) && HostRules(rules) && HostTargets(rules) && NothingLeftBehind(rules)
    requires c <= |Meaning(rules, s)|
    ensures Unmatched(rules, Meaning(rules, s), c)
  {
    var out := Meaning(rules, s);
    if c == |out| || !IsHostByte(out[c]) {
      NothingOutsideRuns(rules, out, c);
    } else {
      var a, e := RunAround(out, c, c);
      RunsOfMeaning(rules, s);
      assert RunImage(rules, out[a..e]);
      var run :| HostShaped(run) && out[a..e] == RewriteRun(rules, run);
      forall k | 0 <= k < |rules| ensures !Occurs(rules[k].from, out, c) {
        RewrittenRunIsClean(rules, run, rules[k]);
        OccursInRun(rules[k].from, out, a, e, c);
      }
    }
  }

  // ---- something is left behind ----

  lemma WholeIsLongest(rules: seq<Rule>, r: Rule)
    requires ValidPlan(rules) && r in rules
    ensures LongestSuffix(rules, r.from) == Some(r)
  {
    assert LabelSuffix(r.from, r.from);
    LongestSuffixIs(rules, r.from, r);
  }

  /** There the output ends in the other host. */
  lemma LeftInOutput(rules: seq<Rule>, r: Rule, q: Rule) returns (s: Text)
    requires ValidPlan(rules) && HostRules(rules) && q in rules && r in rules && LeavesBehind(rules, r, q)
    ensures HostShaped(s) && Lower(s) == s && LabelSuffix(q.from, RewriteRun(rules, s))
    ensures Lower(r.to) == r.to ==> Lower(RewriteRun(rules, s)) == RewriteRun(rules, s)
  {
    if LabelSuffix(q.from, r.to) {
      s := r.from;
      WholeIsLongest(rules, r);
      assert s[..0] + r.to == r.to;
    } else {
      var n := |q.from| - |r.to|;
      var x := q.from[..n];
      s := x + r.from;
      PrefixOfHost(q.from, n);
      AllHostConcat(x, r.from);
      LowerConcat(x, r.from);
      LowerConcat(x, r.to);
      assert s[..|s| - |r.from|] == x;
      PrefixAndTarget(q.from, r.to);
    }
  }

  /** What comes before the target in a host that ends in it, and the target, are the host. */
  lemma PrefixAndTarget(h: Text, to: Text)
    requires LabelSuffix(to, h)
    ensures LabelSuffix(h, h[..|h| - |to|] + to)
  {
    var n := |h| - |to|;
    LabelSuffixFold(to, h);
    assert h == h[..n] + h[n..];
    EqFoldSplit(h[..n], h[n..], h[..n], to);
    WholeFold(h, h[..n] + to);
  }

  lemma PrefixOfHost(h: Text, n: nat)
    requires n <= |h| && AllHost(h) && Lower(h) == h
    ensures AllHost(h[..n]) && Lower(h[..n]) == h[..n]
  {
    LowerSlice(h, 0, n);
    assert h[0..n] == h[..n];
  }

  lemma WholeFold(h: Text, t: Text)
    requires EqFold(h, t)
    ensures LabelSuffix(h, t)
  {
    assert |Lower(h)| == |Lower(t)|;
    forall k | 0 <= k < |h| ensures LowerByte(h[k]) == LowerByte(t[k]) { assert Lower(h)[k] == Lower(t)[k]; }
  }

  lemma SuffixIsMatched(rules: seq<Rule>, q: Rule, out: Text)
    requires q in rules && q.from != [] && LabelSuffix(q.from, out)
    ensures MatchedSomewhere(rules, out)
  {
    var k :| 0 <= k < |rules| && rules[k] == q;
    assert !Unmatched(rules, out, |out| - |q.from|);
  }

  lemma LeftIsMatched(rules: seq<Rule>, r: Rule, q: Rule) returns (s: Text)
    requires ValidPlan(rules) && HostRules(rules) && q in rules && r in rules && LeavesBehind(rules, r, q)
    ensures MatchedSomewhere(rules, Scan(rules, s, 0))
    ensures Lower(r.to) == r.to ==> Lower(Scan(rules, s, 0)) == Scan(rules, s, 0)
  {
    s := LeftInOutput(rules, r, q);
    RewriteHost(rules, s);
    SuffixIsMatched(rules, q, RewriteRun(rules, s));
  }

  lemma SomethingLeft(rules: seq<Rule>) returns (s: Text)
    requires ValidPlan(rules) && HostRules(rules) && !NothingLeftBehind(rules)
    ensures MatchedSomewhere(rules, Scan(rules, s, 0))
    ensures (forall r :: r in rules ==> Lower(r.to) == r.to) ==> Lower(Scan(rules, s, 0)) == Scan(rules, s, 0)
  {
    var q, r :| q in rules && r in rules && LeavesBehind(rules, r, q);
    s := LeftIsMatched(rules, r, q);
  }

  // ---- the theorems ----

  lemma CleanOutput(rules: seq<Rule>, s: Text)
    requires ValidPlan(rules) && HostRules(rules) && HostTargets(rules) && NothingLeftBehind(rules)
    ensures !MatchedSomewhere(rules, Scan(rules, s, 0))
  {
    RewriteMeaning(rules, s);
    var out := Scan(rules, s, 0);
    forall c: nat | c < |out| ensures Unmatched(rules, out, c) { OutputIsClean(rules, s, c); }
  }

  /** No host of the plan occurs in the output. */
  ghost predicate RewritesAll(rules: seq<Rule>, s: Text)
    requires Searchable(rules)
  {
    !MatchedSomewhere(rules, Scan(rules, s, 0))
  }

  /** Rewriting the output again changes nothing. */
  ghost predicate RewritesOnce(rules: seq<Rule>, s: Text)
    requires Searchable(rules)
  {
    Scan(rules, Scan(rules, s, 0), 0) == Scan(rules, s, 0)
  }

  /** No host of the plan occurs in any output, exactly when no rule can leave one behind. */
  lemma CompleteIff(rules: seq<Rule>)
    requires ValidPlan(rules) && HostRules(rules) && HostTargets(rules)
    ensures (forall s :: RewritesAll(rules, s)) <==> NothingLeftBehind(rules)
  {
    if NothingLeftBehind(rules) {
      forall s ensures RewritesAll(rules, s) { CleanOutput(rules, s); }
    } else {
      var s := SomethingLeft(rules);
      assert !RewritesAll(rules, s);
    }
  }

  /** Rewriting twice is rewriting once, for every text, exactly when no rule can leave a host behind. */
  lemma IdempotentIff(rules: seq<Rule>)
    requires ValidPlan(rules) && HostRules(rules) && HostTargets(rules)
    requires NoIdentities(rules) && forall r :: r in rules ==> Lower(r.to) == r.to
    ensures (forall s :: RewritesOnce(rules, s)) <==> NothingLeftBehind(rules)
  {
    if NothingLeftBehind(rules) {
      forall s ensures RewritesOnce(rules, s) { RewriteIsIdempotent(rules, s); }
    } else {
      var s := SomethingLeft(rules);
      UnchangedIff(rules, Scan(rules, s, 0));
      assert !RewritesOnce(rules, s);
    }
  }

  /** Complete rewriting: nothing is left to rewrite, so rewriting again changes nothing. */
  lemma RewriteIsIdempotent(rules: seq<Rule>, s: Text)
    requires ValidPlan(rules) && HostRules(rules) && HostTargets(rules) && NothingLeftBehind(rules)
    ensures var out := Scan(rules, s, 0); !MatchedSomewhere(rules, out) && Scan(rules, out, 0) == out
  {
    var out := Scan(rules, s, 0);
    CleanOutput(rules, s);
    ScanCopies(rules, out, 0, |out|);
    assert out[0..|out|] + [] == out;
  }

  predicate Entangled(q: Rule, r: Rule) {
    LabelSuffix(q.from, r.to) || LabelSuffix(r.to, q.from)
  }

  /** No host to look for is a label suffix of a target, nor a target of a host to look for. */
  ghost predicate Disentangled(rules: seq<Rule>) {
    forall q, r {:trigger Entangled(q, r)} :: q in rules && r in rules ==> !Entangled(q, r)
  }

  /** In particular when no host is a label suffix of a target, nor a target of a host. */
  lemma DisentangledLeavesNothing(rules: seq<Rule>)
    requires Disentangled(rules)
    ensures NothingLeftBehind(rules)
  {
    forall q, r | q in rules && r in rules ensures !LeavesBehind(rules, r, q) { assert !Entangled(q, r); }
  }
}
