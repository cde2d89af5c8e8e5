/** `rewrite_text_body` as it runs: UTF-8 validity from the configured hosts to the output. */
module TextBody {
  import opened Text
  import opened Utf8
  import opened Hosts
  import opened Plans
  import opened Rewriting
  import opened RoundTrip

  // ---- normalising keeps strings valid ----

  /** A white-space scalar is a scalar. */
  lemma SpaceIsScalar(s: Text, i: nat)
    requires i < |s| && SpaceAt(s, i) > 0 && ScalarAt(s, i)
    ensures IsCharBoundary(s, i + SpaceAt(s, i))
  {
  }

  lemma {:induction false} SkipSpaceBoundary(s: Text, i: nat)
    requires ValidUtf8(s) && i <= |s| && IsCharBoundary(s, i)
    ensures IsCharBoundary(s, SkipSpace(s, i))
    decreases |s| - i
  {
    if SpaceAt(s, i) > 0 {
      assert ScalarAt(s, i);
      SpaceIsScalar(s, i);
      SkipSpaceBoundary(s, i + SpaceAt(s, i));
    }
  }

  lemma {:induction false} SkipSpaceBackBoundary(s: Text, j: nat)
    requires j <= |s| && IsCharBoundary(s, j)
    ensures IsCharBoundary(s, SkipSpaceBack(s, j))
    decreases j
  {
    if SpaceBefore(s, j) > 0 { SkipSpaceBackBoundary(s, j - SpaceBefore(s, j)); }
  }

  lemma {:induction false} SkipDotsBoundary(s: Text, j: nat)
    requires j <= |s| && IsCharBoundary(s, j)
    ensures IsCharBoundary(s, SkipByteBack(s, '.', j))
    decreases j
  {
    if j > 0 && s[j - 1] == '.' { SkipDotsBoundary(s, j - 1); }
  }

  lemma TrimValid(s: Text)
    requires ValidUtf8(s)
    ensures ValidUtf8(Trim(s))
  {
    SkipSpaceBoundary(s, 0);
    ValidSlice(s, SkipSpace(s, 0), |s|);
    var t := s[SkipSpace(s, 0)..];
    assert t == s[SkipSpace(s, 0)..|s|];
    SkipSpaceBackBoundary(t, |t|);
    ValidSlice(t, 0, SkipSpaceBack(t, |t|));
    assert t[0..SkipSpaceBack(t, |t|)] == t[..SkipSpaceBack(t, |t|)];
  }

  lemma LowerScalar(s: Text, i: nat)
    requires i < |s| && ScalarAt(s, i)
    ensures ScalarAt(Lower(s), i)
  {
    var t := Lower(s);
    assert forall k :: 0 <= k < |s| ==> t[k] == LowerByte(s[k]);
    if !Continuation(s[i]) {
      var n := ScalarLen(s, i);
      assert n > 1 ==> t[i + 1] == s[i + 1];
      assert n > 2 ==> t[i + 2] == s[i + 2];
      assert n > 3 ==> t[i + 3] == s[i + 3];
      assert ScalarLen(t, i) == n;
    }
  }

  lemma LowerValid(s: Text)
    requires ValidUtf8(s)
    ensures ValidUtf8(Lower(s))
  {
    forall i | 0 <= i < |s| ensures ScalarAt(Lower(s), i) {
      assert ScalarAt(s, i);
      LowerScalar(s, i);
    }
  }

  lemma NormalizeHostValid(host: Text)
    requires ValidUtf8(host)
    ensures ValidUtf8(NormalizeHost(host))
  {
    var t := Trim(host);
    var n := SkipByteBack(t, '.', |t|);
    TrimValid(host);
    SkipDotsBoundary(t, |t|);
    ValidSlice(t, 0, n);
    assert t[0..n] == t[..n];
    LowerValid(t[..n]);
  }

  // ---- the composition ----

  /** A plan of rules whose hosts are valid strings is one of valid strings. */
  lemma PlanKeepsUtf8(rules: seq<Rule>)
    requires forall r :: r in rules ==> ValidUtf8(r.from) && ValidUtf8(r.to)
    ensures Utf8Rules(PlanOf(rules))
  {
    PlanOfIsPlan(rules);
    var plan := PlanOf(rules);
    forall k | 0 <= k < |plan| ensures ValidUtf8(plan[k].from) && ValidUtf8(plan[k].to) {
      assert plan[k] in plan && Smallest(plan[k], rules);
    }
  }

  /** `rewrite_text_body`: for valid strings the rewrite never slices inside a scalar and stays valid. */
  method RewriteTextBody(input: Text, from: Text, to: Text) returns (output: Text)
    requires ValidUtf8(input) && ValidUtf8(from) && ValidUtf8(to)
    ensures output == RewriteHeader(input, from, to)
    ensures ValidUtf8(output)
  {
    SingleRuleIsValid(from, to);
    var plan := RewritePlan.New([NewRule(from, to)]);
    var rewritten := plan.Rewrite(input);
    output := rewritten.text;
  }

  lemma SingleRuleIsValid(from: Text, to: Text)
    requires ValidUtf8(from) && ValidUtf8(to)
    ensures PlanOf([NewRule(from, to)]) == SingleRule(from, to)
    ensures Searchable(SingleRule(from, to)) && Utf8Rules(SingleRule(from, to))
  {
    NormalizeHostValid(from);
    NormalizeHostValid(to);
    PlanKeepsUtf8([NewRule(from, to)]);
  }
}
