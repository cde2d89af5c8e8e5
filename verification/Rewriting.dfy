/** The one-pass rewrite of a text by a plan, and what it means run by run. */
module Rewriting {
  import opened Text
  import opened Utf8
  import opened Hosts
  import opened Plans

  /** A match always moves the cursor. */
  predicate Searchable(rules: seq<Rule>) {
    forall r :: r in rules ==> r.from != []
  }

  /** What every plan made by `new` from rules made by `NewRule` satisfies. */
  ghost predicate ValidPlan(rules: seq<Rule>) {
    StrictKeys(rules) && Searchable(rules) && forall r :: r in rules ==> Lower(r.from) == r.from
  }

  ghost predicate HostRules(rules: seq<Rule>) {
    forall r :: r in rules ==> AllHost(r.from)
  }

  /** No host to look for occurs at position c. */
  ghost predicate Unmatched(rules: seq<Rule>, input: Text, c: nat) {
    forall k :: 0 <= k < |rules| ==> !Occurs(rules[k].from, input, c)
  }

  /** The first rule from index i on whose host occurs at the cursor. */
  function FindFrom(rules: seq<Rule>, input: Text, cursor: nat, i: nat): Option<Rule>
    requires i <= |rules|
    decreases |rules| - i
  {
    if i == |rules| then None
    else if Occurs(rules[i].from, input, cursor) then Some(rules[i])
    else FindFrom(rules, input, cursor, i + 1)
  }

  /** `iter().find`: the first rule, in plan order, whose host occurs at the cursor. */
  function FindRule(rules: seq<Rule>, input: Text, cursor: nat): Option<Rule> {
    FindFrom(rules, input, cursor, 0)
  }

  lemma {:induction false} FindFromIsFirst(rules: seq<Rule>, input: Text, cursor: nat, i: nat) returns (k: nat)
    requires i <= |rules|
    ensures i <= k <= |rules|
    ensures FindFrom(rules, input, cursor, i) == if k < |rules| then Some(rules[k]) else None
    ensures k < |rules| ==> Occurs(rules[k].from, input, cursor)
    ensures forall j :: i <= j < k ==> !Occurs(rules[j].from, input, cursor)
    decreases |rules| - i
  {
    if i == |rules| || Occurs(rules[i].from, input, cursor) { k := i; }
    else { k := FindFromIsFirst(rules, input, cursor, i + 1); }
  }

  lemma FindRuleFinds(rules: seq<Rule>, input: Text, cursor: nat)
    ensures match FindRule(rules, input, cursor)
      case Some(r) => r in rules && Occurs(r.from, input, cursor)
      case None => Unmatched(rules, input, cursor)
  {
    var k := FindFromIsFirst(rules, input, cursor, 0);
  }

  /** Two rules of a plan with equally long hosts that match the same bytes are the same rule. */
  lemma SameLengthSameRule(rules: seq<Rule>, r: Rule, q: Rule, s: Text, c: nat)
    requires ValidPlan(rules) && r in rules && q in rules && |r.from| == |q.from|
    requires Occurs(r.from, s, c) && Occurs(q.from, s, c)
    ensures r == q
  {
    LowerSame(r.from, q.from, s, c);
    StrictKeysUnique(rules, r, q);
  }

  lemma LowerSame(a: Text, b: Text, s: Text, c: nat)
    requires Lower(a) == a && Lower(b) == b && |a| == |b|
    requires Occurs(a, s, c) && Occurs(b, s, c)
    ensures a == b
  {
    forall k | 0 <= k < |a| ensures a[k] == b[k] {
      assert Lower(a)[k] == LowerByte(s[c + k]) == Lower(b)[k];
    }
  }

  /** For arbitrary hosts: the rule found is the only longest one that matches at the cursor. */
  lemma FoundRuleIsLongest(rules: seq<Rule>, input: Text, cursor: nat, q: Rule)
    requires ValidPlan(rules) && q in rules && Occurs(q.from, input, cursor)
    ensures var found := FindRule(rules, input, cursor);
      found.Some? && (q == found.value || |q.from| < |found.value.from|)
  {
    var k := FindFromIsFirst(rules, input, cursor, 0);
    var j :| 0 <= j < |rules| && rules[j] == q;
    assert k <= j;
    assert k < j ==> KeyLess(rules[k].from, rules[j].from);
    if |q.from| == |rules[k].from| { SameLengthSameRule(rules, rules[k], q, input, cursor); }
  }

  // ---- the scan ----

  /** Rust strings are valid UTF-8. */
  ghost predicate Utf8Rules(rules: seq<Rule>) {
    forall k :: 0 <= k < |rules| ==> ValidUtf8(rules[k].from) && ValidUtf8(rules[k].to)
  }

  /** The text from the cursor on, rewritten: every byte position is tried in turn and a match is jumped over. */
  function Scan(rules: seq<Rule>, input: Text, cursor: nat): Text
    requires cursor <= |input| && Searchable(rules)
    decreases |input| - cursor
  {
    if cursor == |input| then []
    else match FindRule(rules, input, cursor)
      case Some(r) =>
        FindRuleFinds(rules, input, cursor);
        r.to + Scan(rules, input, cursor + |r.from|)
      case None => [input[cursor]] + Scan(rules, input, cursor + 1)
  }

  lemma NoHostStartsAtContinuation(h: Text, s: Text, c: nat)
    requires h != [] && ValidUtf8(h) && c < |s| && Continuation(s[c])
    ensures !Occurs(h, s, c)
  {
    assert LowerByte(h[0]) != LowerByte(s[c + 0]);
  }

  lemma UnmatchedAtContinuation(rules: seq<Rule>, input: Text, c: nat)
    requires Searchable(rules) && Utf8Rules(rules) && c < |input| && Continuation(input[c])
    ensures Unmatched(rules, input, c)
  {
    forall k | 0 <= k < |rules| ensures !Occurs(rules[k].from, input, c) {
      NoHostStartsAtContinuation(rules[k].from, input, c);
    }
  }

  lemma ScanUnmatched(rules: seq<Rule>, input: Text, c: nat)
    requires Searchable(rules) && c < |input| && Unmatched(rules, input, c)
    ensures Scan(rules, input, c) == [input[c]] + Scan(rules, input, c + 1)
  {
    FindRuleFinds(rules, input, c);
  }

  /** Bytes where nothing matches are copied. */
  lemma {:induction false} ScanCopies(rules: seq<Rule>, input: Text, c: nat, d: nat)
    requires Searchable(rules) && c <= d <= |input|
    requires forall k :: c <= k < d ==> Unmatched(rules, input, k)
    ensures Scan(rules, input, c) == input[c..d] + Scan(rules, input, d)
    decreases d - c
  {
    if c < d {
      ScanUnmatched(rules, input, c);
      ScanCopies(rules, input, c + 1, d);
      assert input[c..d] == [input[c]] + input[c + 1..d];
    } else {
      assert input[c..d] == [];
    }
  }

  lemma ScanMatched(rules: seq<Rule>, input: Text, c: nat, rule: Rule)
    requires Searchable(rules) && c < |input| && FindRule(rules, input, c) == Some(rule)
    ensures c < c + |rule.from| <= |input|
    ensures Scan(rules, input, c) == rule.to + Scan(rules, input, c + |rule.from|)
  {
    FindRuleFinds(rules, input, c);
  }

  /** What the loop of `rewrite` keeps: cut positions are boundaries, and what is written, what is
      pending and what the scan will still produce make up the result. */
  ghost predicate ScanState(rules: seq<Rule>, input: Text, output: Text, copiedUntil: nat, cursor: nat, changed: bool)
    requires Searchable(rules)
  {
    && copiedUntil <= cursor <= |input|
    && IsCharBoundary(input, copiedUntil) && IsCharBoundary(input, cursor)
    && ValidUtf8(output)
    && output + input[copiedUntil..cursor] + Scan(rules, input, cursor) == Scan(rules, input, 0)
    && (!changed ==> output == [] && copiedUntil == 0)
    && (changed <==> MatchBefore(rules, input, cursor))
  }

  /** Some host of the plan occurs before the cursor. */
  ghost predicate MatchBefore(rules: seq<Rule>, input: Text, cursor: nat)
    decreases cursor
  {
    cursor > 0 && (MatchBefore(rules, input, cursor - 1) || !Unmatched(rules, input, cursor - 1))
  }

  lemma {:induction false} MatchBeforeMonotone(rules: seq<Rule>, input: Text, c: nat, cursor: nat)
    requires c < cursor && (MatchBefore(rules, input, c) || !Unmatched(rules, input, c))
    ensures MatchBefore(rules, input, cursor)
    decreases cursor
  {
    if c < cursor - 1 { MatchBeforeMonotone(rules, input, c, cursor - 1); }
  }

  lemma {:induction false} MatchBeforeSkip(rules: seq<Rule>, input: Text, c: nat, d: nat)
    requires c <= d && forall k :: c <= k < d ==> Unmatched(rules, input, k)
    ensures MatchBefore(rules, input, d) <==> MatchBefore(rules, input, c)
    decreases d
  {
    if c < d { MatchBeforeSkip(rules, input, c, d - 1); }
  }

  lemma {:induction false} MatchBeforeWitness(rules: seq<Rule>, input: Text, cursor: nat) returns (c: nat)
    requires MatchBefore(rules, input, cursor)
    ensures c < cursor && !Unmatched(rules, input, c)
    decreases cursor
  {
    if MatchBefore(rules, input, cursor - 1) { c := MatchBeforeWitness(rules, input, cursor - 1); }
    else { c := cursor - 1; }
  }

  ghost predicate MatchedSomewhere(rules: seq<Rule>, input: Text) {
    exists c: nat :: c < |input| && !Unmatched(rules, input, c)
  }

  /** A match: the slice is legal, the output stays valid, the result stays the same. */
  lemma TurnOnMatch(rules: seq<Rule>, input: Text, output: Text, copiedUntil: nat, cursor: nat, changed: bool,
                    rule: Rule)
    requires Searchable(rules) && Utf8Rules(rules) && ValidUtf8(input)
    requires ScanState(rules, input, output, copiedUntil, cursor, changed) && cursor < |input|
    requires FindRule(rules, input, cursor) == Some(rule)
    ensures cursor < cursor + |rule.from|
    ensures ScanState(rules, input, output + input[copiedUntil..cursor] + rule.to,
                      cursor + |rule.from|, cursor + |rule.from|, true)
  {
    FindRuleFinds(rules, input, cursor);
    var copied := output + input[copiedUntil..cursor];
    var next := cursor + |rule.from|;
    ValidSlice(input, copiedUntil, cursor);
    ValidConcat(output, input[copiedUntil..cursor]);
    ValidConcat(copied, rule.to);
    MatchBoundary(input, cursor, rule.from);
    ScanMatched(rules, input, cursor, rule);
    ConcatAssoc(copied, rule.to, Scan(rules, input, next));
    assert copied + rule.to + input[next..next] == copied + rule.to;
    MatchBeforeMonotone(rules, input, cursor, next);
  }

  lemma MatchBoundary(s: Text, c: nat, h: Text)
    requires ValidUtf8(s) && ValidUtf8(h) && Occurs(h, s, c) && IsCharBoundary(s, c)
    ensures IsCharBoundary(s, c + |h|)
  {
    MatchEndsAtBoundary(s, c, h, 0);
  }

  /** No match: the cursor moves over one scalar, inside which nothing matches either. */
  lemma TurnOnNothing(rules: seq<Rule>, input: Text, output: Text, copiedUntil: nat, cursor: nat, changed: bool)
    requires Searchable(rules) && Utf8Rules(rules) && ValidUtf8(input)
    requires ScanState(rules, input, output, copiedUntil, cursor, changed) && cursor < |input|
    requires FindRule(rules, input, cursor).None?
    ensures ScalarLen(input, cursor) > 0
    ensures ScanState(rules, input, output, copiedUntil, cursor + ScalarLen(input, cursor), changed)
  {
    FindRuleFinds(rules, input, cursor);
    assert ScalarAt(input, cursor);
    var next := cursor + ScalarLen(input, cursor);
    forall k | cursor < k < next ensures Unmatched(rules, input, k) {
      UnmatchedAtContinuation(rules, input, k);
    }
    MatchBeforeSkip(rules, input, cursor, next);
    ScanCopies(rules, input, cursor, next);
    ExtendPending(output, input, copiedUntil, cursor, next, Scan(rules, input, next));
  }

  lemma ExtendPending(output: Text, input: Text, i: nat, j: nat, k: nat, rest: Text)
    requires i <= j <= k <= |input|
    ensures output + input[i..j] + (input[j..k] + rest) == output + input[i..k] + rest
  {
    assert input[i..k] == input[i..j] + input[j..k];
    ConcatAssoc(output, input[i..j], input[j..k]);
    ConcatAssoc(output + input[i..j], input[j..k], rest);
  }

  lemma ScanEnds(rules: seq<Rule>, input: Text, output: Text, copiedUntil: nat, changed: bool)
    requires Searchable(rules) && ValidUtf8(input)
    requires ScanState(rules, input, output, copiedUntil, |input|, changed)
    ensures Scan(rules, input, 0) == output + input[copiedUntil..]
    ensures ValidUtf8(output + input[copiedUntil..])
    ensures !changed ==> output + input[copiedUntil..] == input
    ensures changed <==> MatchedSomewhere(rules, input)
  {
    var rest := input[copiedUntil..|input|];
    assert rest == input[copiedUntil..];
    assert output + rest + [] == output + rest;
    ValidSlice(input, copiedUntil, |input|);
    ValidConcat(output, rest);
    if changed {
      var c := MatchBeforeWitness(rules, input, |input|);
    } else {
      assert output + rest == input;
      forall c: nat | c < |input| ensures Unmatched(rules, input, c) {
        if !Unmatched(rules, input, c) { MatchBeforeMonotone(rules, input, c, |input|); }
      }
    }
  }

  datatype Cow = Borrowed(text: Text) | Owned(text: Text)

  datatype RewritePlan = RewritePlan(rules: seq<Rule>) {

    /** `RewritePlan::new` */
    static method New(given: seq<Rule>) returns (plan: RewritePlan)
      ensures plan.rules == PlanOf(given)
      ensures IsPlan(plan.rules, given) && SpelledOut(plan.rules, given)
    {
      var rules := given;
      rules := Retain(rules);
      rules := SortRules(rules);
      rules := DedupByFrom(rules);
      plan := RewritePlan(rules);
      PlanOfIsPlan(given);
      PlanSpelledOut(plan.rules, given);
    }

    /** `RewritePlan::rewrite`: every slice is legal, the output is valid UTF-8, and the input is
        borrowed exactly when no host of the plan occurs in it. */
    method Rewrite(input: Text) returns (out: Cow)
      requires Searchable(rules) && Utf8Rules(rules) && ValidUtf8(input)
      ensures out.text == Scan(rules, input, 0)
      ensures ValidUtf8(out.text)
      ensures out.Owned? <==> MatchedSomewhere(rules, input)
      ensures out.Borrowed? ==> out.text == input
    {
      var output: Text := [];
      var copiedUntil, cursor := 0, 0;
      var changed := false;
      assert output + input[0..0] + Scan(rules, input, 0) == Scan(rules, input, 0);
      while cursor < |input|
        invariant 0 <= copiedUntil <= cursor <= |input|
        invariant ScanState(rules, input, output, copiedUntil, cursor, changed)
      {
        var matched := FindRule(rules, input, cursor);
        if matched.Some? {
          var rule := matched.value;
          TurnOnMatch(rules, input, output, copiedUntil, cursor, changed, rule);
          output := output + Slice(input, copiedUntil, cursor);
          output := output + rule.to;
          cursor := cursor + |rule.from|;
          copiedUntil := cursor;
          changed := true;
        } else {
          TurnOnNothing(rules, input, output, copiedUntil, cursor, changed);
          cursor := cursor + ScalarLen(input, cursor);
        }
      }
      ScanEnds(rules, input, output, copiedUntil, changed);
      if changed {
        output := output + Slice(input, copiedUntil, |input|);
        out := Owned(output);
      } else {
        out := Borrowed(input);
      }
    }
  }
}
