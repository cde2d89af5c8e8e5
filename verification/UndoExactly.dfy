/** When exactly rewriting undoes routing, on every well-formed table. */
module UndoExactly {
  import opened Text
  import opened Hosts
  import opened Plans
  import opened Rewriting
  import opened Runs
  import opened RewriteLaws
  import opened RoundTrip
  import opened Routing
  import opened RoutingUndo
  import opened MatchedHosts
  import opened WildcardOrder

  /** The table pairs the host with the upstream: the host is routed to it, or recorded as the incoming
      host for it. A wildcard apex is recorded also when something else takes its requests. */
  ghost predicate Paired(t: RouteTable, h: Text, u: Text) {
    Routes(t, h, u) || (u, h) in CandidatePairs(t)
  }

  /** No upstream is paired with two hosts. */
  ghost predicate Unambiguous(t: RouteTable) {
    forall h, h', u {:trigger Paired(t, h, u), Paired(t, h', u)} :: Paired(t, h, u) && Paired(t, h', u) ==> h == h'
  }

  /** No host that is routed to itself ends in an upstream for which another host is recorded. */
  ghost predicate IdentitiesUndisturbed(t: RouteTable) {
    forall h, p {:trigger Routes(t, h, h), p in CandidatePairs(t)} ::
      Routes(t, h, h) && p in CandidatePairs(t) && p.0 != p.1 ==> !LabelSuffix(p.0, h)
  }

  // ---- sufficient ----

  lemma SelectedIsPaired(t: RouteTable, m: MatchedRoute, k: Text)
    requires WellFormed(t) && Matched(t, m) && k in Selected(t, m) && AllHost(k)
    ensures Paired(t, Selected(t, m)[k], k)
  {
    if k == m.upstreamHost { MatchedIsRouted(t, m); }
    TargetsAreMin(CandidatePairs(t));
  }

  lemma ApexIsPair(t: RouteTable, k: nat)
    requires WellFormed(t) && k < |t.wildcard|
    ensures (Apex(t.wildcard[k].upstreamSuffix), Apex(t.wildcard[k].incomingSuffix)) in CandidatePairs(t)
    ensures Apex(t.wildcard[k].upstreamSuffix) in LexicalTargets(t)
  {
    WildcardPair(t, k);
    TargetsAreMin(CandidatePairs(t));
  }

  /** The rules of a plan leave a host alone that is routed to itself. */
  lemma RuleMissesIdentity(t: RouteTable, m: MatchedRoute, h: Text, f: Text)
    requires WellFormed(t) && IdentitiesUndisturbed(t)
    requires Matched(t, m) && Routes(t, h, h)
    requires f in Selected(t, m) && Selected(t, m)[f] != f
    ensures !LabelSuffix(f, h)
  {
    TargetsAreMin(CandidatePairs(t));
    if f == m.upstreamHost {
      var a := HowAccepted(t, m.incomingHost);
      match a
      case ByRoute(i) => ExactPair(t, i); assert (f, m.incomingHost) in CandidatePairs(t);
      case ByApex(k) => ApexIsPair(t, k);
      case ByLabel(k, p) =>
        ApexIsPair(t, k);
        LabelRuleMisses(t, h, k, p);
    }
  }

  lemma LabelRuleMisses(t: RouteTable, h: Text, k: nat, p: Text)
    requires WellFormed(t) && IdentitiesUndisturbed(t) && Routes(t, h, h) && k < |t.wildcard|
    requires t.wildcard[k].incomingSuffix != t.wildcard[k].upstreamSuffix
    ensures !LabelSuffix(p + t.wildcard[k].upstreamSuffix, h)
  {
    var up := t.wildcard[k].upstreamSuffix;
    ApexIsPair(t, k);
    ApexOfPlain(up);
    ApexOfPlain(t.wildcard[k].incomingSuffix);
    RestIsSuffix(p, up);
    if LabelSuffix(p + up, h) { SuffixOfSuffix(up[1..], p + up, h); }
  }

  lemma IdentityIsKept(t: RouteTable, m: MatchedRoute, h: Text)
    requires WellFormed(t) && IdentitiesUndisturbed(t)
    requires Matched(t, m) && Routes(t, h, h)
    ensures RewriteRun(PlanFor(t, m), h) == h
  {
    PlanMembers(t, m);
    forall r | r in PlanFor(t, m) ensures !LabelSuffix(r.from, h) {
      assert TargetRule(r, Selected(t, m));
      RuleMissesIdentity(t, m, h, r.from);
    }
    NoSuffixNoChange(PlanFor(t, m), h);
  }

  lemma NoSuffixNoChange(rules: seq<Rule>, h: Text)
    requires forall r :: r in rules ==> !LabelSuffix(r.from, h)
    ensures RewriteRun(rules, h) == h
  {
  }

  /** The rules of a plan leave the apex of a wildcard rule alone that changes nothing. */
  lemma RuleMissesApex(t: RouteTable, m: MatchedRoute, k: nat, f: Text)
    requires WellFormed(t) && DistinctRules(t.wildcard) && IdentitiesUndisturbed(t) && Matched(t, m)
    requires k < |t.wildcard| && t.wildcard[k].incomingSuffix == t.wildcard[k].upstreamSuffix
    requires f in Selected(t, m) && Selected(t, m)[f] != f
    ensures !LabelSuffix(f, t.wildcard[k].upstreamSuffix[1..])
  {
    var up := t.wildcard[k].upstreamSuffix;
    var x := FreshLabelExists(t);
    FreshIsRouted(t, k, x);
    RuleMissesIdentity(t, m, x + up, f);
    MissesRest(f, x, up);
  }

  /** What no label suffix of the whole is, none of the rest is either. */
  lemma MissesRest(f: Text, x: Text, s: Text)
    requires PlainSuffix(s) && !LabelSuffix(f, x + s)
    ensures !LabelSuffix(f, s[1..])
  {
    RestIsSuffix(x, s);
    if LabelSuffix(f, s[1..]) { SuffixOfSuffix(f, s[1..], x + s); }
  }

  /** The rest of a wildcard rule becomes its apex. */
  lemma RestRestored(t: RouteTable, m: MatchedRoute, k: nat)
    requires WellFormed(t) && DistinctRules(t.wildcard) && Unambiguous(t) && IdentitiesUndisturbed(t)
    requires Matched(t, m) && k < |t.wildcard|
    ensures RewriteRun(PlanFor(t, m), t.wildcard[k].upstreamSuffix[1..]) == t.wildcard[k].incomingSuffix[1..]
  {
    var inc, up := t.wildcard[k].incomingSuffix, t.wildcard[k].upstreamSuffix;
    ApexOfPlain(inc);
    ApexOfPlain(up);
    ApexIsPair(t, k);
    PlanMembers(t, m);
    if inc == up {
      forall r | r in PlanFor(t, m) ensures !LabelSuffix(r.from, up[1..]) {
        assert TargetRule(r, Selected(t, m));
        RuleMissesApex(t, m, k, r.from);
      }
      NoSuffixNoChange(PlanFor(t, m), up[1..]);
    } else {
      SelectedIsPaired(t, m, up[1..]);
      assert Paired(t, inc[1..], up[1..]);
      assert inc == "." + inc[1..] && up == "." + up[1..];
      RestoredByOwnRule(PlanFor(t, m), Selected(t, m), up[1..], inc[1..]);
    }
  }

  /** So does the rest below a label, unless there is a rule for the whole. */
  lemma LabelRestored(t: RouteTable, m: MatchedRoute, k: nat, p: Text)
    requires WellFormed(t) && DistinctRules(t.wildcard) && Unambiguous(t) && IdentitiesUndisturbed(t)
    requires Matched(t, m) && k < |t.wildcard| && AllHost(p) && Lower(p) == p && '.' !in p
    requires var u := p + t.wildcard[k].upstreamSuffix; u in Selected(t, m) ==> Selected(t, m)[u] == u
    ensures RewriteRun(PlanFor(t, m), p + t.wildcard[k].upstreamSuffix) == p + t.wildcard[k].incomingSuffix
  {
    PlanMembers(t, m);
    RestRestored(t, m, k);
    LabelKept(PlanFor(t, m), Selected(t, m), p, t.wildcard[k].upstreamSuffix, t.wildcard[k].incomingSuffix);
  }

  lemma LabelKept(rules: seq<Rule>, sel: map<Text, Text>, p: Text, up: Text, inc: Text)
    requires PlanOfTargets(rules, sel) && PlainSuffix(up) && PlainSuffix(inc)
    requires AllHost(p) && Lower(p) == p && '.' !in p && (p + up in sel ==> sel[p + up] == p + up)
    requires RewriteRun(rules, up[1..]) == inc[1..]
    ensures RewriteRun(rules, p + up) == p + inc
  {
    NoRuleFor(rules, sel, p + up);
    RunUnderLabel(rules, p, up);
    LabelParts(p, inc);
  }

  lemma NoRuleFor(rules: seq<Rule>, sel: map<Text, Text>, u: Text)
    requires PlanOfTargets(rules, sel) && (u in sel ==> sel[u] == u)
    ensures forall r :: r in rules ==> r.from != u
  {
    assert forall r :: r in rules ==> TargetRule(r, sel);
  }

  lemma LabelParts(p: Text, s: Text)
    requires PlainSuffix(s)
    ensures p + s == p + "." + s[1..]
  {
  }

  lemma UndoHost(t: RouteTable, m: MatchedRoute, h: Text, u: Text)
    requires WellFormed(t) && DistinctRules(t.wildcard) && Unambiguous(t) && IdentitiesUndisturbed(t)
    requires Matched(t, m) && Routes(t, h, u)
    ensures RewriteRun(PlanFor(t, m), u) == h
  {
    if h == u {
      IdentityIsKept(t, m, h);
    } else if u in Selected(t, m) {
      RoutedArePlain(t, h, u);
      SelectedIsPaired(t, m, u);
      assert Paired(t, h, u);
      PlanMembers(t, m);
      RestoredByOwnRule(PlanFor(t, m), Selected(t, m), u, h);
    } else {
      var a := HowAccepted(t, h);
      if !a.ByLabel? { AcceptanceIsCandidate(t, h, u, a); }
      AcceptedArePlain(t, h, u, a);
      LabelRestored(t, m, a.rule, a.prefix);
    }
  }

  // ---- necessary ----

  /** Undoing, said of plain hosts. */
  lemma UndoOnHosts(t: RouteTable, h: Text, u: Text, h': Text, u': Text)
    requires WellFormed(t) && RewritingUndoesRouting(t) && Routes(t, h, u) && Routes(t, h', u')
    ensures MatchNormalized(t, h).value.incomingHost == h
    ensures RewriteRun(PlanFor(t, MatchNormalized(t, h).value), u') == h'
  {
    RoutesAccepted(t, h, u);
    RoutesAccepted(t, h', u');
    PlainRequest(h');
    var m := MatchNormalized(t, h).value;
    PlanForIsValid(t, m);
    RoutedArePlain(t, h', u');
    RewriteHost(PlanFor(t, m), u');
    assert Some(Undone(t, h, h')) == NormalizeRequestHost(h');
  }

  lemma {:induction false} Bound(pairs: Pairs) returns (n: nat)
    ensures forall p :: p in pairs ==> |p.0| <= n && |p.1| <= n
  {
    n := 0;
    if pairs != [] {
      var last := pairs[|pairs| - 1];
      var k := Bound(pairs[..|pairs| - 1]);
      n := k + |last.0| + |last.1|;
      assert forall p :: p in pairs ==> p in pairs[..|pairs| - 1] || p == last;
    }
  }

  /** A label longer than every host of the table. */
  ghost predicate FreshLabel(t: RouteTable, x: Text) {
    && x != [] && AllHost(x) && Lower(x) == x && '.' !in x
    && forall p :: p in CandidatePairs(t) ==> |p.0| < |x| && |p.1| < |x|
  }

  lemma FreshLabelExists(t: RouteTable) returns (x: Text)
    ensures FreshLabel(t, x)
  {
    var n := Bound(CandidatePairs(t));
    x := seq(n + 1, _ => 'a');
    assert Lower(x) == x;
  }

  /** Under a wildcard rule a fresh label is routed by that rule. */
  lemma FreshIsRouted(t: RouteTable, j: nat, x: Text)
    requires WellFormed(t) && DistinctRules(t.wildcard) && j < |t.wildcard| && FreshLabel(t, x)
    ensures Routes(t, x + t.wildcard[j].incomingSuffix, x + t.wildcard[j].upstreamSuffix)
  {
    var h := x + t.wildcard[j].incomingSuffix;
    PlainLabel(x, t.wildcard[j].incomingSuffix);
    FreshIsNotExact(t, h, x);
    FreshMeetsRule(t, j, x);
    FirstWildcardIsFirst(t.wildcard, h, 0);
    var k := FirstWildcard(t.wildcard, h, 0);
    FreshMeetsOnly(t, j, k, x);
  }

  lemma FreshIsNotExact(t: RouteTable, h: Text, x: Text)
    requires WellFormed(t) && FreshLabel(t, x) && |h| >= |x|
    ensures h !in t.exact
  {
    var i := IndexHoldsLast(t.orderedExact, h);
    if i < |t.orderedExact| { ExactPair(t, i); }
  }

  lemma FreshMeetsRule(t: RouteTable, j: nat, x: Text)
    requires WellFormed(t) && j < |t.wildcard| && FreshLabel(t, x)
    ensures RuleUpstream(t.wildcard[j], x + t.wildcard[j].incomingSuffix) == Some(x + t.wildcard[j].upstreamSuffix)
  {
    var inc := t.wildcard[j].incomingSuffix;
    ApexIsPair(t, j);
    assert StripSuffix(x + inc, inc) == Some(x);
  }

  lemma SameSplit(x: Text, s: Text, p: Text, s': Text)
    requires x + s == p + s' && SingleDot(s) && SingleDot(s') && '.' !in x && '.' !in p
    ensures s == s'
  {
    DotAtFirst(x + s, x, s);
    DotAtFirst(x + s, p, s');
  }

  lemma FreshMeetsOnly(t: RouteTable, j: nat, k: nat, x: Text)
    requires WellFormed(t) && DistinctRules(t.wildcard) && j < |t.wildcard| && k < |t.wildcard| && FreshLabel(t, x)
    requires RuleUpstream(t.wildcard[k], x + t.wildcard[j].incomingSuffix).Some?
    ensures k == j
  {
    ApexIsPair(t, k);
    MeetsSuffix(t.wildcard[k], x, t.wildcard[j].incomingSuffix);
  }

  /** A rule whose apex is shorter accepts a label in front of a suffix only if the suffix is its own. */
  lemma MeetsSuffix(rule: WildcardRule, x: Text, s: Text)
    requires PlainSuffix(s) && PlainSuffix(rule.incomingSuffix) && '.' !in x
    requires |Apex(rule.incomingSuffix)| < |x| && RuleUpstream(rule, x + s).Some?
    ensures s == rule.incomingSuffix
  {
    assert |Apex(rule.incomingSuffix)| < |x + s|;
    var p := StripSuffix(x + s, rule.incomingSuffix).value;
    assert x + s == p + rule.incomingSuffix;
    SameSplit(x, s, p, rule.incomingSuffix);
  }

  /** A label that makes a host no rule has does not matter to what its parent is rewritten to. */
  lemma RunUnderLabel(rules: seq<Rule>, x: Text, s: Text)
    requires ValidPlan(rules) && PlainSuffix(s) && AllHost(x) && Lower(x) == x && '.' !in x
    requires forall r :: r in rules ==> r.from != x + s
    ensures RewriteRun(rules, x + s) == x + "." + RewriteRun(rules, s[1..])
  {
    var run, rest := x + s, s[1..];
    forall q | q in rules ensures LabelSuffix(q.from, run) <==> LabelSuffix(q.from, rest) {
      SuffixUnderLabel(q, x, s);
    }
    SameLongestSuffix(rules, run, rest);
    assert run == (x + ".") + rest;
    KeepsPrefix(rules, x + ".", rest);
  }

  lemma SuffixUnderLabel(q: Rule, x: Text, s: Text)
    requires PlainSuffix(s) && AllHost(x) && Lower(x) == x && '.' !in x
    requires Lower(q.from) == q.from && q.from != x + s
    ensures LabelSuffix(q.from, x + s) <==> LabelSuffix(q.from, s[1..])
  {
    RestIsSuffix(x, s);
    if LabelSuffix(q.from, x + s) { ShorterThanApex(q, x, s); SuffixOfRest(q.from, x, s); }
    if LabelSuffix(q.from, s[1..]) { SuffixOfSuffix(q.from, s[1..], x + s); }
  }

  lemma ShorterThanApex(q: Rule, x: Text, s: Text)
    requires PlainSuffix(s) && AllHost(x) && Lower(x) == x && '.' !in x
    requires Lower(q.from) == q.from && q.from != x + s && LabelSuffix(q.from, x + s)
    ensures |q.from| <= |s[1..]|
  {
    ApexOfPlain(s);
    ApexIsLongest(x, s, q);
  }

  lemma SameLongestSuffix(rules: seq<Rule>, run: Text, rest: Text)
    requires ValidPlan(rules)
    requires forall q :: q in rules ==> (LabelSuffix(q.from, run) <==> LabelSuffix(q.from, rest))
    ensures LongestSuffix(rules, run) == LongestSuffix(rules, rest)
  {
    var best := LongestSuffix(rules, rest);
    if best.Some? { LongestSuffixIs(rules, run, best.value); }
  }

  lemma KeepsPrefix(rules: seq<Rule>, p: Text, rest: Text)
    requires LongestSuffix(rules, p + rest) == LongestSuffix(rules, rest)
    ensures RewriteRun(rules, p + rest) == p + RewriteRun(rules, rest)
  {
    var best := LongestSuffix(rules, rest);
    if best.Some? {
      var n := |rest| - |best.value.from|;
      assert |p + rest| - |best.value.from| == |p| + n;
      ReplaceAfter(p, rest, n, best.value.to);
    }
  }

  lemma ReplaceAfter(p: Text, rest: Text, n: nat, to: Text)
    requires n <= |rest|
    ensures (p + rest)[..|p| + n] + to == p + (rest[..n] + to)
  {
  }

  lemma SuffixOfRest(q: Text, x: Text, s: Text)
    requires s != [] && LabelSuffix(s[1..], x + s) && LabelSuffix(q, x + s) && |q| <= |s[1..]|
    ensures LabelSuffix(q, s[1..])
  {
    assert forall i :: 0 <= i < |s| - 1 ==> (x + s)[|x| + 1 + i] == s[1..][i];
  }

  lemma SelectedIsShorter(t: RouteTable, m: MatchedRoute, k: Text, x: Text, n: nat)
    requires FreshLabel(t, x) && |x| <= n && |m.upstreamHost| < n && k in Selected(t, m)
    ensures |k| < n
  {
    TargetsAreMin(CandidatePairs(t));
    assert k != m.upstreamHost ==> (k, LexicalTargets(t)[k]) in CandidatePairs(t);
  }

  lemma FreshIsNoRule(t: RouteTable, m: MatchedRoute, x: Text, s: Text)
    requires WellFormed(t) && Routes(t, m.incomingHost, m.upstreamHost)
    requires FreshLabel(t, x) && |m.upstreamHost| < |x + s|
    ensures forall r :: r in PlanFor(t, m) ==> r.from != x + s
  {
    var u := x + s;
    RoutedIsNormal(t, m);
    PlanMembers(t, m);
    if u in Selected(t, m) { SelectedIsShorter(t, m, u, x, |u|); }
    assert u !in Selected(t, m);
  }

  lemma SameAfterLabel(x: Text, h: Text, s: Text)
    requires PlainSuffix(s) && x + s == x + "." + h
    ensures h == s[1..]
  {
    assert (x + s)[|x| + 1..] == s[1..] && (x + "." + h)[|x| + 1..] == h;
  }

  /** A host routed to the rest of a wildcard rule is the apex of the rule. */
  lemma UndoneRouteIsApex(t: RouteTable, h: Text, k: nat)
    requires WellFormed(t) && DistinctRules(t.wildcard) && RewritingUndoesRouting(t) && k < |t.wildcard|
    requires Routes(t, h, Apex(t.wildcard[k].upstreamSuffix))
    ensures h == Apex(t.wildcard[k].incomingSuffix)
  {
    var inc, up := t.wildcard[k].incomingSuffix, t.wildcard[k].upstreamSuffix;
    ApexOfPlain(up);
    ApexOfPlain(inc);
    var x := FreshLabelExists(t);
    FreshIsRouted(t, k, x);
    UndoOnHosts(t, h, up[1..], h, up[1..]);
    UndoOnHosts(t, h, up[1..], x + inc, x + up);
    var m := MatchNormalized(t, h).value;
    FreshIsNoRule(t, m, x, up);
    PlanForIsValid(t, m);
    RunUnderLabel(PlanFor(t, m), x, up);
    SameAfterLabel(x, h, inc);
  }

  /** Two wildcard rules with the same rest have the same apex. */
  lemma UndoneApexesAgree(t: RouteTable, i: nat, j: nat)
    requires WellFormed(t) && DistinctRules(t.wildcard) && RewritingUndoesRouting(t)
    requires i < |t.wildcard| && j < |t.wildcard|
    requires Apex(t.wildcard[i].upstreamSuffix) == Apex(t.wildcard[j].upstreamSuffix)
    ensures t.wildcard[i].incomingSuffix == t.wildcard[j].incomingSuffix
  {
    ApexOfPlain(t.wildcard[i].upstreamSuffix);
    ApexOfPlain(t.wildcard[j].upstreamSuffix);
    var x := FreshLabelExists(t);
    FreshIsRouted(t, i, x);
    FreshIsRouted(t, j, x);
    var h, h' := x + t.wildcard[i].incomingSuffix, x + t.wildcard[j].incomingSuffix;
    var u := x + t.wildcard[i].upstreamSuffix;
    UndoOnHosts(t, h, u, h, u);
    UndoOnHosts(t, h, u, h', u);
    assert h[|x|..] == t.wildcard[i].incomingSuffix && h'[|x|..] == t.wildcard[j].incomingSuffix;
  }

  lemma HowPaired(t: RouteTable, h: Text, u: Text) returns (k: nat)
    requires WellFormed(t) && Paired(t, h, u)
    ensures Routes(t, h, u)
      || (k < |t.wildcard| && h == Apex(t.wildcard[k].incomingSuffix) && u == Apex(t.wildcard[k].upstreamSuffix))
  {
    k := 0;
    if !Routes(t, h, u) {
      var a := CandidateIsAcceptance(t, (u, h));
      match a
      case ByRoute(i) => ExactRouteMatches(t, i);
      case ByApex(j) => k := j;
    }
  }

  lemma UndoNeedsUnambiguous(t: RouteTable, h: Text, h': Text, u: Text)
    requires WellFormed(t) && DistinctRules(t.wildcard) && RewritingUndoesRouting(t)
    requires Paired(t, h, u) && Paired(t, h', u)
    ensures h == h'
  {
    var k := HowPaired(t, h, u);
    var k' := HowPaired(t, h', u);
    if Routes(t, h, u) {
      if Routes(t, h', u) {
        UndoOnHosts(t, h, u, h, u);
        UndoOnHosts(t, h, u, h', u);
      } else {
        UndoneRouteIsApex(t, h, k');
      }
    } else if Routes(t, h', u) {
      UndoneRouteIsApex(t, h', k);
    } else {
      UndoneApexesAgree(t, k, k');
    }
  }

  lemma RecordedIsPlain(t: RouteTable, p: (Text, Text))
    requires WellFormed(t) && p in CandidatePairs(t)
    ensures PlainHost(p.0) && PlainHost(p.1)
  {
    var a := CandidateIsAcceptance(t, p);
    DeclaredArePlain(t, p.1, p.0, a);
  }

  lemma UndoNeedsUndisturbed(t: RouteTable, h: Text, p: (Text, Text))
    requires WellFormed(t) && Unambiguous(t) && RewritingUndoesRouting(t)
    requires Routes(t, h, h) && p in CandidatePairs(t) && p.0 != p.1
    ensures !LabelSuffix(p.0, h)
  {
    var m := MatchNormalized(t, h).value;
    UndoOnHosts(t, h, h, h, h);
    RoutedIsMatched(t, h, h);
    PlanMembers(t, m);
    RecordedIsPlain(t, p);
    TargetsAreMin(CandidatePairs(t));
    assert Paired(t, p.1, p.0);
    SelectedIsPaired(t, m, p.0);
    var r := Rule(p.0, p.1);
    assert TargetRule(r, Selected(t, m));
    RewrittenByOther(PlanFor(t, m), h, r);
  }

  /** A host that ends in the host of a rule is changed when every rule changes something. */
  lemma RewrittenByOther(rules: seq<Rule>, h: Text, r: Rule)
    requires ValidPlan(rules) && r in rules && Lower(h) == h
    requires forall q :: q in rules ==> q.from != q.to
    ensures LabelSuffix(r.from, h) ==> RewriteRun(rules, h) != h
  {
    var best := LongestSuffix(rules, h);
    if best.Some? { ReplacedDiffers(h, best.value.from, best.value.to); }
  }

  lemma ReplacedDiffers(h: Text, f: Text, to: Text)
    requires Lower(f) == f && Lower(h) == h && LabelSuffix(f, h) && f != to
    ensures h[..|h| - |f|] + to != h
  {
    var n := |h| - |f|;
    SuffixOfLower(f, h);
    assert h == h[..n] + f;
    ConcatDiffers(h[..n], f, to);
  }

  lemma SuffixOfLower(q: Text, h: Text)
    requires Lower(q) == q && Lower(h) == h && LabelSuffix(q, h)
    ensures q == h[|h| - |q|..]
  {
    var n := |h| - |q|;
    forall k | 0 <= k < |q| ensures q[k] == h[n + k] {
      assert Lower(q)[k] == LowerByte(h[n + k]) == Lower(h)[n + k];
    }
  }

  // ---- the theorem ----

  /** On every well-formed table, rewriting undoes routing exactly when no upstream is paired with two hosts
      and no host that is routed to itself ends in an upstream that stands for another. */
  lemma UndoIffUnambiguous(t: RouteTable)
    requires WellFormed(t) && DistinctRules(t.wildcard)
    ensures RewritingUndoesRouting(t) <==> Unambiguous(t) && IdentitiesUndisturbed(t)
  {
    if Unambiguous(t) && IdentitiesUndisturbed(t) {
      forall r, r' | Accepted(t, r) && Accepted(t, r') ensures Some(Undone(t, r, r')) == NormalizeRequestHost(r') {
        UndoRequest(t, r, r');
      }
    }
    if RewritingUndoesRouting(t) {
      forall h, h', u | Paired(t, h, u) && Paired(t, h', u) ensures h == h' { UndoNeedsUnambiguous(t, h, h', u); }
      forall h, p | Routes(t, h, h) && p in CandidatePairs(t) && p.0 != p.1 ensures !LabelSuffix(p.0, h) {
        UndoNeedsUndisturbed(t, h, p);
      }
    }
  }

  lemma UndoRequest(t: RouteTable, r: Text, r': Text)
    requires WellFormed(t) && DistinctRules(t.wildcard) && Unambiguous(t) && IdentitiesUndisturbed(t)
    requires MatchHost(t, r).Some? && Accepted(t, r')
    ensures Some(Undone(t, r, r')) == NormalizeRequestHost(r')
  {
    var m, m' := MatchHost(t, r).value, MatchHost(t, r').value;
    RequestMatched(t, r);
    AcceptedRoutes(t, r');
    UndoHost(t, m, m'.incomingHost, m'.upstreamHost);
    PlanForIsValid(t, m);
    RoutedArePlain(t, m'.incomingHost, m'.upstreamHost);
    RewriteHost(PlanFor(t, m), m'.upstreamHost);
  }

  /** When every apex belongs to its rule and nothing is routed to itself, it is enough, and needed, that no
      two accepted hosts share an upstream. */
  lemma UndoIffInjective(t: RouteTable)
    requires WellFormed(t) && DistinctRules(t.wildcard) && ApexesOwned(t) && NoIdentity(t)
    ensures RewritingUndoesRouting(t) <==> RoutingInjective(t)
  {
    UndoIffUnambiguous(t);
    forall h, u | Paired(t, h, u) ensures Routes(t, h, u) { var k := HowPaired(t, h, u); }
    forall h | Routes(t, h, h) ensures false {
      var a := HowAccepted(t, h);
      NotIdentity(t, h, h, a);
    }
    if RoutingInjective(t) {
      forall h, h', u | Paired(t, h, u) && Paired(t, h', u) ensures h == h' { InjectiveOnHosts(t, h, h', u); }
    }
    if Unambiguous(t) {
      forall r, r' | Accepted(t, r) && Accepted(t, r') && SameUpstream(t, r, r') ensures SameIncoming(t, r, r') {
        AcceptedRoutes(t, r);
        AcceptedRoutes(t, r');
        assert Paired(t, MatchHost(t, r).value.incomingHost, MatchHost(t, r).value.upstreamHost);
        assert Paired(t, MatchHost(t, r').value.incomingHost, MatchHost(t, r').value.upstreamHost);
      }
    }
  }
}
