/** When rewriting undoes routing for every accepted request, whatever bytes its label is made of. */
module UndoEverywhere {
  import opened Text
  import opened Hosts
  import opened Config
  import opened Plans
  import opened Rewriting
  import opened Runs
  import opened RewriteLaws
  import opened RoundTrip
  import opened Routing
  import opened RoutingUndo
  import opened MatchedHosts
  import opened WildcardOrder
  import opened UndoExactly
  import opened UndoFinite
  import opened SpacedHosts

  ghost predicate UndoesEveryRequest(t: RouteTable) {
    forall r, r' {:trigger MatchHost(t, r), MatchHost(t, r')} :: MatchHost(t, r).Some? && MatchHost(t, r').Some? ==>
      Some(Undone(t, r, r')) == NormalizeRequestHost(r')
  }

  /** Every upstream recorded for another host has a dot. */
  predicate TargetsDotted(t: RouteTable) {
    forall p :: p in CandidatePairs(t) && p.0 != p.1 ==> '.' in p.0
  }

  /** If the upstream of the pair is a label without a dot, possibly empty, and the rest of the rule, then its
      host is the same label and the suffix of the rule, unless the pair changes nothing. */
  predicate TargetAgrees(rule: WildcardRule, p: (Text, Text)) {
    match StripSuffix(p.0, rule.upstreamSuffix)
    case None => true
    case Some(l) => '.' in l || p.1 == p.0 || p.1 == l + rule.incomingSuffix
  }

  predicate TargetsAgree(t: RouteTable) {
    forall p, k :: p in CandidatePairs(t) && 0 <= k < |t.wildcard| ==> TargetAgrees(t.wildcard[k], p)
  }

  // ---- one request ----

  /** What the table is when every request for a plain host is undone. */
  ghost predicate Unmistakable(t: RouteTable) {
    WellFormed(t) && DistinctRules(t.wildcard) && Unambiguous(t) && IdentitiesUndisturbed(t)
  }

  /** Below rule k, label b is restored unless its upstream is a target for another host. */
  lemma LabelRestoredIff(t: RouteTable, m: MatchedRoute, k: nat, b: Text)
    requires Unmistakable(t) && Matched(t, m) && k < |t.wildcard|
    requires AllHost(b) && Lower(b) == b && '.' !in b
    ensures var u, h, sel := b + t.wildcard[k].upstreamSuffix, b + t.wildcard[k].incomingSuffix, Selected(t, m);
      RewriteRun(PlanFor(t, m), u) == h <==> u in sel ==> sel[u] == u || sel[u] == h
  {
    var u, sel := b + t.wildcard[k].upstreamSuffix, Selected(t, m);
    PlanMembers(t, m);
    if u in sel && sel[u] != u {
      RestoredByOwnRule(PlanFor(t, m), sel, u, sel[u]);
    } else {
      LabelRestored(t, m, k, b);
    }
  }

  /** No target other than of an identity occurs in the text. */
  ghost predicate FreeOfTargets(sel: map<Text, Text>, s: Text) {
    forall f, i: nat :: f in sel && sel[f] != f ==> !Occurs(f, s, i)
  }

  lemma FreeIffUnmatched(rules: seq<Rule>, sel: map<Text, Text>, s: Text)
    requires PlanOfTargets(rules, sel)
    ensures FreeOfTargets(sel, s) <==> !MatchedSomewhere(rules, s)
  {
    if FreeOfTargets(sel, s) {
      forall c: nat, k | c < |s| && 0 <= k < |rules| ensures !Occurs(rules[k].from, s, c) {
        assert TargetRule(rules[k], sel);
      }
    } else {
      var f, i: nat :| f in sel && sel[f] != f && Occurs(f, s, i);
      assert TargetRule(Rule(f, sel[f]), sel);
      var k :| 0 <= k < |rules| && rules[k] == Rule(f, sel[f]);
      assert !Unmatched(rules, s, i);
    }
  }

  /** For a host under rule k whose label has other bytes, the last of them c: the plan of a plain current
      host restores it exactly when no target occurs before c and what follows c is no target for another. */
  lemma SpacedHostIff(t: RouteTable, m: MatchedRoute, k: nat, a: Text, c: byte, b: Text)
    requires Unmistakable(t) && Routes(t, m.incomingHost, m.upstreamHost) && Matched(t, m)
    requires k < |t.wildcard| && Label(a, c, b) && Lower(a) == a && Lower(b) == b
    ensures var inc, up, sel := t.wildcard[k].incomingSuffix, t.wildcard[k].upstreamSuffix, Selected(t, m);
      Response(t, m, a + ([c] + (b + up))) == a + ([c] + (b + inc))
      <==> FreeOfTargets(sel, a) && (b + up in sel ==> sel[b + up] == b + up || sel[b + up] == b + inc)
  {
    var inc, up, rules := t.wildcard[k].incomingSuffix, t.wildcard[k].upstreamSuffix, PlanFor(t, m);
    PlanMembers(t, m);
    PlanForIsValid(t, m);
    PlanIsHostRules(t, m);
    SuffixIsHost(inc);
    SuffixIsHost(up);
    AllHostConcat(b, inc);
    AllHostConcat(b, up);
    SpacedSplitIff(rules, a, c, b + up, b + inc);
    FreeIffUnmatched(rules, Selected(t, m), a);
    NoIdentityRules(rules, Selected(t, m));
    UnchangedIff(rules, a);
    NoDotAfter(a, c, b);
    LabelRestoredIff(t, m, k, b);
  }

  lemma NoIdentityRules(rules: seq<Rule>, sel: map<Text, Text>)
    requires PlanOfTargets(rules, sel)
    ensures NoIdentities(rules)
  {
    assert forall r :: r in rules ==> TargetRule(r, sel);
  }

  lemma NoDotAfter(a: Text, c: byte, b: Text)
    requires Label(a, c, b)
    ensures '.' !in a && '.' !in b
  {
    assert forall i :: 0 <= i < |a| ==> a[i] in a + ([c] + b);
    assert forall i :: 0 <= i < |b| ==> b[i] == (a + ([c] + b))[|a| + 1 + i];
  }

  // ---- sufficient ----

  lemma LabelHasDot(p: Text, s: Text)
    requires PlainSuffix(s)
    ensures '.' in p + s
  {
    assert (p + s)[|p|] == '.';
  }

  lemma OwnTargetDotted(t: RouteTable, m: MatchedRoute)
    requires WellFormed(t) && TargetsDotted(t) && Matched(t, m)
    requires AllHost(m.upstreamHost) && m.upstreamHost != m.incomingHost
    ensures '.' in m.upstreamHost
  {
    MatchedIsRouted(t, m);
    var k, p := RecordedOrLabel(t, m.incomingHost, m.upstreamHost);
    if (m.upstreamHost, m.incomingHost) !in CandidatePairs(t) { LabelHasDot(p, t.wildcard[k].upstreamSuffix); }
  }

  /** A rule of any plan has a dotted host of host bytes, or is the own rule of a current host with other bytes. */
  lemma RuleKinds(t: RouteTable, m: MatchedRoute, r: Rule)
    requires WellFormed(t) && TargetsDotted(t) && Matched(t, m) && r in PlanFor(t, m)
    ensures (AllHost(r.from) && '.' in r.from)
      || (!AllHost(m.upstreamHost) && r == Rule(m.upstreamHost, m.incomingHost))
  {
    PlanMembers(t, m);
    assert TargetRule(r, Selected(t, m));
    if r.from != m.upstreamHost {
      RecordedArePlain(t, r.from);
      TargetsAreMin(CandidatePairs(t));
      assert (r.from, r.to) in CandidatePairs(t);
    } else if AllHost(m.upstreamHost) {
      OwnTargetDotted(t, m);
    }
  }

  /** The upstream of a label is no target for another host. */
  lemma LabelTargetAgrees(t: RouteTable, m: MatchedRoute, k: nat, b: Text)
    requires Unmistakable(t) && TargetsAgree(t) && Matched(t, m) && k < |t.wildcard|
    requires AllHost(b) && '.' !in b
    ensures var u, h, sel := b + t.wildcard[k].upstreamSuffix, b + t.wildcard[k].incomingSuffix, Selected(t, m);
      u in sel ==> sel[u] == u || sel[u] == h
  {
    var u := b + t.wildcard[k].upstreamSuffix;
    StripLabel(b, t.wildcard[k].upstreamSuffix);
    if u in Selected(t, m) {
      var h := Selected(t, m)[u];
      SuffixIsHost(t.wildcard[k].upstreamSuffix);
      AllHostConcat(b, t.wildcard[k].upstreamSuffix);
      SelectedIsPaired(t, m, u);
      if (u, h) in CandidatePairs(t) {
        assert TargetAgrees(t.wildcard[k], (u, h));
      } else {
        var j, p := RecordedOrLabel(t, h, u);
        UnambiguousIff(t);
        SameLabelSameHost(t, h, u, j, p, k, b);
      }
    }
  }

  lemma SameLabelSameHost(t: RouteTable, h: Text, u: Text, j: nat, p: Text, k: nat, b: Text)
    requires WellFormed(t) && RecordsUnambiguous(t) && Accepts(t, h, u, ByLabel(j, p))
    requires k < |t.wildcard| && '.' !in b && u == b + t.wildcard[k].upstreamSuffix
    ensures h == b + t.wildcard[k].incomingSuffix
  {
    SameSplit(p, t.wildcard[j].upstreamSuffix, b, t.wildcard[k].upstreamSuffix);
    SameSuffixSameApex(t, j, k);
    assert p == u[..|p|] == b;
  }

  /** The current host is the tail, from i on, of the host with label p under rule k. */
  ghost predicate IsTail(m: MatchedRoute, rule: WildcardRule, p: Text, i: nat) {
    i <= |p| && m.upstreamHost == p[i..] + rule.upstreamSuffix && m.incomingHost == p[i..] + rule.incomingSuffix
  }

  lemma OwnOccurs(t: RouteTable, m: MatchedRoute, k: nat, p: Text, i: nat, l: Acceptance)
    requires Unmistakable(t) && Matched(t, m) && k < |t.wildcard| && !AllHost(m.upstreamHost)
    requires l.ByLabel? && Accepts(t, m.incomingHost, m.upstreamHost, l)
    requires '.' !in p && Lower(p) == p && Occurs(m.upstreamHost, p + t.wildcard[k].upstreamSuffix, i)
    ensures IsTail(m, t.wildcard[k], p, i)
  {
    var j, q := l.rule, l.prefix;
    SuffixIsHost(t.wildcard[j].upstreamSuffix);
    AllHostConcat(q, t.wildcard[j].upstreamSuffix);
    LowerConcat(q, t.wildcard[j].incomingSuffix);
    assert q == m.incomingHost[..|q|] && Lower(q) == Lower(m.incomingHost)[..|q|];
    SpacedOccurs(q, t.wildcard[j].upstreamSuffix, p, t.wildcard[k].upstreamSuffix, i);
    UnambiguousIff(t);
    SameSuffixSameApex(t, j, k);
  }

  /** A label without a dot, lower-case, with n bytes up to and with its last other byte. */
  ghost predicate OtherLabel(p: Text, n: nat) {
    '.' !in p && Lower(p) == p && 0 < n <= |p| && !IsHostByte(p[n - 1]) && AllHost(p[n..])
  }

  /** A rule that occurs before the last other byte is that of a current host which is the tail of this one. */
  lemma EarlyRuleIsOwn(t: RouteTable, m: MatchedRoute, k: nat, p: Text, n: nat, i: nat, r: Rule)
    requires Unmistakable(t) && TargetsDotted(t) && Matched(t, m) && k < |t.wildcard| && OtherLabel(p, n)
    requires r in PlanFor(t, m) && i < n && Occurs(r.from, p + t.wildcard[k].upstreamSuffix, i)
    ensures r == Rule(m.upstreamHost, m.incomingHost) && IsTail(m, t.wildcard[k], p, i)
  {
    RuleKinds(t, m, r);
    if AllHost(r.from) && '.' in r.from { DottedOccursLater(r.from, p, n, t.wildcard[k].upstreamSuffix, i); }
    var l := HowAccepted(t, m.incomingHost);
    if !l.ByLabel? { DeclaredArePlain(t, m.incomingHost, m.upstreamHost, l); }
    OwnOccurs(t, m, k, p, i, l);
  }

  lemma NothingEarlier(t: RouteTable, m: MatchedRoute, k: nat, p: Text, n: nat, i: nat, j: nat)
    requires Unmistakable(t) && TargetsDotted(t) && Matched(t, m) && k < |t.wildcard| && OtherLabel(p, n)
    requires j < i < n && IsTail(m, t.wildcard[k], p, i)
    ensures Unmatched(PlanFor(t, m), p + t.wildcard[k].upstreamSuffix, j)
  {
    var rules, up := PlanFor(t, m), t.wildcard[k].upstreamSuffix;
    assert |m.upstreamHost| == |p| - i + |up|;
    forall c | 0 <= c < |rules| ensures !Occurs(rules[c].from, p + up, j) {
      if Occurs(rules[c].from, p + up, j) { EarlyRuleIsOwn(t, m, k, p, n, j, rules[c]); }
    }
  }

  lemma EarlyMatch(t: RouteTable, m: MatchedRoute, k: nat, p: Text, n: nat, i: nat)
    requires Unmistakable(t) && TargetsDotted(t) && Matched(t, m) && k < |t.wildcard| && OtherLabel(p, n)
    requires i < n && !Unmatched(PlanFor(t, m), p + t.wildcard[k].upstreamSuffix, i)
    ensures FindRule(PlanFor(t, m), p + t.wildcard[k].upstreamSuffix, i) == Some(Rule(m.upstreamHost, m.incomingHost))
    ensures IsTail(m, t.wildcard[k], p, i)
  {
    FindRuleFinds(PlanFor(t, m), p + t.wildcard[k].upstreamSuffix, i);
    EarlyRuleIsOwn(t, m, k, p, n, i, FindRule(PlanFor(t, m), p + t.wildcard[k].upstreamSuffix, i).value);
  }

  lemma EarlyMatchRestores(t: RouteTable, m: MatchedRoute, k: nat, p: Text, n: nat, i: nat)
    requires Unmistakable(t) && TargetsDotted(t) && Matched(t, m) && k < |t.wildcard| && OtherLabel(p, n)
    requires i < n && !Unmatched(PlanFor(t, m), p + t.wildcard[k].upstreamSuffix, i)
    ensures Response(t, m, p + t.wildcard[k].upstreamSuffix) == p + t.wildcard[k].incomingSuffix
  {
    PlanForIsValid(t, m);
    EarlyMatch(t, m, k, p, n, i);
    forall j | 0 <= j < i ensures Unmatched(PlanFor(t, m), p + t.wildcard[k].upstreamSuffix, j) {
      NothingEarlier(t, m, k, p, n, i, j);
    }
    ScanTail(PlanFor(t, m), m, t.wildcard[k], p, i);
  }

  lemma ScanTail(rules: seq<Rule>, m: MatchedRoute, rule: WildcardRule, p: Text, i: nat)
    requires Searchable(rules) && IsTail(m, rule, p, i) && rule.upstreamSuffix != []
    requires FindRule(rules, p + rule.upstreamSuffix, i) == Some(Rule(m.upstreamHost, m.incomingHost))
    requires forall j :: 0 <= j < i ==> Unmatched(rules, p + rule.upstreamSuffix, j)
    ensures Scan(rules, p + rule.upstreamSuffix, 0) == p + rule.incomingSuffix
  {
    ScanToEnd(rules, p + rule.upstreamSuffix, i, Rule(m.upstreamHost, m.incomingHost));
    assert (p + rule.upstreamSuffix)[..i] + (p[i..] + rule.incomingSuffix) == p + rule.incomingSuffix;
  }

  /** If no rule occurs up to the last other byte, only what follows it is rewritten. */
  lemma LateMatchRestores(t: RouteTable, m: MatchedRoute, k: nat, p: Text, n: nat)
    requires Unmistakable(t) && TargetsAgree(t) && Matched(t, m) && k < |t.wildcard| && OtherLabel(p, n)
    requires forall i :: 0 <= i < n ==> Unmatched(PlanFor(t, m), p + t.wildcard[k].upstreamSuffix, i)
    ensures Response(t, m, p + t.wildcard[k].upstreamSuffix) == p + t.wildcard[k].incomingSuffix
  {
    PlanForIsValid(t, m);
    LabelEnd(p, n);
    LabelTargetAgrees(t, m, k, p[n..]);
    LabelRestoredIff(t, m, k, p[n..]);
    ScanLate(PlanFor(t, m), p, n, t.wildcard[k].upstreamSuffix, t.wildcard[k].incomingSuffix);
  }

  lemma ScanLate(rules: seq<Rule>, p: Text, n: nat, up: Text, inc: Text)
    requires ValidPlan(rules) && OtherLabel(p, n) && PlainSuffix(up)
    requires forall i :: 0 <= i < n ==> Unmatched(rules, p + up, i)
    requires RewriteRun(rules, p[n..] + up) == p[n..] + inc
    ensures Scan(rules, p + up, 0) == p + inc
  {
    SuffixIsHost(up);
    AllHostConcat(p[n..], up);
    ScanLastRun(rules, p, n, up, p[n..] + inc);
    assert p[..n] + (p[n..] + inc) == p + inc;
  }

  lemma LabelEnd(p: Text, n: nat)
    requires OtherLabel(p, n)
    ensures '.' !in p[n..] && AllHost(p[n..]) && Lower(p[n..]) == p[n..]
  {
    LowerSlice(p, n, |p|);
    assert p[n..|p|] == p[n..];
  }

  /** Any host under a wildcard rule is restored by the plan of any current host. */
  lemma SpacedRequestRestored(t: RouteTable, m: MatchedRoute, k: nat, p: Text)
    requires Unmistakable(t) && TargetsDotted(t) && TargetsAgree(t) && Matched(t, m) && k < |t.wildcard|
    requires '.' !in p && Lower(p) == p && !AllHost(p)
    ensures Response(t, m, p + t.wildcard[k].upstreamSuffix) == p + t.wildcard[k].incomingSuffix
  {
    var n := RunStart(p, |p|);
    if i: nat :| i < n && !Unmatched(PlanFor(t, m), p + t.wildcard[k].upstreamSuffix, i) {
      EarlyMatchRestores(t, m, k, p, n, i);
    } else {
      LateMatchRestores(t, m, k, p, n);
    }
  }

  lemma MatchRestored(t: RouteTable, m: MatchedRoute, m': MatchedRoute)
    requires Unmistakable(t) && (t.wildcard == [] || (TargetsDotted(t) && TargetsAgree(t)))
    requires Matched(t, m) && Matched(t, m')
    ensures Response(t, m, m'.upstreamHost) == m'.incomingHost
  {
    PlanForIsValid(t, m);
    if AllHost(m'.upstreamHost) {
      MatchedIsRouted(t, m');
      RoutedArePlain(t, m'.incomingHost, m'.upstreamHost);
      UndoHost(t, m, m'.incomingHost, m'.upstreamHost);
      RewriteHost(PlanFor(t, m), m'.upstreamHost);
    } else {
      var k, p := OtherMatch(t, m');
      SpacedRequestRestored(t, m, k, p);
    }
  }

  /** A match with other bytes is one by label. */
  lemma OtherMatch(t: RouteTable, m: MatchedRoute) returns (k: nat, p: Text)
    requires WellFormed(t) && Matched(t, m) && !AllHost(m.upstreamHost)
    ensures k < |t.wildcard| && '.' !in p && Lower(p) == p && !AllHost(p)
    ensures m.upstreamHost == p + t.wildcard[k].upstreamSuffix && m.incomingHost == p + t.wildcard[k].incomingSuffix
  {
    var a := HowAccepted(t, m.incomingHost);
    if !a.ByLabel? { DeclaredArePlain(t, m.incomingHost, m.upstreamHost, a); }
    k, p := a.rule, a.prefix;
    SuffixIsHost(t.wildcard[k].upstreamSuffix);
    AllHostConcat(p, t.wildcard[k].upstreamSuffix);
    LowerConcat(p, t.wildcard[k].incomingSuffix);
    assert p == m.incomingHost[..|p|] && Lower(p) == Lower(m.incomingHost)[..|p|];
  }

  // ---- necessary ----

  /** Any label with other bytes is matched by the rule whose suffix follows it. */
  lemma OtherLabelIsMatched(t: RouteTable, k: nat, p: Text)
    requires WellFormed(t) && DistinctRules(t.wildcard) && k < |t.wildcard| && p != [] && '.' !in p && !AllHost(p)
    ensures var h := p + t.wildcard[k].incomingSuffix;
      MatchNormalized(t, h).Some? && MatchNormalized(t, h).value.upstreamHost == p + t.wildcard[k].upstreamSuffix
      && MatchNormalized(t, h).value.incomingHost == h
  {
    var inc := t.wildcard[k].incomingSuffix;
    LabelAccepted(t.wildcard[k], p);
    FirstWildcardIsFirst(t.wildcard, p + inc, 0);
    OtherLabelNotExact(t, p, inc);
    OtherLabelMeetsOnly(t, k, FirstWildcard(t.wildcard, p + inc, 0), p);
  }

  lemma LabelAccepted(rule: WildcardRule, p: Text)
    requires PlainSuffix(rule.incomingSuffix) && p != [] && '.' !in p && !AllHost(p)
    ensures RuleUpstream(rule, p + rule.incomingSuffix) == Some(p + rule.upstreamSuffix)
  {
    ApexOfPlain(rule.incomingSuffix);
    AllHostConcat(p, rule.incomingSuffix);
    StripLabel(p, rule.incomingSuffix);
  }

  lemma OtherLabelNotExact(t: RouteTable, p: Text, inc: Text)
    requires WellFormed(t) && !AllHost(p)
    ensures p + inc !in t.exact
  {
    AllHostConcat(p, inc);
    var i := IndexHoldsLast(t.orderedExact, p + inc);
  }

  lemma OtherLabelMeetsOnly(t: RouteTable, k: nat, j: nat, p: Text)
    requires WellFormed(t) && DistinctRules(t.wildcard) && k < |t.wildcard| && j < |t.wildcard|
    requires '.' !in p && !AllHost(p)
    requires RuleUpstream(t.wildcard[j], p + t.wildcard[k].incomingSuffix).Some?
    ensures j == k
  {
    OtherLabelMeets(t.wildcard[j], p, t.wildcard[k].incomingSuffix);
  }

  lemma OtherLabelMeets(rule: WildcardRule, p: Text, s: Text)
    requires PlainSuffix(rule.incomingSuffix) && PlainSuffix(s) && '.' !in p && !AllHost(p)
    requires RuleUpstream(rule, p + s).Some?
    ensures rule.incomingSuffix == s
  {
    OtherLabelNotApex(p, s, rule.incomingSuffix);
    StripGives(p + s, rule.incomingSuffix);
    SameSplit(p, s, StripSuffix(p + s, rule.incomingSuffix).value, rule.incomingSuffix);
  }

  lemma OtherLabelNotApex(p: Text, s: Text, inc: Text)
    requires PlainSuffix(inc) && !AllHost(p)
    ensures p + s != Apex(inc)
  {
    AllHostConcat(p, s);
    ApexOfPlain(inc);
  }

  /** Host bytes and spaces. */
  predicate Words(s: Text) {
    forall i :: 0 <= i < |s| ==> IsHostByte(s[i]) || s[i] == ' '
  }

  lemma WordsConcat(a: Text, b: Text)
    requires Words(a) && Words(b)
    ensures Words(a + b)
  {
  }

  /** A label of host bytes, a space and host bytes, under a suffix, is a request for itself. */
  lemma SpacedRequest(x: Text, b: Text, s: Text)
    requires HostShaped(x) && AllHost(b) && Lower(x) == x && Lower(b) == b && PlainSuffix(s)
    ensures NormalizeRequestHost(x + ([' '] + b) + s) == Some(x + ([' '] + b) + s)
  {
    var p, h := x + ([' '] + b), x + ([' '] + b) + s;
    SuffixIsHost(s);
    SuffixEnd(s);
    WordsConcat([' '], b);
    WordsConcat(x, [' '] + b);
    WordsConcat(p, s);
    LowerConcat([' '], b);
    LowerConcat(x, [' '] + b);
    LowerConcat(p, s);
    assert h[0] == x[0] && h[|h| - 1] == s[|s| - 1];
    NormalRequest(h);
  }

  lemma SpacedIsLabel(x: Text, b: Text)
    requires AllHost(b) && '.' !in x && '.' !in b
    ensures Label(x, ' ', b) && !AllHost(x + ([' '] + b)) && x + ([' '] + b) != []
  {
    assert (x + ([' '] + b))[|x|] == ' ';
  }

  lemma LabelTail(a: Text, c: byte, b: Text, s: Text)
    ensures a + ([c] + b) + s == a + ([c] + (b + s))
  {
  }

  lemma SpacedAccepted(t: RouteTable, k: nat, x: Text, b: Text)
    requires WellFormed(t) && DistinctRules(t.wildcard) && k < |t.wildcard|
    requires HostShaped(x) && AllHost(b) && Lower(x) == x && Lower(b) == b && '.' !in x && '.' !in b
    ensures var h := x + ([' '] + b) + t.wildcard[k].incomingSuffix;
      NormalizeRequestHost(h) == Some(h) && MatchHost(t, h).Some?
      && MatchHost(t, h).value.upstreamHost == x + ([' '] + b) + t.wildcard[k].upstreamSuffix
  {
    SpacedIsLabel(x, b);
    OtherLabelIsMatched(t, k, x + ([' '] + b));
    SpacedRequest(x, b, t.wildcard[k].incomingSuffix);
  }

  /** If every request is undone, so is the one with the label x, a space and b, by a plan without an own
      rule that matters. */
  lemma SpacedUndone(t: RouteTable, k: nat, x: Text, b: Text) returns (m: MatchedRoute)
    requires Unmistakable(t) && UndoesEveryRequest(t) && k < |t.wildcard|
    requires HostShaped(x) && AllHost(b) && Lower(x) == x && Lower(b) == b && '.' !in x && '.' !in b
    ensures Matched(t, m) && FreeOfTargets(Selected(t, m), x)
    ensures var u, h, sel := b + t.wildcard[k].upstreamSuffix, b + t.wildcard[k].incomingSuffix, Selected(t, m);
      u in sel ==> sel[u] == u || sel[u] == h
  {
    var up, inc := t.wildcard[k].upstreamSuffix, t.wildcard[k].incomingSuffix;
    var y := FreshLabelExists(t);
    FreshIsRouted(t, k, y);
    RoutedIsMatched(t, y + inc, y + up);
    RoutesAccepted(t, y + inc, y + up);
    m := MatchNormalized(t, y + inc).value;
    SpacedIsLabel(x, b);
    SpacedAccepted(t, k, x, b);
    var r := x + ([' '] + b) + inc;
    assert Some(Undone(t, y + inc, r)) == NormalizeRequestHost(r);
    LabelTail(x, ' ', b, up);
    LabelTail(x, ' ', b, inc);
    SpacedHostIff(t, m, k, x, ' ', b);
  }

  lemma SelectedRecord(t: RouteTable, m: MatchedRoute, p: (Text, Text))
    requires WellFormed(t) && Unambiguous(t) && Matched(t, m) && p in CandidatePairs(t)
    ensures p.0 in Selected(t, m) && Selected(t, m)[p.0] == p.1
  {
    TargetsAreMin(CandidatePairs(t));
    RecordedIsPlain(t, p);
    SelectedIsPaired(t, m, p.0);
    assert Paired(t, p.1, p.0);
  }

  lemma DottedIsNeeded(t: RouteTable, p: (Text, Text))
    requires Unmistakable(t) && UndoesEveryRequest(t) && t.wildcard != [] && p in CandidatePairs(t) && p.0 != p.1
    ensures '.' in p.0
  {
    if '.' !in p.0 {
      RecordedIsPlain(t, p);
      var m := SpacedUndone(t, 0, p.0, []);
      SelectedRecord(t, m, p);
      assert Occurs(p.0, p.0, 0);
    }
  }

  lemma LabelAgreementIsNeeded(t: RouteTable, p: (Text, Text), k: nat, l: Text)
    requires Unmistakable(t) && UndoesEveryRequest(t) && k < |t.wildcard| && p in CandidatePairs(t)
    requires p.0 == l + t.wildcard[k].upstreamSuffix && '.' !in l
    ensures p.1 == p.0 || p.1 == l + t.wildcard[k].incomingSuffix
  {
    RecordedIsPlain(t, p);
    LabelIsPlain(l, t.wildcard[k].upstreamSuffix);
    var m := SpacedUndone(t, k, "a", l);
    SelectedRecord(t, m, p);
  }

  lemma AgreementIsNeeded(t: RouteTable, p: (Text, Text), k: nat)
    requires Unmistakable(t) && UndoesEveryRequest(t) && k < |t.wildcard| && p in CandidatePairs(t)
    ensures TargetAgrees(t.wildcard[k], p)
  {
    var l := StripSuffix(p.0, t.wildcard[k].upstreamSuffix);
    StripGives(p.0, t.wildcard[k].upstreamSuffix);
    if l.Some? && '.' !in l.value { LabelAgreementIsNeeded(t, p, k, l.value); }
  }

  // ---- the theorem ----

  /** Rewriting undoes the routing of every accepted request, by the plan of every accepted request, exactly
      when the recorded pairs are unambiguous and undisturbed and, if there are wildcard rules, every upstream
      recorded for another host has a dot, and one that is a label below the rest of a rule is recorded for
      the same label below its suffix. */
  lemma UndoEveryIff(t: RouteTable)
    requires WellFormed(t) && DistinctRules(t.wildcard)
    ensures UndoesEveryRequest(t) <==>
      RecordsUnambiguous(t) && RecordsUndisturbed(t) && (t.wildcard == [] || (TargetsDotted(t) && TargetsAgree(t)))
  {
    UndoIff(t);
    UndoIffUnambiguous(t);
    if UndoesEveryRequest(t) {
      EveryIncludesPlain(t);
      EveryNeeds(t);
    }
    if RewritingUndoesRouting(t) && (t.wildcard == [] || (TargetsDotted(t) && TargetsAgree(t))) {
      forall r, r' | MatchHost(t, r).Some? && MatchHost(t, r').Some?
        ensures Some(Undone(t, r, r')) == NormalizeRequestHost(r')
      {
        RequestMatched(t, r);
        RequestMatched(t, r');
        MatchRestored(t, MatchHost(t, r).value, MatchHost(t, r').value);
      }
    }
  }

  lemma EveryIncludesPlain(t: RouteTable)
    requires UndoesEveryRequest(t)
    ensures RewritingUndoesRouting(t)
  {
  }

  lemma EveryNeeds(t: RouteTable)
    requires Unmistakable(t) && UndoesEveryRequest(t)
    ensures t.wildcard == [] || (TargetsDotted(t) && TargetsAgree(t))
  {
    if t.wildcard != [] {
      forall p | p in CandidatePairs(t) && p.0 != p.1 ensures '.' in p.0 { DottedIsNeeded(t, p); }
      forall p, k | p in CandidatePairs(t) && 0 <= k < |t.wildcard| ensures TargetAgrees(t.wildcard[k], p) {
        AgreementIsNeeded(t, p, k);
      }
    }
  }
}
