/** What the condition for undoing comes to on tables of exact routes, and on tables of one wildcard rule. */
module UndoTables {
  import opened Text
  import opened Hosts
  import opened Plans
  import opened Rewriting
  import opened Routing
  import opened RoutingUndo
  import opened MatchedHosts
  import opened WildcardOrder
  import opened UndoExactly
  import opened UndoFinite
  import opened UndoEverywhere
  import opened SpacedHosts

  /** A condition on a table without wildcard rules that can be read off its routes: no two share an
      upstream, and no identity route ends in the upstream of a route that is not one. */
  ghost predicate ExactRoutesUndoable(routes: seq<MatchedRoute>) {
    && (forall i, j :: 0 <= i < |routes| && 0 <= j < |routes| && routes[i].upstreamHost == routes[j].upstreamHost ==>
          i == j)
    && (forall i, j :: 0 <= i < |routes| && 0 <= j < |routes| && Identity(routes[i]) && !Identity(routes[j]) ==>
          !LabelSuffix(routes[j].upstreamHost, routes[i].incomingHost))
  }

  predicate Identity(route: MatchedRoute) {
    route.incomingHost == route.upstreamHost
  }

  lemma PairedIsAccepted(t: RouteTable, h: Text, u: Text) returns (a: Acceptance)
    requires WellFormed(t) && Paired(t, h, u)
    ensures Accepts(t, h, u, a)
  {
    if Routes(t, h, u) { a := HowAccepted(t, h); } else { a := CandidateIsAcceptance(t, (u, h)); }
  }

  lemma PairedByRoute(t: RouteTable, h: Text, u: Text) returns (i: nat)
    requires WellFormed(t) && t.wildcard == [] && Paired(t, h, u)
    ensures i < |t.orderedExact| && t.orderedExact[i].incomingHost == h && t.orderedExact[i].upstreamHost == u
  {
    var a := PairedIsAccepted(t, h, u);
    i := a.route;
  }

  lemma RouteIsPaired(t: RouteTable, i: nat)
    requires WellFormed(t) && i < |t.orderedExact|
    ensures var r := t.orderedExact[i];
      Routes(t, r.incomingHost, r.upstreamHost) && (r.upstreamHost, r.incomingHost) in CandidatePairs(t)
  {
    ExactRouteMatches(t, i);
    ExactPair(t, i);
  }

  lemma ExactTableUndoIff(t: RouteTable)
    requires WellFormed(t) && t.wildcard == []
    ensures RewritingUndoesRouting(t) <==> ExactRoutesUndoable(t.orderedExact)
    ensures UndoesEveryRequest(t) <==> ExactRoutesUndoable(t.orderedExact)
  {
    UndoIff(t);
    UndoEveryIff(t);
    UndoIffUnambiguous(t);
    if ExactRoutesUndoable(t.orderedExact) { UndoableRoutesSuffice(t); }
    if Unambiguous(t) && IdentitiesUndisturbed(t) { UndoableRoutesNeeded(t); }
  }

  lemma UndoableRoutesSuffice(t: RouteTable)
    requires WellFormed(t) && t.wildcard == [] && ExactRoutesUndoable(t.orderedExact)
    ensures Unambiguous(t) && IdentitiesUndisturbed(t)
  {
    forall h, h', u | Paired(t, h, u) && Paired(t, h', u) ensures h == h' {
      var i := PairedByRoute(t, h, u);
      var j := PairedByRoute(t, h', u);
    }
    forall h, p | Routes(t, h, h) && p in CandidatePairs(t) && p.0 != p.1 ensures !LabelSuffix(p.0, h) {
      var i := PairedByRoute(t, h, h);
      var j := PairedByRoute(t, p.1, p.0);
    }
  }

  lemma UndoableRoutesNeeded(t: RouteTable)
    requires WellFormed(t) && Unambiguous(t) && IdentitiesUndisturbed(t)
    ensures ExactRoutesUndoable(t.orderedExact)
  {
    var routes := t.orderedExact;
    forall i, j | 0 <= i < |routes| && 0 <= j < |routes| && routes[i].upstreamHost == routes[j].upstreamHost
      ensures i == j
    {
      SameUpstreamSameRoute(t, i, j);
    }
    forall i, j | 0 <= i < |routes| && 0 <= j < |routes| && Identity(routes[i]) && !Identity(routes[j])
      ensures !LabelSuffix(routes[j].upstreamHost, routes[i].incomingHost)
    {
      RouteIsPaired(t, i);
      RouteIsPaired(t, j);
    }
  }

  lemma SameUpstreamSameRoute(t: RouteTable, i: nat, j: nat)
    requires WellFormed(t) && Unambiguous(t) && i < |t.orderedExact| && j < |t.orderedExact|
    requires t.orderedExact[i].upstreamHost == t.orderedExact[j].upstreamHost
    ensures i == j
  {
    RouteIsPaired(t, i);
    RouteIsPaired(t, j);
    var u := t.orderedExact[i].upstreamHost;
    assert Paired(t, t.orderedExact[i].incomingHost, u) && Paired(t, t.orderedExact[j].incomingHost, u);
    SameHostSameRoute(t.orderedExact, i, j);
  }

  /** A wildcard rule takes the host to the upstream: apex to apex, or with the same label in front. */
  ghost predicate Translates(inc: Text, up: Text, front: Option<Text>, h: Text, u: Text)
    requires inc != [] && up != []
  {
    match front
    case None => h == inc[1..] && u == up[1..]
    case Some(p) => h == p + inc && u == p + up
  }

  lemma TranslatesOnce(inc: Text, up: Text, front: Option<Text>, front': Option<Text>, h: Text, h': Text, u: Text)
    requires inc != [] && up != [] && Translates(inc, up, front, h, u) && Translates(inc, up, front', h', u)
    ensures h == h'
  {
    assert front.None? <==> |u| < |up|;
    assert front'.None? <==> |u| < |up|;
    if front.Some? { assert front.value == u[..|u| - |up|] == front'.value; }
  }

  lemma TranslatesToItself(inc: Text, up: Text, front: Option<Text>, h: Text)
    requires inc != [] && up != [] && inc[0] == up[0] && Translates(inc, up, front, h, h)
    ensures inc == up
  {
    match front
    case None => assert inc == [inc[0]] + inc[1..] && up == [up[0]] + up[1..];
    case Some(p) => assert (p + inc)[|p|..] == inc && (p + up)[|p|..] == up;
  }

  lemma AcceptanceTranslates(rule: WildcardRule, t: RouteTable, h: Text, u: Text, a: Acceptance)
    requires PlainSuffix(rule.incomingSuffix) && PlainSuffix(rule.upstreamSuffix)
    requires t.orderedExact == [] && t.wildcard == [rule] && Accepts(t, h, u, a)
    ensures Translates(rule.incomingSuffix, rule.upstreamSuffix, if a.ByLabel? then Some(a.prefix) else None, h, u)
  {
    ApexOfPlain(rule.incomingSuffix);
    ApexOfPlain(rule.upstreamSuffix);
  }

  lemma PairedByRule(t: RouteTable, h: Text, u: Text) returns (front: Option<Text>)
    requires WellFormed(t) && t.orderedExact == [] && |t.wildcard| == 1 && Paired(t, h, u)
    ensures Translates(t.wildcard[0].incomingSuffix, t.wildcard[0].upstreamSuffix, front, h, u)
  {
    var a := PairedIsAccepted(t, h, u);
    AcceptanceTranslates(t.wildcard[0], t, h, u, a);
    front := if a.ByLabel? then Some(a.prefix) else None;
  }

  lemma OneRuleOneHost(t: RouteTable, h: Text, h': Text, u: Text)
    requires WellFormed(t) && t.orderedExact == [] && |t.wildcard| == 1
    requires Paired(t, h, u) && Paired(t, h', u)
    ensures h == h'
  {
    var front := PairedByRule(t, h, u);
    var front' := PairedByRule(t, h', u);
    TranslatesOnce(t.wildcard[0].incomingSuffix, t.wildcard[0].upstreamSuffix, front, front', h, h', u);
  }

  lemma OneRulePair(t: RouteTable, p: (Text, Text))
    requires t.orderedExact == [] && |t.wildcard| == 1 && p in CandidatePairs(t)
    ensures p == (Apex(t.wildcard[0].upstreamSuffix), Apex(t.wildcard[0].incomingSuffix))
  {
    var i := PairIndex(t, p);
    WildcardPair(t, 0);
  }

  lemma OneRuleIdentity(t: RouteTable, h: Text, p: (Text, Text))
    requires WellFormed(t) && t.orderedExact == [] && |t.wildcard| == 1
    requires Routes(t, h, h) && p in CandidatePairs(t)
    ensures p.0 == p.1
  {
    var front := PairedByRule(t, h, h);
    TranslatesToItself(t.wildcard[0].incomingSuffix, t.wildcard[0].upstreamSuffix, front, h);
    OneRulePair(t, p);
  }

  /** A table with one wildcard rule and nothing else undoes the routing of every plain host. */
  lemma OneRuleUndoes(t: RouteTable)
    requires WellFormed(t) && t.orderedExact == [] && |t.wildcard| == 1
    ensures RewritingUndoesRouting(t)
  {
    UndoIffUnambiguous(t);
    forall h, h', u | Paired(t, h, u) && Paired(t, h', u) ensures h == h' { OneRuleOneHost(t, h, h', u); }
    forall h, p | Routes(t, h, h) && p in CandidatePairs(t) ensures p.0 == p.1 { OneRuleIdentity(t, h, p); }
  }

  lemma ShorterTargetAgrees(rule: WildcardRule, p: (Text, Text))
    requires |p.0| < |rule.upstreamSuffix|
    ensures TargetAgrees(rule, p)
  {
  }

  lemma OneRuleTargetAgrees(t: RouteTable, p: (Text, Text))
    requires WellFormed(t) && t.orderedExact == [] && |t.wildcard| == 1 && p in CandidatePairs(t)
    ensures TargetAgrees(t.wildcard[0], p)
  {
    ApexOfPlain(t.wildcard[0].upstreamSuffix);
    OneRulePair(t, p);
    ShorterTargetAgrees(t.wildcard[0], p);
  }

  lemma OneRuleTargetsAgree(t: RouteTable)
    requires WellFormed(t) && t.orderedExact == [] && |t.wildcard| == 1
    ensures TargetsAgree(t)
  {
    var rule := t.wildcard[0];
    forall p | p in CandidatePairs(t) ensures TargetAgrees(rule, p) { OneRuleTargetAgrees(t, p); }
    AllAgreeWithOne(t, rule);
  }

  lemma AllAgreeWithOne(t: RouteTable, rule: WildcardRule)
    requires t.wildcard == [rule] && forall p :: p in CandidatePairs(t) ==> TargetAgrees(rule, p)
    ensures TargetsAgree(t)
  {
  }

  lemma OneRuleTargetsDotted(t: RouteTable)
    requires WellFormed(t) && t.orderedExact == [] && |t.wildcard| == 1
    ensures TargetsDotted(t) <==>
      '.' in Apex(t.wildcard[0].upstreamSuffix) || t.wildcard[0].incomingSuffix == t.wildcard[0].upstreamSuffix
  {
    ApexOfPlain(t.wildcard[0].upstreamSuffix);
    ApexOfPlain(t.wildcard[0].incomingSuffix);
    ApexIsPair(t, 0);
    forall p | p in CandidatePairs(t)
      ensures p == (Apex(t.wildcard[0].upstreamSuffix), Apex(t.wildcard[0].incomingSuffix))
    {
      OneRulePair(t, p);
    }
  }

  /** It undoes the routing of every request exactly when what follows its dot has a dot, or it changes nothing. */
  lemma OneRuleUndoesEvery(t: RouteTable)
    requires WellFormed(t) && t.orderedExact == [] && |t.wildcard| == 1
    ensures UndoesEveryRequest(t) <==>
      '.' in Apex(t.wildcard[0].upstreamSuffix) || t.wildcard[0].incomingSuffix == t.wildcard[0].upstreamSuffix
  {
    OneRuleUndoes(t);
    UndoIff(t);
    UndoEveryIff(t);
    OneRuleTargetsAgree(t);
    OneRuleTargetsDotted(t);
  }
}
