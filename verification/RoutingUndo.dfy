/** Rewriting undoes routing: the plan of any matched route turns the upstream of any matched route back
    into the host that was routed to it. */
module RoutingUndo {
  import opened Text
  import opened Hosts
  import opened Plans
  import opened Rewriting
  import opened Runs
  import opened RewriteLaws
  import opened RoundTrip
  import opened Routing

  // ---- tables of well-formed hosts ----

  /** A suffix with exactly one leading dot. */
  predicate PlainSuffix(s: Text) {
    |s| >= 2 && s[0] == '.' && s[1] != '.' && PlainHost(s[1..])
  }

  ghost predicate DistinctHosts(routes: seq<MatchedRoute>) {
    forall i, j :: 0 <= i < j < |routes| ==> routes[i].incomingHost != routes[j].incomingHost
  }

  ghost predicate PlainRoutes(routes: seq<MatchedRoute>) {
    forall i :: 0 <= i < |routes| ==> PlainHost(routes[i].incomingHost) && PlainHost(routes[i].upstreamHost)
  }

  ghost predicate PlainRules(rules: seq<WildcardRule>) {
    forall i :: 0 <= i < |rules| ==> PlainSuffix(rules[i].incomingSuffix) && PlainSuffix(rules[i].upstreamSuffix)
  }

  ghost predicate WellFormed(t: RouteTable) {
    && t.exact == IndexByHost(t.orderedExact) && DistinctHosts(t.orderedExact)
    && PlainRoutes(t.orderedExact) && PlainRules(t.wildcard)
  }

  /** The index holds the last route for a host. */
  lemma {:induction false} IndexHoldsLast(routes: seq<MatchedRoute>, h: Text) returns (i: nat)
    ensures i <= |routes|
    ensures i < |routes| ==>
      routes[i].incomingHost == h && h in IndexByHost(routes) && IndexByHost(routes)[h] == routes[i]
    ensures i < |routes| ==> forall j :: i < j < |routes| ==> routes[j].incomingHost != h
    ensures i == |routes| ==> h !in IndexByHost(routes) && forall j :: 0 <= j < |routes| ==> routes[j].incomingHost != h
  {
    i := |routes|;
    if routes != [] {
      var n := |routes| - 1;
      var k := IndexHoldsLast(routes[..n], h);
      if routes[n].incomingHost == h { i := n; } else if k < n { i := k; }
    }
  }

  /** The first exact route for a host; |routes| if there is none. */
  function FirstRoute(routes: seq<MatchedRoute>, h: Text, i: nat): (k: nat)
    requires i <= |routes|
    ensures i <= k <= |routes| && (k < |routes| ==> routes[k].incomingHost == h)
    ensures forall j :: i <= j < k ==> routes[j].incomingHost != h
    decreases |routes| - i
  {
    if i == |routes| || routes[i].incomingHost == h then i else FirstRoute(routes, h, i + 1)
  }

  /** With distinct incoming hosts the index agrees with a linear search of the list. */
  lemma IndexAgrees(routes: seq<MatchedRoute>, h: Text)
    requires DistinctHosts(routes)
    ensures var k := FirstRoute(routes, h, 0);
      if k < |routes| then h in IndexByHost(routes) && IndexByHost(routes)[h] == routes[k]
      else h !in IndexByHost(routes)
  {
    var i := IndexHoldsLast(routes, h);
    var k := FirstRoute(routes, h, 0);
    if k < |routes| && i < |routes| { SameHostSameRoute(routes, k, i); }
  }

  lemma SameHostSameRoute(routes: seq<MatchedRoute>, i: nat, j: nat)
    requires DistinctHosts(routes) && i < |routes| && j < |routes| && routes[i].incomingHost == routes[j].incomingHost
    ensures i == j
  {
  }

  lemma ExactRouteMatches(t: RouteTable, i: nat)
    requires WellFormed(t) && i < |t.orderedExact|
    ensures MatchNormalized(t, t.orderedExact[i].incomingHost) == Some(t.orderedExact[i])
  {
    var k := IndexHoldsLast(t.orderedExact, t.orderedExact[i].incomingHost);
    SameHostSameRoute(t.orderedExact, i, k);
  }

  // ---- requests and suffixes ----

  lemma NoPort(h: Text)
    requires h != [] && AllHost(h)
    ensures WithoutPort(h) == h
  {
    assert forall i :: 0 <= i < |h| ==> h[i] != ':';
    assert IndexOf(h, ':', 0) == |h| && h[..|h|] == h;
  }

  lemma PlainRequest(h: Text)
    requires PlainHost(h)
    ensures NormalizeRequestHost(h) == Some(h)
  {
    PlainIsNormal(h);
    NoPort(h);
  }

  lemma ApexOfPlain(s: Text)
    requires PlainSuffix(s)
    ensures Apex(s) == s[1..] && s == "." + s[1..]
  {
    assert SkipByte(s, '.', 1) == 1;
  }

  // ---- what an accepted host looks like ----

  /** The ways in which a rule or route accepts a host. */
  datatype Acceptance =
    | ByRoute(route: nat)
    | ByApex(rule: nat)
    | ByLabel(rule: nat, prefix: Text)

  ghost predicate Accepts(t: RouteTable, h: Text, upstream: Text, a: Acceptance) {
    match a
    case ByRoute(i) =>
      i < |t.orderedExact| && t.orderedExact[i].incomingHost == h && t.orderedExact[i].upstreamHost == upstream
    case ByApex(k) =>
      k < |t.wildcard| && h == Apex(t.wildcard[k].incomingSuffix) && upstream == Apex(t.wildcard[k].upstreamSuffix)
    case ByLabel(k, p) =>
      && k < |t.wildcard| && p != [] && '.' !in p
      && h == p + t.wildcard[k].incomingSuffix && upstream == p + t.wildcard[k].upstreamSuffix
  }

  lemma RuleAccepts(t: RouteTable, k: nat, h: Text) returns (a: Acceptance)
    requires k < |t.wildcard| && RuleUpstream(t.wildcard[k], h).Some?
    ensures Accepts(t, h, RuleUpstream(t.wildcard[k], h).value, a) && !a.ByRoute?
  {
    var rule := t.wildcard[k];
    if h == Apex(rule.incomingSuffix) {
      a := ByApex(k);
    } else {
      var p := StripSuffix(h, rule.incomingSuffix).value;
      a := ByLabel(k, p);
      assert h == p + rule.incomingSuffix;
    }
  }

  lemma HowAccepted(t: RouteTable, h: Text) returns (a: Acceptance)
    requires WellFormed(t) && MatchNormalized(t, h).Some?
    ensures MatchNormalized(t, h).value.incomingHost == h
    ensures Accepts(t, h, MatchNormalized(t, h).value.upstreamHost, a)
  {
    var i := IndexHoldsLast(t.orderedExact, h);
    if i < |t.orderedExact| {
      a := ByRoute(i);
    } else {
      a := RuleAccepts(t, FirstWildcard(t.wildcard, h, 0), h);
    }
  }

  lemma SuffixIsHost(s: Text)
    requires PlainSuffix(s)
    ensures AllHost(s) && Lower(s) == s
  {
    assert forall i :: 1 <= i < |s| ==> s[i] == s[1..][i - 1] == Lower(s[1..])[i - 1];
  }

  lemma PlainLabel(p: Text, s: Text)
    requires PlainSuffix(s) && AllHost(p) && Lower(p) == p
    ensures PlainHost(p + s)
  {
    SuffixIsHost(s);
    AllHostConcat(p, s);
    LowerConcat(p, s);
    assert (p + s)[|p + s| - 1] == s[|s| - 1] == s[1..][|s| - 2];
  }

  lemma DeclaredArePlain(t: RouteTable, h: Text, upstream: Text, a: Acceptance)
    requires WellFormed(t) && Accepts(t, h, upstream, a) && !a.ByLabel?
    ensures PlainHost(h) && PlainHost(upstream)
  {
    if a.ByApex? {
      ApexOfPlain(t.wildcard[a.rule].incomingSuffix);
      ApexOfPlain(t.wildcard[a.rule].upstreamSuffix);
    }
  }

  /** An accepted host of host bytes, and its upstream, are plain. */
  lemma AcceptedArePlain(t: RouteTable, h: Text, upstream: Text, a: Acceptance)
    requires WellFormed(t) && Accepts(t, h, upstream, a)
    requires AllHost(h) && Lower(h) == h
    ensures PlainHost(h) && PlainHost(upstream)
    ensures a.ByLabel? ==> AllHost(a.prefix) && Lower(a.prefix) == a.prefix
  {
    if a.ByLabel? {
      LabelIsPlain(a.prefix, t.wildcard[a.rule].incomingSuffix);
      PlainLabel(a.prefix, t.wildcard[a.rule].incomingSuffix);
      PlainLabel(a.prefix, t.wildcard[a.rule].upstreamSuffix);
    } else {
      DeclaredArePlain(t, h, upstream, a);
    }
  }

  lemma LabelIsPlain(p: Text, s: Text)
    requires AllHost(p + s) && Lower(p + s) == p + s
    ensures AllHost(p) && Lower(p) == p
  {
    AllHostConcat(p, s);
    LowerConcat(p, s);
    assert p == (p + s)[..|p|] && Lower(p) == (Lower(p) + Lower(s))[..|p|];
  }

  // ---- accepted hosts, and when routing is injective ----

  /** The request is accepted and its host is made of host bytes. */
  ghost predicate Accepted(t: RouteTable, request: Text) {
    MatchHost(t, request).Some? && AllHost(MatchHost(t, request).value.incomingHost)
  }

  ghost predicate SameUpstream(t: RouteTable, r: Text, r': Text)
    requires MatchHost(t, r).Some? && MatchHost(t, r').Some?
  {
    MatchHost(t, r).value.upstreamHost == MatchHost(t, r').value.upstreamHost
  }

  ghost predicate SameIncoming(t: RouteTable, r: Text, r': Text)
    requires MatchHost(t, r).Some? && MatchHost(t, r').Some?
  {
    MatchHost(t, r).value.incomingHost == MatchHost(t, r').value.incomingHost
  }

  /** No two accepted hosts share an upstream. */
  ghost predicate RoutingInjective(t: RouteTable) {
    forall r, r' {:trigger Accepted(t, r), Accepted(t, r')} ::
      Accepted(t, r) && Accepted(t, r') && SameUpstream(t, r, r') ==> SameIncoming(t, r, r')
  }

  /** No exact route and no earlier rule takes the apex of a wildcard rule away from it. */
  ghost predicate ApexesOwned(t: RouteTable) {
    forall k :: 0 <= k < |t.wildcard| ==>
      Routes(t, Apex(t.wildcard[k].incomingSuffix), Apex(t.wildcard[k].upstreamSuffix))
  }

  ghost predicate NoIdentity(t: RouteTable) {
    && (forall i :: 0 <= i < |t.orderedExact| ==> t.orderedExact[i].incomingHost != t.orderedExact[i].upstreamHost)
    && (forall k :: 0 <= k < |t.wildcard| ==> t.wildcard[k].incomingSuffix != t.wildcard[k].upstreamSuffix)
  }

  /** Plain host h is routed to the given upstream. */
  predicate Routes(t: RouteTable, h: Text, upstream: Text) {
    PlainHost(h) && MatchNormalized(t, h).Some? && MatchNormalized(t, h).value.upstreamHost == upstream
  }

  lemma AcceptedRoutes(t: RouteTable, request: Text)
    requires WellFormed(t) && Accepted(t, request)
    ensures var m := MatchHost(t, request).value;
      NormalizeRequestHost(request) == Some(m.incomingHost) && Routes(t, m.incomingHost, m.upstreamHost)
  {
    var h := NormalizeRequestHost(request).value;
    var a := HowAccepted(t, h);
    NormalizedIsLower(WithoutPort(Trim(request)));
    AcceptedArePlain(t, h, MatchNormalized(t, h).value.upstreamHost, a);
  }

  lemma RoutesAccepted(t: RouteTable, h: Text, upstream: Text)
    requires WellFormed(t) && Routes(t, h, upstream)
    ensures Accepted(t, h) && MatchHost(t, h) == MatchNormalized(t, h) && MatchHost(t, h).value.incomingHost == h
  {
    PlainRequest(h);
    var a := HowAccepted(t, h);
  }

  lemma InjectiveOnHosts(t: RouteTable, h: Text, h': Text, upstream: Text)
    requires WellFormed(t) && RoutingInjective(t) && Routes(t, h, upstream) && Routes(t, h', upstream)
    ensures h == h'
  {
    RoutesAccepted(t, h, upstream);
    RoutesAccepted(t, h', upstream);
  }

  // ---- the rules of a plan ----

  /** The targets the plan of a matched route is made from. */
  ghost function Selected(t: RouteTable, m: MatchedRoute): map<Text, Text> {
    LexicalTargets(t)[m.upstreamHost := m.incomingHost]
  }

  lemma PairIndex(t: RouteTable, p: (Text, Text)) returns (i: nat)
    requires p in CandidatePairs(t)
    ensures i < |CandidatePairs(t)| == |t.orderedExact| + |t.wildcard| && CandidatePairs(t)[i] == p
  {
    var pairs := CandidatePairs(t);
    i :| 0 <= i < |pairs| && pairs[i] == p;
  }

  /** Every recorded pair is an exact route or the apex pair of a wildcard rule. */
  lemma CandidateIsAcceptance(t: RouteTable, p: (Text, Text)) returns (a: Acceptance)
    requires p in CandidatePairs(t)
    ensures Accepts(t, p.1, p.0, a) && !a.ByLabel?
  {
    var i := PairIndex(t, p);
    a := PairAcceptance(t, i);
  }

  lemma PairAcceptance(t: RouteTable, i: nat) returns (a: Acceptance)
    requires i < |CandidatePairs(t)| == |t.orderedExact| + |t.wildcard|
    ensures Accepts(t, CandidatePairs(t)[i].1, CandidatePairs(t)[i].0, a) && !a.ByLabel?
  {
    if i < |t.orderedExact| {
      RoutePairAccepts(t, i);
      a := ByRoute(i);
    } else {
      ApexPairAccepts(t, i - |t.orderedExact|);
      a := ByApex(i - |t.orderedExact|);
    }
  }

  lemma RoutePairAccepts(t: RouteTable, i: nat)
    requires i < |t.orderedExact|
    ensures i < |CandidatePairs(t)|
    ensures Accepts(t, CandidatePairs(t)[i].1, CandidatePairs(t)[i].0, ByRoute(i))
  {
    ExactPair(t, i);
  }

  lemma ApexPairAccepts(t: RouteTable, k: nat)
    requires k < |t.wildcard|
    ensures |t.orderedExact| + k < |CandidatePairs(t)|
    ensures Accepts(t, CandidatePairs(t)[|t.orderedExact| + k].1, CandidatePairs(t)[|t.orderedExact| + k].0, ByApex(k))
  {
    WildcardPair(t, k);
  }

  lemma AcceptanceIsCandidate(t: RouteTable, h: Text, upstream: Text, a: Acceptance)
    requires WellFormed(t) && Accepts(t, h, upstream, a) && !a.ByLabel?
    ensures upstream in LexicalTargets(t)
  {
    TargetsAreMin(CandidatePairs(t));
    match a
    case ByRoute(i) => ExactPair(t, i);
    case ByApex(k) =>
      WildcardPair(t, k);
      ApexOfPlain(t.wildcard[k].incomingSuffix);
      ApexOfPlain(t.wildcard[k].upstreamSuffix);
      assert (upstream, h) in CandidatePairs(t);
  }

  lemma TargetsArePlain(t: RouteTable, m: MatchedRoute, k: Text)
    requires WellFormed(t) && Routes(t, m.incomingHost, m.upstreamHost) && k in Selected(t, m)
    ensures PlainHost(k) && PlainHost(Selected(t, m)[k])
  {
    RoutedArePlain(t, m.incomingHost, m.upstreamHost);
    if k != m.upstreamHost { RecordedArePlain(t, k); }
  }

  lemma RecordedArePlain(t: RouteTable, k: Text)
    requires WellFormed(t) && k in LexicalTargets(t)
    ensures PlainHost(k) && PlainHost(LexicalTargets(t)[k])
  {
    TargetsAreMin(CandidatePairs(t));
    var a := CandidateIsAcceptance(t, (k, LexicalTargets(t)[k]));
    DeclaredArePlain(t, LexicalTargets(t)[k], k, a);
  }

  lemma RoutedArePlain(t: RouteTable, h: Text, upstream: Text)
    requires WellFormed(t) && Routes(t, h, upstream)
    ensures PlainHost(upstream)
  {
    var a := HowAccepted(t, h);
    AcceptedArePlain(t, h, upstream, a);
  }

  /** Neither host of the route is changed by normalising it. */
  ghost predicate NormalRoute(m: MatchedRoute) {
    && m.upstreamHost != []
    && NormalizeHost(m.incomingHost) == m.incomingHost
    && NormalizeHost(m.upstreamHost) == m.upstreamHost
  }

  lemma RoutedIsNormal(t: RouteTable, m: MatchedRoute)
    requires WellFormed(t) && Routes(t, m.incomingHost, m.upstreamHost)
    ensures NormalRoute(m)
  {
    RoutedArePlain(t, m.incomingHost, m.upstreamHost);
    PlainIsNormal(m.incomingHost);
    PlainIsNormal(m.upstreamHost);
  }

  lemma TargetsAreNormal(t: RouteTable, m: MatchedRoute, k: Text)
    requires WellFormed(t) && NormalRoute(m) && k in Selected(t, m)
    ensures k != [] && NormalizeHost(k) == k && NormalizeHost(Selected(t, m)[k]) == Selected(t, m)[k]
  {
    if k != m.upstreamHost {
      RecordedArePlain(t, k);
      PlainIsNormal(k);
      PlainIsNormal(LexicalTargets(t)[k]);
    }
  }

  /** The rules are exactly the targets that differ from their upstream. */
  ghost predicate PlanOfTargets(rules: seq<Rule>, sel: map<Text, Text>) {
    ValidPlan(rules) && forall r :: r in rules <==> TargetRule(r, sel)
  }

  predicate TargetRule(r: Rule, sel: map<Text, Text>) {
    r.from in sel && r.to == sel[r.from] && r.from != r.to
  }

  lemma PlanMembers(t: RouteTable, m: MatchedRoute)
    requires WellFormed(t) && NormalRoute(m)
    ensures PlanOfTargets(PlanFor(t, m), Selected(t, m))
  {
    PlanForIsValid(t, m);
    forall r ensures r in PlanFor(t, m) <==> TargetRule(r, Selected(t, m)) { PlanMember(t, m, r); }
  }

  lemma PlanMember(t: RouteTable, m: MatchedRoute, r: Rule)
    requires WellFormed(t) && NormalRoute(m)
    ensures r in PlanFor(t, m) <==> TargetRule(r, Selected(t, m))
  {
    var sel := Selected(t, m);
    var rules := RulesOf(sel);
    PlanOfIsPlan(rules);
    if r in PlanFor(t, m) {
      assert Smallest(r, rules);
      TargetOfRule(t, m, r);
    }
    if TargetRule(r, sel) {
      TargetIsRule(t, m, r);
      assert HasKey(PlanFor(t, m), r.from);
      var q :| q in PlanFor(t, m) && q.from == r.from;
      assert Smallest(q, rules);
      TargetOfRule(t, m, q);
    }
  }

  lemma TargetOfRule(t: RouteTable, m: MatchedRoute, r: Rule)
    requires WellFormed(t) && NormalRoute(m)
    requires r in RulesOf(Selected(t, m))
    ensures r.from in Selected(t, m) && r.to == Selected(t, m)[r.from]
  {
    var sel := Selected(t, m);
    RulesOfTargets(sel, r);
    var e: Rule :| e.from in sel && e.to == sel[e.from] && Normalized(e) == r;
    TargetsAreNormal(t, m, e.from);
  }

  lemma TargetIsRule(t: RouteTable, m: MatchedRoute, r: Rule)
    requires WellFormed(t) && NormalRoute(m)
    requires TargetRule(r, Selected(t, m))
    ensures r in RulesOf(Selected(t, m)) && Kept(r)
  {
    TargetsAreNormal(t, m, r.from);
    assert Normalized(r) == r;
    RulesOfTargets(Selected(t, m), r);
  }

  lemma PlanIsHostRules(t: RouteTable, m: MatchedRoute)
    requires WellFormed(t) && Routes(t, m.incomingHost, m.upstreamHost)
    ensures HostRules(PlanFor(t, m)) && HostTargets(PlanFor(t, m))
  {
    RoutedIsNormal(t, m);
    PlanMembers(t, m);
    forall r | r in PlanFor(t, m) ensures AllHost(r.from) && HostShaped(r.to) {
      assert TargetRule(r, Selected(t, m));
      TargetsArePlain(t, m, r.from);
    }
  }

  // ---- undoing ----

  /** A host whose upstream is among the targets is restored by its own rule. */
  lemma RestoredByOwnRule(rules: seq<Rule>, sel: map<Text, Text>, u: Text, h: Text)
    requires PlanOfTargets(rules, sel) && u in sel && sel[u] == h && u != h
    ensures RewriteRun(rules, u) == h
  {
    assert TargetRule(Rule(u, h), sel);
    assert LabelSuffix(u, u);
    LongestSuffixIs(rules, u, Rule(u, h));
    assert u[..0] + h == h;
  }

  /** A label suffix of prefix and rest that is shorter than the whole is no longer than rest. */
  lemma SuffixPastLabel(q: Text, prefix: Text, s: Text)
    requires PlainSuffix(s) && AllHost(prefix) && '.' !in prefix
    requires LabelSuffix(q, prefix + s) && |q| < |prefix + s|
    ensures |q| < |s|
  {
    var u := prefix + s;
    var c := |u| - |q|;
    forall i | 0 <= i < |prefix| ensures IsLabelByte(u[i]) {
      assert u[i] == prefix[i] && prefix[i] in prefix && IsHostByte(prefix[i]);
    }
  }

  lemma RestIsSuffix(prefix: Text, s: Text)
    requires PlainSuffix(s)
    ensures LabelSuffix(s[1..], prefix + s)
  {
    var u := prefix + s;
    assert forall k :: 0 <= k < |s| - 1 ==> s[1..][k] == u[|prefix| + 1 + k];
    assert u[|prefix|] == s[0];
  }

  /** No rule has a label suffix of prefix + suffix that is longer than the apex, unless it is the whole. */
  lemma ApexIsLongest(prefix: Text, suffix: Text, q: Rule)
    requires PlainSuffix(suffix) && AllHost(prefix) && Lower(prefix) == prefix && '.' !in prefix
    requires Lower(q.from) == q.from && q.from != prefix + suffix && LabelSuffix(q.from, prefix + suffix)
    ensures |q.from| <= |Apex(suffix)|
  {
    var u := prefix + suffix;
    ApexOfPlain(suffix);
    PlainLabel(prefix, suffix);
    if |q.from| == |u| {
      assert LabelSuffix(u, u);
      LowerSame(q.from, u, u, 0);
    }
    SuffixPastLabel(q.from, prefix, suffix);
  }

  lemma NotIdentity(t: RouteTable, h: Text, upstream: Text, a: Acceptance)
    requires WellFormed(t) && NoIdentity(t) && Accepts(t, h, upstream, a)
    ensures h != upstream
  {
    match a
    case ByRoute(i) =>
    case ByApex(k) =>
      ApexOfPlain(t.wildcard[k].incomingSuffix);
      ApexOfPlain(t.wildcard[k].upstreamSuffix);
    case ByLabel(k, p) =>
      ConcatDiffers(p, t.wildcard[k].incomingSuffix, t.wildcard[k].upstreamSuffix);
  }

  /** What the response plan of a matched route makes of a text. */
  ghost function Response(t: RouteTable, m: MatchedRoute, s: Text): Text {
    PlanForIsValid(t, m);
    Scan(PlanFor(t, m), s, 0)
  }

  /** The response plan of request r, applied to the upstream host of request r'. */
  ghost function Undone(t: RouteTable, r: Text, r': Text): Text
    requires MatchHost(t, r).Some? && MatchHost(t, r').Some?
  {
    Response(t, MatchHost(t, r).value, MatchHost(t, r').value.upstreamHost)
  }

  ghost predicate RewritingUndoesRouting(t: RouteTable) {
    forall r, r' {:trigger Accepted(t, r), Accepted(t, r')} :: Accepted(t, r) && Accepted(t, r') ==>
      Some(Undone(t, r, r')) == NormalizeRequestHost(r')
  }
}
