/** The routing table: request host to upstream, and the rewrite targets the other way round. */
module Routing {
  import opened Text
  import opened Hosts
  import opened Config
  import opened Plans
  import opened Rewriting
  import opened RoundTrip

  /** Connection settings of a route with the defaults filled in; carried along unchanged. */
  datatype Settings = Settings(
    bodyRewrite: BodyRewriteMode,
    upstreamProxy: Option<Text>,
    upstreamScheme: UpstreamScheme,
    upstreamPort: nat,
    userAgent: Option<Text>
  )

  datatype MatchedRoute = MatchedRoute(incomingHost: Text, upstreamHost: Text, settings: Settings, scripts: seq<Text>)

  datatype WildcardRule = WildcardRule(
    incomingSuffix: Text,
    upstreamSuffix: Text,
    settings: Settings,
    scripts: seq<Text>
  )

  datatype RouteTable = RouteTable(
    exact: map<Text, MatchedRoute>,
    orderedExact: seq<MatchedRoute>,
    wildcard: seq<WildcardRule>,
    globalScripts: seq<Text>
  )

  function Resolve(s: RouteSettings, defaultBody: BodyRewriteMode, defaultProxy: Option<Text>): Settings {
    Settings(
      if s.bodyRewrite.Some? then s.bodyRewrite.value else defaultBody,
      if s.upstreamProxy.Some? then s.upstreamProxy else defaultProxy,
      s.upstreamScheme,
      match s.upstreamPort case Some(p) => p case None => if s.upstreamScheme.Http? then 80 else 443,
      s.userAgent
    )
  }

  /** The exact routes as a map; of routes with the same incoming host, the last stays. */
  function IndexByHost(routes: seq<MatchedRoute>): map<Text, MatchedRoute> {
    if routes == [] then map[]
    else
      var last := routes[|routes| - 1];
      IndexByHost(routes[..|routes| - 1])[last.incomingHost := last]
  }

  /** `RouteTable::from_config` */
  function FromConfig(config: AppConfig): RouteTable
    reads config
  {
    var ordered := seq(|config.routes|, i requires 0 <= i < |config.routes| reads config =>
      var r := config.routes[i];
      MatchedRoute(r.incoming, r.upstream, Resolve(r.settings, config.defaultBody, config.defaultProxy),
                   config.globalScripts + r.scripts));
    var wildcard := seq(|config.wildcardRoutes|, i requires 0 <= i < |config.wildcardRoutes| reads config =>
      var r := config.wildcardRoutes[i];
      WildcardRule(r.incomingSuffix, r.upstreamSuffix,
                   Resolve(r.settings, config.defaultBody, config.defaultProxy), r.scripts));
    RouteTable(IndexByHost(ordered), ordered, wildcard, config.globalScripts)
  }

  // ---- matching a request host ----

  /** The host part of a `Host` value: the inside of leading brackets, or what is before the first colon. */
  function WithoutPort(host: Text): Text
    requires host != []
  {
    if host[0] == '[' && IndexOf(host, ']', 1) < |host| then host[1..IndexOf(host, ']', 1)]
    else host[..IndexOf(host, ':', 0)]
  }

  function NormalizeRequestHost(host: Text): Option<Text> {
    var trimmed := Trim(host);
    if trimmed == [] then None else Some(NormalizeHost(WithoutPort(trimmed)))
  }

  function Apex(suffix: Text): Text {
    TrimStartByte(suffix, '.')
  }

  /** `strip_suffix` */
  function StripSuffix(s: Text, suffix: Text): Option<Text> {
    if |suffix| <= |s| && s[|s| - |suffix|..] == suffix then Some(s[..|s| - |suffix|]) else None
  }

  /** The upstream a wildcard rule gives to a host: the apex, or one more label in front of the suffix. */
  function RuleUpstream(rule: WildcardRule, host: Text): Option<Text> {
    if host == Apex(rule.incomingSuffix) then Some(Apex(rule.upstreamSuffix))
    else match StripSuffix(host, rule.incomingSuffix)
      case None => None
      case Some(prefix) =>
        if prefix == [] || '.' in prefix then None else Some(prefix + rule.upstreamSuffix)
  }

  /** The first wildcard rule from i on that accepts the host; |rules| if there is none. */
  function FirstWildcard(rules: seq<WildcardRule>, host: Text, i: nat): (k: nat)
    requires i <= |rules|
    ensures i <= k <= |rules|
    ensures k < |rules| ==> RuleUpstream(rules[k], host).Some?
    decreases |rules| - i
  {
    if i == |rules| || RuleUpstream(rules[i], host).Some? then i else FirstWildcard(rules, host, i + 1)
  }

  /** The route a wildcard rule that accepts the host gives it. */
  function RuleRoute(rule: WildcardRule, globalScripts: seq<Text>, host: Text): MatchedRoute
    requires RuleUpstream(rule, host).Some?
  {
    MatchedRoute(host, RuleUpstream(rule, host).value, rule.settings, globalScripts + rule.scripts)
  }

  function MatchWildcard(rules: seq<WildcardRule>, globalScripts: seq<Text>, host: Text): Option<MatchedRoute> {
    var k := FirstWildcard(rules, host, 0);
    if k < |rules| then Some(RuleRoute(rules[k], globalScripts, host)) else None
  }

  function MatchNormalized(t: RouteTable, host: Text): Option<MatchedRoute> {
    if host in t.exact then Some(t.exact[host]) else MatchWildcard(t.wildcard, t.globalScripts, host)
  }

  /** `RouteTable::match_host` */
  function MatchHost(t: RouteTable, host: Text): Option<MatchedRoute> {
    match NormalizeRequestHost(host)
    case None => None
    case Some(h) => MatchNormalized(t, h)
  }

  // ---- rewrite targets ----

  type Pairs = seq<(Text, Text)>

  /** `record_rewrite_target` */
  function Record(selected: map<Text, Text>, from: Text, to: Text): map<Text, Text> {
    if from in selected then if LexLess(to, selected[from]) then selected[from := to] else selected
    else selected[from := to]
  }

  /** The targets after the first n pairs are recorded. */
  function TargetsUpTo(pairs: Pairs, n: nat): map<Text, Text>
    requires n <= |pairs|
  {
    if n == 0 then map[] else Record(TargetsUpTo(pairs, n - 1), pairs[n - 1].0, pairs[n - 1].1)
  }

  function TargetsOf(pairs: Pairs): map<Text, Text> {
    TargetsUpTo(pairs, |pairs|)
  }

  function ExactPairs(routes: seq<MatchedRoute>): (pairs: Pairs)
    ensures |pairs| == |routes|
    ensures forall i :: 0 <= i < |pairs| ==> pairs[i] == (routes[i].upstreamHost, routes[i].incomingHost)
  {
    seq(|routes|, i requires 0 <= i < |routes| => (routes[i].upstreamHost, routes[i].incomingHost))
  }

  function ApexPairs(rules: seq<WildcardRule>): (pairs: Pairs)
    ensures |pairs| == |rules|
    ensures forall i :: 0 <= i < |pairs| ==> pairs[i] == (Apex(rules[i].upstreamSuffix), Apex(rules[i].incomingSuffix))
  {
    seq(|rules|, i requires 0 <= i < |rules| => (Apex(rules[i].upstreamSuffix), Apex(rules[i].incomingSuffix)))
  }

  /** Every (upstream, incoming) pair of the table: the exact routes, then the wildcard apexes. */
  function CandidatePairs(t: RouteTable): Pairs {
    ExactPairs(t.orderedExact) + ApexPairs(t.wildcard)
  }

  function LexicalTargets(t: RouteTable): map<Text, Text> {
    TargetsOf(CandidatePairs(t))
  }

  /** m maps every first component to the least second component it is paired with. */
  ghost predicate PointwiseMin(m: map<Text, Text>, pairs: Pairs) {
    && (forall k :: k in m ==> (k, m[k]) in pairs)
    && (forall p :: p in pairs ==> p.0 in m && !LexLess(p.1, m[p.0]))
  }

  lemma RecordMin(m: map<Text, Text>, pairs: Pairs, p: (Text, Text))
    requires PointwiseMin(m, pairs)
    ensures PointwiseMin(Record(m, p.0, p.1), pairs + [p])
  {
    var r := Record(m, p.0, p.1);
    LexIrreflexive(p.1);
    forall q | q in pairs + [p] ensures q.0 in r && !LexLess(q.1, r[q.0]) {
      if q in pairs && q.0 == p.0 && LexLess(p.1, m[p.0]) && LexLess(q.1, p.1) {
        LexTransitive(q.1, p.1, m[p.0]);
      }
    }
  }

  lemma {:induction false} TargetsUpToAreMin(pairs: Pairs, n: nat)
    requires n <= |pairs|
    ensures PointwiseMin(TargetsUpTo(pairs, n), pairs[..n])
  {
    if n > 0 {
      TargetsUpToAreMin(pairs, n - 1);
      RecordMin(TargetsUpTo(pairs, n - 1), pairs[..n - 1], pairs[n - 1]);
      assert pairs[..n - 1] + [pairs[n - 1]] == pairs[..n];
    }
  }

  lemma TargetsAreMin(pairs: Pairs)
    ensures PointwiseMin(TargetsOf(pairs), pairs)
  {
    TargetsUpToAreMin(pairs, |pairs|);
    assert pairs[..|pairs|] == pairs;
  }

  lemma PointwiseMinUnique(m: map<Text, Text>, m': map<Text, Text>, pairs: Pairs, pairs': Pairs)
    requires PointwiseMin(m, pairs) && PointwiseMin(m', pairs')
    requires forall p :: p in pairs <==> p in pairs'
    ensures m == m'
  {
    forall k ensures k in m <==> k in m' {
      if k in m { assert (k, m[k]) in pairs'; }
      if k in m' { assert (k, m'[k]) in pairs; }
    }
    forall k | k in m ensures m[k] == m'[k] {
      assert (k, m[k]) in pairs' && (k, m'[k]) in pairs;
      LexTotal(m[k], m'[k]);
    }
  }

  /** `lexical_rewrite_targets`: two passes that record into a map. */
  method LexicalRewriteTargets(t: RouteTable) returns (selected: map<Text, Text>)
    ensures selected == LexicalTargets(t)
    ensures PointwiseMin(selected, CandidatePairs(t)) && FirstHosts(selected, CandidatePairs(t))
  {
    selected := RecordExactRoutes(t);
    selected := RecordApexes(t, selected);
    TargetsAreMin(CandidatePairs(t));
    MinIsFirst(selected, CandidatePairs(t));
  }

  /** m maps every first component to the one that comes first, in the order of the codes, of all second
      components it is paired with. */
  ghost predicate FirstHosts(m: map<Text, Text>, pairs: Pairs) {
    && (forall k :: k in m ==> (k, m[k]) in pairs)
    && (forall p :: p in pairs ==> p.0 in m && (p.1 == m[p.0] || Before(m[p.0], p.1)))
  }

  lemma MinIsFirst(m: map<Text, Text>, pairs: Pairs)
    requires PointwiseMin(m, pairs)
    ensures FirstHosts(m, pairs)
  {
    forall p | p in pairs ensures p.1 == m[p.0] || Before(m[p.0], p.1) {
      LexTotal(p.1, m[p.0]);
      LexLessIff(m[p.0], p.1);
    }
  }

  method RecordExactRoutes(t: RouteTable) returns (selected: map<Text, Text>)
    ensures |t.orderedExact| <= |CandidatePairs(t)|
    ensures selected == TargetsUpTo(CandidatePairs(t), |t.orderedExact|)
  {
    ghost var pairs := CandidatePairs(t);
    selected := map[];
    var i := 0;
    while i < |t.orderedExact|
      invariant 0 <= i <= |t.orderedExact| <= |pairs|
      invariant selected == TargetsUpTo(pairs, i)
    {
      var route := t.orderedExact[i];
      ExactPair(t, i);
      selected := Record(selected, route.upstreamHost, route.incomingHost);
      i := i + 1;
    }
  }

  /** The targets after all routes and the first j wildcard rules are recorded. */
  function TargetsAfterRules(t: RouteTable, j: nat): map<Text, Text>
    requires j <= |t.wildcard|
  {
    TargetsUpTo(CandidatePairs(t), |t.orderedExact| + j)
  }

  method RecordApexes(t: RouteTable, selected0: map<Text, Text>) returns (selected: map<Text, Text>)
    requires selected0 == TargetsAfterRules(t, 0)
    ensures selected == LexicalTargets(t)
  {
    selected := selected0;
    var j := 0;
    while j < |t.wildcard|
      invariant 0 <= j <= |t.wildcard| && selected == TargetsAfterRules(t, j)
    {
      var rule := t.wildcard[j];
      ApexStep(t, j);
      selected := Record(selected, Apex(rule.upstreamSuffix), Apex(rule.incomingSuffix));
      j := j + 1;
    }
  }

  lemma ApexStep(t: RouteTable, j: nat)
    requires j < |t.wildcard|
    ensures TargetsAfterRules(t, j + 1)
         == Record(TargetsAfterRules(t, j), Apex(t.wildcard[j].upstreamSuffix), Apex(t.wildcard[j].incomingSuffix))
  {
    WildcardPair(t, j);
  }

  lemma ExactPair(t: RouteTable, i: nat)
    requires i < |t.orderedExact|
    ensures i < |CandidatePairs(t)|
    ensures CandidatePairs(t)[i] == (t.orderedExact[i].upstreamHost, t.orderedExact[i].incomingHost)
  {
  }

  lemma WildcardPair(t: RouteTable, j: nat)
    requires j < |t.wildcard|
    ensures |t.orderedExact| + j < |CandidatePairs(t)|
    ensures CandidatePairs(t)[|t.orderedExact| + j]
         == (Apex(t.wildcard[j].upstreamSuffix), Apex(t.wildcard[j].incomingSuffix))
  {
  }

  // ---- from targets to rules ----

  ghost predicate IsLeast(k: Text, keys: set<Text>) {
    k in keys && forall j {:trigger LexLess(j, k)} :: j in keys ==> !LexLess(j, k)
  }

  lemma {:induction false} LeastExists(keys: set<Text>)
    requires keys != {}
    ensures exists k :: IsLeast(k, keys)
    decreases keys
  {
    var k :| k in keys;
    var rest := keys - {k};
    LexIrreflexive(k);
    if rest == {} {
      assert keys == {k};
      assert IsLeast(k, keys);
    } else {
      LeastExists(rest);
      var l :| IsLeast(l, rest);
      var least := if LexLess(k, l) then k else l;
      forall j | j in keys ensures !LexLess(j, least) {
        if j != k && LexLess(k, l) && LexLess(j, k) { LexTransitive(j, k, l); }
      }
      assert IsLeast(least, keys);
    }
  }

  /** The least key of a non-empty set. */
  ghost function Least(keys: set<Text>): (k: Text)
    requires keys != {}
    ensures IsLeast(k, keys)
  {
    LeastExists(keys);
    var k :| IsLeast(k, keys);
    k
  }

  /** The entries of a map for some of its keys, in the order in which a `BTreeMap` is read. */
  ghost function Entries(m: map<Text, Text>, keys: set<Text>): seq<Rule>
    requires keys <= m.Keys
    decreases keys
  {
    if keys == {} then [] else [Rule(Least(keys), m[Least(keys)])] + Entries(m, keys - {Least(keys)})
  }

  lemma {:induction false} EntriesMembers(m: map<Text, Text>, keys: set<Text>, e: Rule)
    requires keys <= m.Keys
    ensures e in Entries(m, keys) <==> e.from in keys && m[e.from] == e.to
    decreases keys
  {
    if keys != {} { EntriesMembers(m, keys - {Least(keys)}, e); }
  }

  function MapRules(f: Rule -> Rule, rules: seq<Rule>): seq<Rule> {
    if rules == [] then [] else [f(rules[0])] + MapRules(f, rules[1..])
  }

  lemma {:induction false} MapRulesMembers(f: Rule -> Rule, rules: seq<Rule>, r: Rule)
    ensures r in MapRules(f, rules) <==> exists e :: e in rules && f(e) == r
  {
    if rules != [] {
      MapRulesMembers(f, rules[1..], r);
      assert rules == [rules[0]] + rules[1..];
    }
  }

  function Normalized(e: Rule): Rule {
    NewRule(e.from, e.to)
  }

  /** The rules made from the targets. */
  ghost function RulesOf(targets: map<Text, Text>): seq<Rule> {
    MapRules(Normalized, Entries(targets, targets.Keys))
  }

  /** r is the rule made from one of these targets. */
  ghost predicate RuleOfTarget(r: Rule, targets: map<Text, Text>, keys: set<Text>) {
    exists e: Rule :: e.from in keys && e.from in targets && e.to == targets[e.from] && Normalized(e) == r
  }

  lemma RulesOfTargets(targets: map<Text, Text>, r: Rule)
    ensures r in RulesOf(targets) <==> RuleOfTarget(r, targets, targets.Keys)
  {
    MapRulesMembers(Normalized, Entries(targets, targets.Keys), r);
    forall e: Rule ensures e in Entries(targets, targets.Keys) <==> e.from in targets && e.to == targets[e.from] {
      EntriesMembers(targets, targets.Keys, e);
    }
  }

  /** The rules of the response rewrite plan of a matched route. */
  ghost function PlanFor(t: RouteTable, current: MatchedRoute): seq<Rule> {
    PlanOf(RulesOf(LexicalTargets(t)[current.upstreamHost := current.incomingHost]))
  }

  /** `RouteTable::rewrite_plan_for` */
  method RewritePlanFor(t: RouteTable, current: MatchedRoute) returns (plan: RewritePlan)
    ensures plan.rules == PlanFor(t, current)
  {
    var selected := LexicalRewriteTargets(t);
    selected := selected[current.upstreamHost := current.incomingHost];
    var rules := [];
    var keys := selected.Keys;
    while keys != {}
      invariant keys <= selected.Keys
      invariant forall r :: r in rules <==> RuleOfTarget(r, selected, selected.Keys - keys)
      decreases keys
    {
      var k :| k in keys;
      rules := rules + [Normalized(Rule(k, selected[k]))];
      keys := keys - {k};
    }
    plan := RewritePlan.New(rules);
    AnyOrderOfRules(rules, selected);
  }

  lemma AnyOrderOfRules(rules: seq<Rule>, selected: map<Text, Text>)
    requires forall r :: r in rules <==> RuleOfTarget(r, selected, selected.Keys)
    ensures PlanOf(rules) == PlanOf(RulesOf(selected))
  {
    forall r ensures r in rules <==> r in RulesOf(selected) { RulesOfTargets(selected, r); }
    PlanOfIgnoresOrder(rules, RulesOf(selected));
  }

  lemma PlanForIsValid(t: RouteTable, current: MatchedRoute)
    ensures ValidPlan(PlanFor(t, current))
  {
    var targets := LexicalTargets(t)[current.upstreamHost := current.incomingHost];
    forall r | r in RulesOf(targets) ensures Lower(r.from) == r.from {
      RulesOfTargets(targets, r);
      var e: Rule :| e.from in targets && e.to == targets[e.from] && Normalized(e) == r;
      NormalizedIsLower(e.from);
    }
    PlanIsValid(RulesOf(targets));
  }

  /** `all_rewrite_pairs`: the targets, longest upstream first, then bytewise. */
  ghost function AllRewritePairs(t: RouteTable): seq<Rule> {
    SortRules(Entries(LexicalTargets(t), LexicalTargets(t).Keys))
  }

  /** Neither order nor repetition is left: the pairs are the targets, each once, longest upstream first. */
  lemma AllPairsAreTargets(t: RouteTable)
    ensures StrictKeys(AllRewritePairs(t)) && LongestFirst(AllRewritePairs(t))
    ensures forall r :: r in AllRewritePairs(t) <==> r.from in LexicalTargets(t) && LexicalTargets(t)[r.from] == r.to
  {
    var m := LexicalTargets(t);
    var entries := Entries(m, m.Keys);
    var pairs := AllRewritePairs(t);
    SortSorts(entries);
    forall r ensures r in pairs <==> r.from in m && m[r.from] == r.to {
      SortKeeps(entries, r);
      EntriesMembers(m, m.Keys, r);
    }
    EntriesDistinct(m, m.Keys);
    SortDistinct(entries);
    forall i, j | 0 <= i < j < |pairs| ensures KeyLess(pairs[i].from, pairs[j].from) {
      assert RuleLeq(pairs[i], pairs[j]) && pairs[i].from != pairs[j].from;
    }
    StrictIsLongestFirst(pairs);
  }

  ghost predicate DistinctKeys(rules: seq<Rule>) {
    forall i, j :: 0 <= i < j < |rules| ==> rules[i].from != rules[j].from
  }

  lemma {:induction false} EntriesDistinct(m: map<Text, Text>, keys: set<Text>)
    requires keys <= m.Keys
    ensures DistinctKeys(Entries(m, keys))
    decreases keys
  {
    if keys != {} {
      var k := Least(keys);
      var rest := Entries(m, keys - {k});
      EntriesDistinct(m, keys - {k});
      forall j | 0 <= j < |rest| ensures rest[j].from != k {
        assert rest[j] in rest;
        EntriesMembers(m, keys - {k}, rest[j]);
      }
    }
  }

  lemma {:induction false} InsertDistinct(r: Rule, rules: seq<Rule>)
    requires DistinctKeys(rules) && forall q :: q in rules ==> q.from != r.from
    ensures DistinctKeys(InsertRule(r, rules))
  {
    if rules != [] && RuleLess(rules[0], r) {
      var rest := InsertRule(r, rules[1..]);
      InsertDistinct(r, rules[1..]);
      forall j | 0 <= j < |rest| ensures rest[j].from != rules[0].from {
        assert rest[j] in rest;
        InsertKeeps(r, rules[1..], rest[j]);
        assert rest[j] in rules[1..] ==> exists k :: 1 <= k < |rules| && rules[k] == rest[j];
      }
    }
  }

  lemma {:induction false} SortDistinct(rules: seq<Rule>)
    requires DistinctKeys(rules)
    ensures DistinctKeys(SortRules(rules))
  {
    if rules != [] {
      SortDistinct(rules[1..]);
      forall q | q in SortRules(rules[1..]) ensures q.from != rules[0].from {
        SortKeeps(rules[1..], q);
        var k :| 0 <= k < |rules[1..]| && rules[1..][k] == q;
        assert rules[k + 1] == q;
      }
      InsertDistinct(rules[0], SortRules(rules[1..]));
    }
  }

  /** Two tables with the same recorded pairs give the same targets, the same list of pairs and the same plans. */
  lemma SamePairsSamePlans(t: RouteTable, t': RouteTable)
    requires forall p :: p in CandidatePairs(t) <==> p in CandidatePairs(t')
    ensures LexicalTargets(t) == LexicalTargets(t')
    ensures AllRewritePairs(t) == AllRewritePairs(t')
    ensures forall current :: PlanFor(t, current) == PlanFor(t', current)
  {
    TargetsAreMin(CandidatePairs(t));
    TargetsAreMin(CandidatePairs(t'));
    PointwiseMinUnique(LexicalTargets(t), LexicalTargets(t'), CandidatePairs(t), CandidatePairs(t'));
  }

  /** A pair is one of a route or of a wildcard rule. */
  ghost predicate PairOf(p: (Text, Text), routes: multiset<MatchedRoute>, rules: multiset<WildcardRule>) {
    || (exists r :: r in routes && p == (r.upstreamHost, r.incomingHost))
    || (exists r :: r in rules && p == (Apex(r.upstreamSuffix), Apex(r.incomingSuffix)))
  }

  lemma PairsOfTable(t: RouteTable, p: (Text, Text))
    ensures p in CandidatePairs(t) <==> PairOf(p, multiset(t.orderedExact), multiset(t.wildcard))
  {
    var pairs, n := CandidatePairs(t), |t.orderedExact|;
    if p in pairs {
      var i :| 0 <= i < |pairs| && pairs[i] == p;
      if i < n {
        ExactPair(t, i);
        assert t.orderedExact[i] in multiset(t.orderedExact);
      } else {
        WildcardPair(t, i - n);
        assert t.wildcard[i - n] in multiset(t.wildcard);
      }
    }
    if r :| r in multiset(t.orderedExact) && p == (r.upstreamHost, r.incomingHost) {
      var i :| 0 <= i < n && t.orderedExact[i] == r;
      ExactPair(t, i);
    }
    if r :| r in multiset(t.wildcard) && p == (Apex(r.upstreamSuffix), Apex(r.incomingSuffix)) {
      var j :| 0 <= j < |t.wildcard| && t.wildcard[j] == r;
      WildcardPair(t, j);
    }
  }

  /** Two tables with the same routes and wildcard rules, in whatever order, give the same targets, the same
      list of pairs and the same plans. */
  lemma DeclarationOrderIsIrrelevant(t: RouteTable, t': RouteTable)
    requires multiset(t.orderedExact) == multiset(t'.orderedExact) && multiset(t.wildcard) == multiset(t'.wildcard)
    ensures LexicalTargets(t) == LexicalTargets(t')
    ensures AllRewritePairs(t) == AllRewritePairs(t')
    ensures forall current :: PlanFor(t, current) == PlanFor(t', current)
  {
    forall p ensures p in CandidatePairs(t) <==> p in CandidatePairs(t') {
      PairsOfTable(t, p);
      PairsOfTable(t', p);
    }
    SamePairsSamePlans(t, t');
  }
}
