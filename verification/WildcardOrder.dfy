/** Which wildcard rules accept a host, and when their order matters. */
module WildcardOrder {
  import opened Text
  import opened Config
  import opened Routing
  import opened RoutingUndo
  import opened RoundTrip
  import opened Hosts

  /** A suffix with one leading dot. */
  predicate SingleDot(s: Text) {
    s != [] && s[0] == '.' && (|s| == 1 || s[1] != '.')
  }

  ghost predicate DistinctRules(rules: seq<WildcardRule>) {
    forall i, j :: 0 <= i < j < |rules| ==> rules[i].incomingSuffix != rules[j].incomingSuffix
  }

  function FirstDot(h: Text): nat {
    IndexOf(h, '.', 0)
  }

  lemma SingleDotApex(s: Text)
    requires SingleDot(s)
    ensures Apex(s) == s[1..]
  {
    assert SkipByte(s, '.', 1) == 1;
  }

  lemma DotAtFirst(h: Text, p: Text, s: Text)
    requires h == p + s && SingleDot(s) && '.' !in p
    ensures FirstDot(h) == |p| && h[|p|..] == s
  {
    assert h[|p|] == s[0];
    forall i | 0 <= i < |p| ensures h[i] != '.' { assert h[i] == p[i] && p[i] in p; }
  }

  /** A rule accepts a host exactly when its suffix is "." + host, or the host from its first dot on,
      with something in front. */
  lemma RuleAcceptsIff(rule: WildcardRule, h: Text)
    requires SingleDot(rule.incomingSuffix)
    ensures RuleUpstream(rule, h).Some? <==>
      rule.incomingSuffix == "." + h || (0 < FirstDot(h) < |h| && rule.incomingSuffix == h[FirstDot(h)..])
  {
    var s := rule.incomingSuffix;
    SingleDotApex(s);
    assert s == "." + s[1..];
    if h != s[1..] {
      if RuleUpstream(rule, h).Some? {
        var p := StripSuffix(h, s).value;
        assert h == p + s;
        DotAtFirst(h, p, s);
      }
      if 0 < FirstDot(h) < |h| && s == h[FirstDot(h)..] {
        var p := h[..FirstDot(h)];
        assert '.' !in p;
        assert StripSuffix(h, s) == Some(p);
      }
    }
  }

  /** At most two rules with distinct suffixes accept a host: the apex rule and the one-label rule. */
  lemma TwoRulesAccept(rules: seq<WildcardRule>, h: Text, i: nat, j: nat)
    requires DistinctRules(rules) && forall k :: 0 <= k < |rules| ==> SingleDot(rules[k].incomingSuffix)
    requires i < |rules| && j < |rules| && i != j
    requires RuleUpstream(rules[i], h).Some? && RuleUpstream(rules[j], h).Some?
    ensures {rules[i].incomingSuffix, rules[j].incomingSuffix} == {"." + h, h[FirstDot(h)..]}
    ensures forall k :: 0 <= k < |rules| && RuleUpstream(rules[k], h).Some? ==> k == i || k == j
  {
    RuleAcceptsIff(rules[i], h);
    RuleAcceptsIff(rules[j], h);
    forall k | 0 <= k < |rules| && RuleUpstream(rules[k], h).Some? ensures k == i || k == j {
      RuleAcceptsIff(rules[k], h);
    }
  }

  // ---- order ----

  /** All rules that accept the host give it the same route. */
  ghost predicate RulesAgree(rules: seq<WildcardRule>, globalScripts: seq<Text>, h: Text) {
    forall q, r :: q in rules && r in rules && RuleUpstream(q, h).Some? && RuleUpstream(r, h).Some? ==>
      RuleRoute(q, globalScripts, h) == RuleRoute(r, globalScripts, h)
  }

  ghost predicate OrderIrrelevant(rules: seq<WildcardRule>, globalScripts: seq<Text>, h: Text) {
    forall rules' :: multiset(rules') == multiset(rules) ==>
      MatchWildcard(rules', globalScripts, h) == MatchWildcard(rules, globalScripts, h)
  }

  lemma {:induction false} FirstWildcardIsFirst(rules: seq<WildcardRule>, h: Text, i: nat)
    requires i <= |rules|
    ensures forall j :: i <= j < FirstWildcard(rules, h, i) ==> RuleUpstream(rules[j], h).None?
    decreases |rules| - i
  {
    if i < |rules| && RuleUpstream(rules[i], h).None? { FirstWildcardIsFirst(rules, h, i + 1); }
  }

  lemma MatchIsSomeRule(rules: seq<WildcardRule>, globalScripts: seq<Text>, h: Text)
    ensures match MatchWildcard(rules, globalScripts, h)
      case Some(m) => exists r :: r in rules && RuleUpstream(r, h).Some? && m == RuleRoute(r, globalScripts, h)
      case None => forall r :: r in rules ==> RuleUpstream(r, h).None?
  {
    FirstWildcardIsFirst(rules, h, 0);
    var k := FirstWildcard(rules, h, 0);
    if k < |rules| { assert rules[k] in rules; }
  }

  lemma SameMembers(rules: seq<WildcardRule>, rules': seq<WildcardRule>)
    requires multiset(rules') == multiset(rules)
    ensures forall r :: r in rules' <==> r in rules
  {
    forall r ensures r in rules' <==> r in rules {
      assert r in rules' <==> r in multiset(rules');
      assert r in rules <==> r in multiset(rules);
    }
  }

  lemma MoveToFront(rules: seq<WildcardRule>, i: nat) returns (rules': seq<WildcardRule>)
    requires i < |rules|
    ensures multiset(rules') == multiset(rules) && rules' != [] && rules'[0] == rules[i]
  {
    rules' := [rules[i]] + (rules[..i] + rules[i + 1..]);
    assert rules == rules[..i] + [rules[i]] + rules[i + 1..];
  }

  /** Reordering the wildcard rules never changes the match of a host exactly when the rules that accept
      the host agree on its route. */
  lemma OrderIrrelevantIff(rules: seq<WildcardRule>, globalScripts: seq<Text>, h: Text)
    ensures OrderIrrelevant(rules, globalScripts, h) <==> RulesAgree(rules, globalScripts, h)
  {
    if RulesAgree(rules, globalScripts, h) {
      forall rules' | multiset(rules') == multiset(rules)
        ensures MatchWildcard(rules', globalScripts, h) == MatchWildcard(rules, globalScripts, h)
      {
        SameMembers(rules, rules');
        MatchIsSomeRule(rules, globalScripts, h);
        MatchIsSomeRule(rules', globalScripts, h);
      }
    }
    if OrderIrrelevant(rules, globalScripts, h) {
      forall q, r | q in rules && r in rules && RuleUpstream(q, h).Some? && RuleUpstream(r, h).Some?
        ensures RuleRoute(q, globalScripts, h) == RuleRoute(r, globalScripts, h)
      {
        FrontRuleWins(rules, globalScripts, h, q);
        FrontRuleWins(rules, globalScripts, h, r);
      }
    }
  }

  lemma FrontRuleWins(rules: seq<WildcardRule>, globalScripts: seq<Text>, h: Text, r: WildcardRule)
    requires OrderIrrelevant(rules, globalScripts, h) && r in rules && RuleUpstream(r, h).Some?
    ensures MatchWildcard(rules, globalScripts, h) == Some(RuleRoute(r, globalScripts, h))
  {
    var i :| 0 <= i < |rules| && rules[i] == r;
    var rules' := MoveToFront(rules, i);
    assert FirstWildcard(rules', h, 0) == 0;
    assert MatchWildcard(rules', globalScripts, h) == Some(RuleRoute(r, globalScripts, h));
  }

  /** With distinct single-dot suffixes, a host that does not meet both an apex rule and a one-label rule
      is matched the same in every order. */
  lemma OneRuleOrderIrrelevant(rules: seq<WildcardRule>, globalScripts: seq<Text>, h: Text)
    requires DistinctRules(rules) && forall k :: 0 <= k < |rules| ==> SingleDot(rules[k].incomingSuffix)
    requires forall i, j :: 0 <= i < |rules| && 0 <= j < |rules| && rules[i].incomingSuffix == "." + h ==>
      rules[j].incomingSuffix != h[FirstDot(h)..]
    ensures OrderIrrelevant(rules, globalScripts, h)
  {
    forall q, r | q in rules && r in rules && RuleUpstream(q, h).Some? && RuleUpstream(r, h).Some? ensures q == r {
      var i :| 0 <= i < |rules| && rules[i] == q;
      var j :| 0 <= j < |rules| && rules[j] == r;
      RuleAcceptsIff(q, h);
      RuleAcceptsIff(r, h);
      assert rules[i].incomingSuffix == rules[j].incomingSuffix;
    }
    OrderIrrelevantIff(rules, globalScripts, h);
  }

  // ---- from an accepted configuration to a well-formed table ----

  /** What normalisation leaves is lower-case and does not end in a dot; made of host bytes, it is plain. */
  lemma NormalizedIsPlain(raw: Text)
    requires HostShaped(NormalizeHost(raw))
    ensures PlainHost(NormalizeHost(raw))
  {
    NormalizedIsLower(raw);
    var trimmed := Trim(raw);
    var n := SkipByteBack(trimmed, '.', |trimmed|);
    SkipByteBackStops(trimmed, '.', |trimmed|);
    assert NormalizeHost(raw) == Lower(trimmed[..n]);
  }

  /** A suffix made of host bytes after one dot. */
  predicate DottedHost(s: Text) {
    |s| >= 2 && s[0] == '.' && s[1] != '.' && AllHost(s)
  }

  lemma NormalizedSuffixIsPlain(raw: Text)
    requires DottedHost(NormalizeSuffix(raw))
    ensures PlainSuffix(NormalizeSuffix(raw))
  {
    var h, s := NormalizeHost(raw), NormalizeSuffix(raw);
    if h != [] && h[0] == '.' {
      NormalizedIsPlain(raw);
      LowerSlice(h, 1, |h|);
      assert s[1..] == h[1..|h|];
    } else {
      assert s[1..] == h;
      assert forall i :: 0 <= i < |h| ==> h[i] == s[i + 1];
      NormalizedIsPlain(raw);
    }
  }

  /** The table of a configuration that has been normalised, has passed validation and whose hosts are made
      of host bytes is well-formed. */
  lemma ValidatedTableIsWellFormed(config: AppConfig, raw: seq<RouteConfig>, rawWildcard: seq<WildcardRouteConfig>)
    requires NormalizedUpTo(config.routes, raw, |raw|, NormalizedRoute)
    requires NormalizedUpTo(config.wildcardRoutes, rawWildcard, |rawWildcard|, NormalizedWildcard)
    requires DistinctIncoming(config.routes) && DistinctSuffixes(config.wildcardRoutes)
    requires forall r :: r in config.routes ==> HostShaped(r.incoming) && HostShaped(r.upstream)
    requires forall r :: r in config.wildcardRoutes ==> DottedHost(r.incomingSuffix) && DottedHost(r.upstreamSuffix)
    ensures WellFormed(FromConfig(config)) && DistinctRules(FromConfig(config).wildcard)
  {
    forall i | 0 <= i < |config.routes|
      ensures PlainHost(config.routes[i].incoming) && PlainHost(config.routes[i].upstream)
    {
      assert config.routes[i] in config.routes;
      NormalizedIsPlain(raw[i].incoming);
      NormalizedIsPlain(raw[i].upstream);
    }
    forall i | 0 <= i < |config.wildcardRoutes|
      ensures PlainSuffix(config.wildcardRoutes[i].incomingSuffix)
      ensures PlainSuffix(config.wildcardRoutes[i].upstreamSuffix)
    {
      assert config.wildcardRoutes[i] in config.wildcardRoutes;
      NormalizedSuffixIsPlain(rawWildcard[i].incomingSuffix);
      NormalizedSuffixIsPlain(rawWildcard[i].upstreamSuffix);
    }
  }
}
