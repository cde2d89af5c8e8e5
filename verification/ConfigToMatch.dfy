/** From the configuration to the match: which upstream, settings and scripts a request gets. */
module ConfigToMatch {
  import opened Text
  import opened Hosts
  import opened Letters
  import opened Spaces
  import opened Config
  import opened Routing
  import opened RoutingUndo
  import opened WildcardOrder
  import opened Requests

  /** Every setting is the route's own, or else the default. */
  ghost predicate SettingsFrom(s: Settings, own: RouteSettings, body: BodyRewriteMode, proxy: Option<Text>) {
    && s.upstreamScheme == own.upstreamScheme && s.userAgent == own.userAgent
    && (match own.bodyRewrite case Some(b) => s.bodyRewrite == b case None => s.bodyRewrite == body)
    && (match own.upstreamProxy case Some(p) => s.upstreamProxy == Some(p) case None => s.upstreamProxy == proxy)
    && (match own.upstreamPort
        case Some(n) => s.upstreamPort == n
        case None =>
          && (own.upstreamScheme == Http ==> s.upstreamPort == 80)
          && (own.upstreamScheme == Https ==> s.upstreamPort == 443))
  }

  /** The match gives the host these upstream, settings and scripts; global scripts come first. */
  ghost predicate Gives(config: AppConfig, m: MatchedRoute, host: Text, upstream: Text, own: RouteSettings,
                        scripts: seq<Text>)
    reads config
  {
    && m.incomingHost == host && m.upstreamHost == upstream && m.scripts == config.globalScripts + scripts
    && SettingsFrom(m.settings, own, config.defaultBody, config.defaultProxy)
  }

  ghost predicate HasExactRoute(config: AppConfig, h: Text)
    reads config
  {
    exists i :: 0 <= i < |config.routes| && config.routes[i].incoming == h
  }

  /** A wildcard suffix takes its apex, and hosts with one more label, without a dot, in front. */
  ghost predicate Takes(suffix: Text, h: Text) {
    suffix == "." + h || exists l :: UnderSuffix(suffix, h, l)
  }

  ghost predicate UnderSuffix(suffix: Text, h: Text, l: Text) {
    l != [] && '.' !in l && h == l + suffix
  }

  ghost predicate DottedSuffixes(config: AppConfig)
    reads config
  {
    forall k :: 0 <= k < |config.wildcardRoutes| ==> SingleDot(config.wildcardRoutes[k].incomingSuffix)
  }

  // ---- exact routes ----

  /** A configured host gets what is configured for it. */
  lemma ExactRouteGives(config: AppConfig, i: nat)
    requires DistinctIncoming(config.routes) && i < |config.routes|
    ensures var r := config.routes[i]; var m := MatchNormalized(FromConfig(config), r.incoming);
      m.Some? && Gives(config, m.value, r.incoming, r.upstream, r.settings, r.scripts)
  {
    var t := FromConfig(config);
    var k := IndexHoldsLast(t.orderedExact, config.routes[i].incoming);
    assert t.orderedExact[i].incomingHost == config.routes[i].incoming;
    assert k < |t.orderedExact| ==> config.routes[k].incoming == t.orderedExact[k].incomingHost;
  }

  lemma NoExactRoute(config: AppConfig, h: Text)
    requires !HasExactRoute(config, h)
    ensures h !in FromConfig(config).exact
  {
    var t := FromConfig(config);
    assert forall i :: 0 <= i < |t.orderedExact| ==> t.orderedExact[i].incomingHost == config.routes[i].incoming;
    var k := IndexHoldsLast(t.orderedExact, h);
  }

  // ---- wildcard routes ----

  lemma TakesIff(rule: WildcardRule, h: Text)
    requires SingleDot(rule.incomingSuffix)
    ensures RuleUpstream(rule, h).Some? <==> Takes(rule.incomingSuffix, h)
  {
    var s := rule.incomingSuffix;
    RuleAcceptsIff(rule, h);
    if l :| UnderSuffix(s, h, l) { DotAtFirst(h, l, s); }
    if 0 < FirstDot(h) < |h| && s == h[FirstDot(h)..] {
      assert UnderSuffix(s, h, h[..FirstDot(h)]);
    }
  }

  /** The first rule that takes the host gives its route. */
  lemma FirstRuleMatches(config: AppConfig, j: nat, h: Text)
    requires DottedSuffixes(config) && j < |config.wildcardRoutes| && !HasExactRoute(config, h)
    requires Takes(config.wildcardRoutes[j].incomingSuffix, h)
    requires forall k :: 0 <= k < j ==> !Takes(config.wildcardRoutes[k].incomingSuffix, h)
    ensures var t := FromConfig(config);
      j < |t.wildcard| && RuleUpstream(t.wildcard[j], h).Some?
      && MatchNormalized(t, h) == Some(RuleRoute(t.wildcard[j], t.globalScripts, h))
  {
    var t := FromConfig(config);
    NoExactRoute(config, h);
    forall k | 0 <= k <= j ensures RuleUpstream(t.wildcard[k], h).Some? <==> k == j {
      assert t.wildcard[k].incomingSuffix == config.wildcardRoutes[k].incomingSuffix;
      TakesIff(t.wildcard[k], h);
    }
    FirstWildcardIsFirst(t.wildcard, h, 0);
  }

  /** A label under the first suffix that takes its host goes to the same label under the upstream suffix. */
  lemma LabelGives(config: AppConfig, j: nat, l: Text)
    requires DottedSuffixes(config) && j < |config.wildcardRoutes| && l != [] && '.' !in l
    requires !HasExactRoute(config, l + config.wildcardRoutes[j].incomingSuffix)
    requires forall k :: 0 <= k < j ==>
      !Takes(config.wildcardRoutes[k].incomingSuffix, l + config.wildcardRoutes[j].incomingSuffix)
    ensures var r := config.wildcardRoutes[j]; var m := MatchNormalized(FromConfig(config), l + r.incomingSuffix);
      m.Some? && Gives(config, m.value, l + r.incomingSuffix, l + r.upstreamSuffix, r.settings, r.scripts)
  {
    var r := config.wildcardRoutes[j];
    var h := l + r.incomingSuffix;
    assert UnderSuffix(r.incomingSuffix, h, l);
    FirstRuleMatches(config, j, h);
    SingleDotApex(r.incomingSuffix);
    assert StripSuffix(h, r.incomingSuffix) == Some(l);
  }

  /** The apex of such a suffix goes to the apex of the upstream suffix. */
  lemma ApexGives(config: AppConfig, j: nat, h: Text, u: Text)
    requires DottedSuffixes(config) && j < |config.wildcardRoutes| && !HasExactRoute(config, h)
    requires config.wildcardRoutes[j].incomingSuffix == "." + h
    requires config.wildcardRoutes[j].upstreamSuffix == "." + u && (u == [] || u[0] != '.')
    requires forall k :: 0 <= k < j ==> !Takes(config.wildcardRoutes[k].incomingSuffix, h)
    ensures var r := config.wildcardRoutes[j]; var m := MatchNormalized(FromConfig(config), h);
      m.Some? && Gives(config, m.value, h, u, r.settings, r.scripts)
  {
    var r := config.wildcardRoutes[j];
    FirstRuleMatches(config, j, h);
    SingleDotApex(r.incomingSuffix);
    SingleDotApex(r.upstreamSuffix);
    assert ("." + h)[1..] == h && ("." + u)[1..] == u;
  }

  /** Every other host is refused. */
  lemma MatchedIff(config: AppConfig, h: Text)
    requires DottedSuffixes(config)
    ensures MatchNormalized(FromConfig(config), h).Some? <==>
      HasExactRoute(config, h)
      || exists k :: 0 <= k < |config.wildcardRoutes| && Takes(config.wildcardRoutes[k].incomingSuffix, h)
  {
    var t := FromConfig(config);
    forall k | 0 <= k < |t.wildcard|
      ensures RuleUpstream(t.wildcard[k], h).Some? <==> Takes(config.wildcardRoutes[k].incomingSuffix, h)
    {
      TakesIff(t.wildcard[k], h);
    }
    FirstWildcardIsFirst(t.wildcard, h, 0);
    var i := IndexHoldsLast(t.orderedExact, h);
    if HasExactRoute(config, h) {
      var n :| 0 <= n < |config.routes| && config.routes[n].incoming == h;
      assert t.orderedExact[n].incomingHost == h;
    } else {
      NoExactRoute(config, h);
    }
  }

  // ---- from the file to the request ----

  /** A route as written in the configuration answers a request as a client writes it: in any letter case, with
      a port, with white space around. */
  lemma ConfiguredRouteAnswers(config: AppConfig, raw: seq<RouteConfig>, i: nat, a: Text, written: Text, port: Text,
                               b: Text)
    requires NormalizedUpTo(config.routes, raw, |raw|, NormalizedRoute) && DistinctIncoming(config.routes)
    requires i < |raw| && HostShaped(NormalizeHost(raw[i].incoming))
    requires SameLetters(NormalizeHost(raw[i].incoming), written) && Blank(a) && Blank(b) && PortPart(port)
    ensures var m := MatchHost(FromConfig(config), a + (written + port) + b);
      m.Some? && Gives(config, m.value, NormalizeHost(raw[i].incoming), NormalizeHost(raw[i].upstream),
                       raw[i].settings, raw[i].scripts)
  {
    var h := NormalizeHost(raw[i].incoming);
    NormalizedIsPlain(raw[i].incoming);
    assert config.routes[i] == NormalizedRoute(raw[i]);
    ExactRouteGives(config, i);
    RequestWithPort(FromConfig(config), h, a, written, port, b);
  }

  /** So does a wildcard route, for a host under the suffix that nothing before it takes. */
  lemma ConfiguredWildcardAnswers(config: AppConfig, raw: seq<WildcardRouteConfig>, j: nat, l: Text, a: Text,
                                  written: Text, port: Text, b: Text)
    requires NormalizedUpTo(config.wildcardRoutes, raw, |raw|, NormalizedWildcard) && DottedSuffixes(config)
    requires j < |raw| && l != [] && '.' !in l
    requires var h := l + NormalizeSuffix(raw[j].incomingSuffix);
      PlainHost(h) && !HasExactRoute(config, h) && SameLetters(h, written)
      && forall k :: 0 <= k < j ==> !Takes(NormalizeSuffix(raw[k].incomingSuffix), h)
    requires Blank(a) && Blank(b) && PortPart(port)
    ensures var h := l + NormalizeSuffix(raw[j].incomingSuffix);
      var m := MatchHost(FromConfig(config), a + (written + port) + b);
      m.Some? && Gives(config, m.value, h, l + NormalizeSuffix(raw[j].upstreamSuffix), raw[j].settings, raw[j].scripts)
  {
    var h := l + NormalizeSuffix(raw[j].incomingSuffix);
    assert forall k :: 0 <= k < |raw| ==> config.wildcardRoutes[k] == NormalizedWildcard(raw[k]);
    LabelGives(config, j, l);
    RequestWithPort(FromConfig(config), h, a, written, port, b);
  }
}
