/** The part of the configuration the routing table is built from. */
module Config {
  import opened Text
  import opened Hosts

  datatype BodyRewriteMode = Enabled | HttpOnly

  datatype UpstreamScheme = Http | Https

  datatype RouteSettings = RouteSettings(
    bodyRewrite: Option<BodyRewriteMode>,
    upstreamProxy: Option<Text>,
    upstreamScheme: UpstreamScheme,
    upstreamPort: Option<nat>,
    userAgent: Option<Text>
  )

  datatype RouteConfig = RouteConfig(incoming: Text, upstream: Text, settings: RouteSettings, scripts: seq<Text>)

  datatype WildcardRouteConfig =
    WildcardRouteConfig(incomingSuffix: Text, upstreamSuffix: Text, settings: RouteSettings, scripts: seq<Text>)

  datatype ConfigError =
    | NoRoutes
    | NoDnsServers
    | TtlRange
    | BadErrorStatus(code: nat)
    | BadPort
    | BadProxy(value: Text)
    | DuplicateRoute(incoming: Text)
    | DuplicateWildcard(suffix: Text)

  function NormalizeSuffix(suffix: Text): Text {
    var normalized := NormalizeHost(suffix);
    if normalized != [] && normalized[0] == '.' then normalized else "." + normalized
  }

  /** What `validate_upstream_proxy_value` accepts; URL parsing is given by `acceptsUrl`. */
  predicate ProxyOk(value: Text, acceptsUrl: Text -> bool) {
    EqFold(Trim(value), "direct") || acceptsUrl(Trim(value))
  }

  predicate SettingsOk(s: RouteSettings, acceptsUrl: Text -> bool) {
    s.upstreamPort != Some(0) && (s.upstreamProxy.Some? ==> ProxyOk(s.upstreamProxy.value, acceptsUrl))
  }

  /** The error is about these settings. */
  predicate RouteFails(s: RouteSettings, error: ConfigError, acceptsUrl: Text -> bool) {
    match error
    case BadPort => s.upstreamPort == Some(0)
    case BadProxy(v) => s.upstreamProxy == Some(v) && !ProxyOk(v, acceptsUrl)
    case _ => false
  }

  /** A status that can carry an HTML error page. */
  predicate ErrorStatusOk(code: nat) {
    200 <= code <= 599 && code != 204 && code != 205 && code != 304
  }

  predicate DistinctIncoming(routes: seq<RouteConfig>) {
    forall i, j :: 0 <= i < j < |routes| ==> routes[i].incoming != routes[j].incoming
  }

  predicate DistinctSuffixes(routes: seq<WildcardRouteConfig>) {
    forall i, j :: 0 <= i < j < |routes| ==> routes[i].incomingSuffix != routes[j].incomingSuffix
  }

  function NormalizedRoute(r: RouteConfig): RouteConfig {
    r.(incoming := NormalizeHost(r.incoming), upstream := NormalizeHost(r.upstream))
  }

  function NormalizedWildcard(r: WildcardRouteConfig): WildcardRouteConfig {
    r.(incomingSuffix := NormalizeSuffix(r.incomingSuffix), upstreamSuffix := NormalizeSuffix(r.upstreamSuffix))
  }

  /** The first i entries have been normalised, the others are as before. */
  ghost predicate NormalizedUpTo<T>(now: seq<T>, before: seq<T>, i: int, normalized: T -> T) {
    && |now| == |before|
    && forall k :: 0 <= k < |now| ==> now[k] == if k < i then normalized(before[k]) else before[k]
  }

  class AppConfig {
    var routes: seq<RouteConfig>
    var wildcardRoutes: seq<WildcardRouteConfig>
    var globalScripts: seq<Text>
    var defaultBody: BodyRewriteMode
    var defaultProxy: Option<Text>
    var dnsServers: seq<Text>
    var cacheMinTtl: nat
    var cacheMaxTtl: nat
    var proxyErrorStatus: Option<nat>

    /** `AppConfig::normalize` */
    method Normalize()
      modifies this`routes, this`wildcardRoutes
      ensures NormalizedUpTo(routes, old(routes), |routes|, NormalizedRoute)
      ensures NormalizedUpTo(wildcardRoutes, old(wildcardRoutes), |wildcardRoutes|, NormalizedWildcard)
    {
      NormalizeRoutes();
      NormalizeWildcards();
    }

    method NormalizeRoutes()
      modifies this`routes
      ensures NormalizedUpTo(routes, old(routes), |routes|, NormalizedRoute)
    {
      var i := 0;
      while i < |routes|
        invariant 0 <= i <= |routes|
        invariant NormalizedUpTo(routes, old(routes), i, NormalizedRoute)
      {
        var route := routes[i];
        route := route.(incoming := NormalizeHost(route.incoming));
        route := route.(upstream := NormalizeHost(route.upstream));
        routes := routes[i := route];
        i := i + 1;
      }
    }

    method NormalizeWildcards()
      modifies this`wildcardRoutes
      ensures NormalizedUpTo(wildcardRoutes, old(wildcardRoutes), |wildcardRoutes|, NormalizedWildcard)
    {
      var i := 0;
      while i < |wildcardRoutes|
        invariant 0 <= i <= |wildcardRoutes|
        invariant NormalizedUpTo(wildcardRoutes, old(wildcardRoutes), i, NormalizedWildcard)
      {
        var route := wildcardRoutes[i];
        route := route.(incomingSuffix := NormalizeSuffix(route.incomingSuffix));
        route := route.(upstreamSuffix := NormalizeSuffix(route.upstreamSuffix));
        wildcardRoutes := wildcardRoutes[i := route];
        i := i + 1;
      }
    }

    /** The checks of `validate` before it looks for duplicates. */
    predicate SettingsValid(acceptsUrl: Text -> bool)
      reads this
    {
      && (routes != [] || wildcardRoutes != [])
      && dnsServers != []
      && cacheMinTtl <= cacheMaxTtl
      && (proxyErrorStatus.Some? ==> ErrorStatusOk(proxyErrorStatus.value))
      && (defaultProxy.Some? ==> ProxyOk(defaultProxy.value, acceptsUrl))
      && (forall k :: 0 <= k < |routes| ==> SettingsOk(routes[k].settings, acceptsUrl))
      && (forall k :: 0 <= k < |wildcardRoutes| ==> SettingsOk(wildcardRoutes[k].settings, acceptsUrl))
    }

    /** The settings of some route are wrong in the way the error says. */
    ghost predicate SomeRouteFails(error: ConfigError, acceptsUrl: Text -> bool)
      reads this
    {
      || (exists k :: 0 <= k < |routes| && RouteFails(routes[k].settings, error, acceptsUrl))
      || (exists k :: 0 <= k < |wildcardRoutes| && RouteFails(wildcardRoutes[k].settings, error, acceptsUrl))
    }

    /** The checks before the routes, in order: each error is reported exactly when its check is the first to
        fail. An error of a route is only reported when they all succeed. */
    method ValidateSettings(acceptsUrl: Text -> bool) returns (r: Result<(), ConfigError>)
      ensures r.Ok? <==> SettingsValid(acceptsUrl)
      ensures r == Err(NoRoutes) <==> routes == [] && wildcardRoutes == []
      ensures r == Err(NoDnsServers) <==> (routes != [] || wildcardRoutes != []) && dnsServers == []
      ensures r == Err(TtlRange) <==>
        (routes != [] || wildcardRoutes != []) && dnsServers != [] && cacheMinTtl > cacheMaxTtl
      ensures r.Err? && r.error.BadErrorStatus? ==>
        proxyErrorStatus == Some(r.error.code) && !ErrorStatusOk(r.error.code) && cacheMinTtl <= cacheMaxTtl
      ensures r.Err? && (r.error.BadPort? || r.error.BadProxy?) ==>
        && cacheMinTtl <= cacheMaxTtl && (proxyErrorStatus.Some? ==> ErrorStatusOk(proxyErrorStatus.value))
        && if defaultProxy.Some? && !ProxyOk(defaultProxy.value, acceptsUrl)
           then r.error == BadProxy(defaultProxy.value)
           else SomeRouteFails(r.error, acceptsUrl)
      ensures r.Err? ==> !r.error.DuplicateRoute? && !r.error.DuplicateWildcard?
    {
      if routes == [] && wildcardRoutes == [] { return Err(NoRoutes); }
      if dnsServers == [] { return Err(NoDnsServers); }
      if cacheMinTtl > cacheMaxTtl { return Err(TtlRange); }
      if proxyErrorStatus.Some? && !ErrorStatusOk(proxyErrorStatus.value) {
        return Err(BadErrorStatus(proxyErrorStatus.value));
      }
      if defaultProxy.Some? && !ProxyOk(defaultProxy.value, acceptsUrl) {
        return Err(BadProxy(defaultProxy.value));
      }
      var i := 0;
      while i < |routes|
        invariant 0 <= i <= |routes|
        invariant forall k :: 0 <= k < i ==> SettingsOk(routes[k].settings, acceptsUrl)
      {
        r := ValidateRoute(routes[i].settings, acceptsUrl);
        if r.Err? { return; }
        i := i + 1;
      }
      i := 0;
      while i < |wildcardRoutes|
        invariant 0 <= i <= |wildcardRoutes|
        invariant forall k :: 0 <= k < i ==> SettingsOk(wildcardRoutes[k].settings, acceptsUrl)
      {
        r := ValidateRoute(wildcardRoutes[i].settings, acceptsUrl);
        if r.Err? { return; }
        i := i + 1;
      }
      r := Ok(());
    }

    static method ValidateRoute(s: RouteSettings, acceptsUrl: Text -> bool) returns (r: Result<(), ConfigError>)
      ensures r.Ok? <==> SettingsOk(s, acceptsUrl)
      ensures r.Err? ==> RouteFails(s, r.error, acceptsUrl)
      ensures r == Err(BadPort) <==> s.upstreamPort == Some(0)
    {
      if s.upstreamPort == Some(0) { return Err(BadPort); }
      if s.upstreamProxy.Some? && !ProxyOk(s.upstreamProxy.value, acceptsUrl) {
        return Err(BadProxy(s.upstreamProxy.value));
      }
      r := Ok(());
    }

    /** Route j is the first that declares an incoming host a second time. */
    ghost predicate RepeatsIncoming(j: nat)
      reads this
    {
      && j < |routes| && DistinctIncoming(routes[..j])
      && exists i :: 0 <= i < j && routes[i].incoming == routes[j].incoming
    }

    ghost predicate RepeatsSuffix(j: nat)
      reads this
    {
      && j < |wildcardRoutes| && DistinctSuffixes(wildcardRoutes[..j])
      && exists i :: 0 <= i < j && wildcardRoutes[i].incomingSuffix == wildcardRoutes[j].incomingSuffix
    }

    /** `AppConfig::validate`: accepted exactly when the settings are in range and no incoming host or
        suffix is declared twice. A reported duplicate is the first one, and is only looked for when what
        is checked before is in order. */
    method Validate(acceptsUrl: Text -> bool) returns (r: Result<(), ConfigError>)
      ensures r.Ok? <==> SettingsValid(acceptsUrl) && DistinctIncoming(routes) && DistinctSuffixes(wildcardRoutes)
      ensures SettingsValid(acceptsUrl) && !DistinctIncoming(routes) <==> r.Err? && r.error.DuplicateRoute?
      ensures r.Err? && r.error.DuplicateRoute? ==>
        exists j: nat :: RepeatsIncoming(j) && routes[j].incoming == r.error.incoming
      ensures SettingsValid(acceptsUrl) && DistinctIncoming(routes) && !DistinctSuffixes(wildcardRoutes)
        <==> r.Err? && r.error.DuplicateWildcard?
      ensures r.Err? && r.error.DuplicateWildcard? ==>
        exists j: nat :: RepeatsSuffix(j) && wildcardRoutes[j].incomingSuffix == r.error.suffix
    {
      r := ValidateSettings(acceptsUrl);
      if r.Err? { return; }
      var seen: set<Text> := {};
      var i := 0;
      while i < |routes|
        invariant 0 <= i <= |routes|
        invariant DistinctIncoming(routes[..i])
        invariant forall h :: h in seen <==> exists k :: 0 <= k < i && routes[k].incoming == h
      {
        if routes[i].incoming in seen {
          assert RepeatsIncoming(i);
          return Err(DuplicateRoute(routes[i].incoming));
        }
        seen := seen + {routes[i].incoming};
        i := i + 1;
      }
      assert routes[..i] == routes;
      seen := {};
      i := 0;
      while i < |wildcardRoutes|
        invariant 0 <= i <= |wildcardRoutes|
        invariant DistinctSuffixes(wildcardRoutes[..i])
        invariant forall h :: h in seen <==> exists k :: 0 <= k < i && wildcardRoutes[k].incomingSuffix == h
      {
        if wildcardRoutes[i].incomingSuffix in seen {
          assert RepeatsSuffix(i);
          return Err(DuplicateWildcard(wildcardRoutes[i].incomingSuffix));
        }
        seen := seen + {wildcardRoutes[i].incomingSuffix};
        i := i + 1;
      }
      assert wildcardRoutes[..i] == wildcardRoutes;
      r := Ok(());
    }
  }
}
