/** The current route and its own upstream: when it wins, and in which surroundings. */
module CurrentRoute {
  import opened Text
  import opened Hosts
  import opened Plans
  import opened Rewriting
  import opened Runs
  import opened RewriteLaws
  import opened Routing
  import opened RoutingUndo
  import opened MatchedHosts
  import opened UndoEverywhere
  import opened SpacedHosts

  /** The own rule of a current route takes its whole upstream. */
  lemma OwnRuleWins(rules: seq<Rule>, u: Text, h: Text)
    requires ValidPlan(rules) && Rule(u, h) in rules && u != []
    ensures Scan(rules, u, 0) == h
  {
    assert Occurs(u, u, 0);
    FoundRuleIsLongest(rules, u, 0, Rule(u, h));
    FindRuleFinds(rules, u, 0);
    ScanToEnd(rules, u, 0, Rule(u, h));
    assert u[..0] + h == h;
  }

  /** In the plan of another route, an upstream shared by several hosts becomes the one of them that comes
      first in the order of the codes. */
  lemma SharedUpstreamGoesFirst(t: RouteTable, r: Text, u: Text, h: Text)
    requires WellFormed(t) && MatchHost(t, r).Some? && MatchHost(t, r).value.upstreamHost != u && h != u
    requires (u, h) in CandidatePairs(t)
    requires forall p :: p in CandidatePairs(t) && p.0 == u ==> p.1 == h || Before(h, p.1)
    ensures Response(t, MatchHost(t, r).value, u) == h
  {
    RequestMatched(t, r);
    FirstIsTarget(t, u, h);
    TargetReplaces(t, MatchHost(t, r).value, u);
  }

  lemma TargetReplaces(t: RouteTable, m: MatchedRoute, u: Text)
    requires WellFormed(t) && NormalRoute(m)
    requires u in LexicalTargets(t) && u != m.upstreamHost && LexicalTargets(t)[u] != u
    ensures Response(t, m, u) == LexicalTargets(t)[u]
  {
    RecordedArePlain(t, u);
    PlanMembers(t, m);
    assert TargetRule(Rule(u, LexicalTargets(t)[u]), Selected(t, m));
    OwnRuleWins(PlanFor(t, m), u, LexicalTargets(t)[u]);
  }

  lemma FirstIsTarget(t: RouteTable, u: Text, h: Text)
    requires (u, h) in CandidatePairs(t)
    requires forall p :: p in CandidatePairs(t) && p.0 == u ==> p.1 == h || Before(h, p.1)
    ensures u in LexicalTargets(t) && LexicalTargets(t)[u] == h
  {
    TargetsAreMin(CandidatePairs(t));
    MinIsFirst(LexicalTargets(t), CandidatePairs(t));
    var l := LexicalTargets(t)[u];
    assert (u, l) in CandidatePairs(t);
    LexLessIff(l, h);
    LexLessIff(h, l);
    LexIrreflexive(l);
    if LexLess(l, h) && LexLess(h, l) { LexTransitive(l, h, l); }
  }

  /** The rules of a route that changes nothing are those of the other recorded pairs. */
  lemma IdentityPlan(t: RouteTable, m: MatchedRoute)
    requires WellFormed(t) && NormalRoute(m) && m.upstreamHost == m.incomingHost
    ensures HostRules(PlanFor(t, m)) && HostTargets(PlanFor(t, m))
  {
    PlanMembers(t, m);
    forall r | r in PlanFor(t, m) ensures AllHost(r.from) && HostShaped(r.to) {
      assert TargetRule(r, Selected(t, m));
      RecordedArePlain(t, r.from);
    }
  }

  /** The current route is restored from its own upstream exactly when the two differ, or no upstream
      recorded for another host occurs in it. */
  lemma CurrentRouteWins(t: RouteTable, r: Text)
    requires WellFormed(t) && MatchHost(t, r).Some?
    ensures var m := MatchHost(t, r).value;
      Some(Undone(t, r, r)) == NormalizeRequestHost(r) <==>
        m.upstreamHost != m.incomingHost || FreeOfTargets(Selected(t, m), m.incomingHost)
  {
    var m := MatchHost(t, r).value;
    RequestMatched(t, r);
    PlanMembers(t, m);
    if m.upstreamHost != m.incomingHost {
      assert TargetRule(Rule(m.upstreamHost, m.incomingHost), Selected(t, m));
      OwnRuleWins(PlanFor(t, m), m.upstreamHost, m.incomingHost);
    } else {
      IdentityPlan(t, m);
      NoIdentityRules(PlanFor(t, m), Selected(t, m));
      UnchangedIff(PlanFor(t, m), m.incomingHost);
      FreeIffUnmatched(PlanFor(t, m), Selected(t, m), m.incomingHost);
    }
  }

  /** No other recorded upstream that stands for another host ends the host. */
  predicate Undisturbed(t: RouteTable, h: Text) {
    forall k :: k in LexicalTargets(t) && k != h && LexicalTargets(t)[k] != k ==> !LabelSuffix(k, h)
  }

  /** For a plain host that can be read off the recorded targets. */
  lemma CurrentHostWins(t: RouteTable, r: Text)
    requires WellFormed(t) && Accepted(t, r)
    ensures var m := MatchHost(t, r).value;
      Some(Undone(t, r, r)) == NormalizeRequestHost(r) <==>
        m.upstreamHost != m.incomingHost || Undisturbed(t, m.incomingHost)
  {
    var m := MatchHost(t, r).value;
    CurrentRouteWins(t, r);
    AcceptedRoutes(t, r);
    if m.upstreamHost == m.incomingHost { FreeIffUndisturbed(t, m); }
  }

  lemma FreeIffUndisturbed(t: RouteTable, m: MatchedRoute)
    requires WellFormed(t) && m.upstreamHost == m.incomingHost && HostShaped(m.incomingHost)
    ensures FreeOfTargets(Selected(t, m), m.incomingHost) <==> Undisturbed(t, m.incomingHost)
  {
    var h := m.incomingHost;
    if Undisturbed(t, h) {
      forall f, i: nat | f in Selected(t, m) && Selected(t, m)[f] != f ensures !Occurs(f, h, i) {
        RecordedArePlain(t, f);
        if i < |h| { OccursInRun(f, h, 0, |h|, i); assert h[0..|h|] == h; }
      }
    }
    if FreeOfTargets(Selected(t, m), h) {
      forall k | k in LexicalTargets(t) && k != h && LexicalTargets(t)[k] != k ensures !LabelSuffix(k, h) {
        assert k in Selected(t, m) && Selected(t, m)[k] != k;
      }
    }
  }

  // ---- in text ----

  predicate Between(before: Text, after: Text) {
    (before == [] || !IsHostByte(before[|before| - 1])) && EndsRun(after)
  }

  /** Between separators a host is rewritten as it is alone, on every table. */
  lemma HostInContext(t: RouteTable, m: MatchedRoute, host: Text, before: Text, after: Text)
    requires WellFormed(t) && Routes(t, m.incomingHost, m.upstreamHost) && HostShaped(host) && Between(before, after)
    ensures Response(t, m, before + host + after)
         == Response(t, m, before) + Response(t, m, host) + Response(t, m, after)
  {
    PlanForIsValid(t, m);
    PlanIsHostRules(t, m);
    RewriteEmbedded(PlanFor(t, m), before, host, after);
    RewriteHost(PlanFor(t, m), host);
  }

  lemma SameMiddle(a: Text, x: Text, x': Text, b: Text)
    ensures a + x + b == a + x' + b <==> x == x'
  {
    if a + x + b == a + x' + b {
      assert |x| == |x'|;
      assert x == (a + x + b)[|a|..|a| + |x|] && x' == (a + x' + b)[|a|..|a| + |x'|];
    }
  }

  /** On every table: an upstream between separators becomes the host routed to it exactly when it does alone. */
  lemma UndoInContext(t: RouteTable, r: Text, r': Text, before: Text, after: Text)
    requires WellFormed(t) && Accepted(t, r) && Accepted(t, r') && Between(before, after)
    ensures var m, m' := MatchHost(t, r).value, MatchHost(t, r').value;
      Response(t, m, before + m'.upstreamHost + after)
        == Response(t, m, before) + m'.incomingHost + Response(t, m, after)
      <==> Some(Undone(t, r, r')) == NormalizeRequestHost(r')
  {
    var m, m' := MatchHost(t, r).value, MatchHost(t, r').value;
    AcceptedRoutes(t, r);
    AcceptedRoutes(t, r');
    RoutedArePlain(t, m'.incomingHost, m'.upstreamHost);
    HostInContext(t, m, m'.upstreamHost, before, after);
    SameMiddle(Response(t, m, before), Response(t, m, m'.upstreamHost), m'.incomingHost, Response(t, m, after));
  }

  /** The matched route's own upstream becomes its incoming host between any separators, on every table. */
  lemma CurrentInContext(t: RouteTable, r: Text, before: Text, after: Text)
    requires WellFormed(t) && Accepted(t, r) && Between(before, after)
    requires MatchHost(t, r).value.upstreamHost != MatchHost(t, r).value.incomingHost
    ensures var m := MatchHost(t, r).value;
      Response(t, m, before + m.upstreamHost + after) == Response(t, m, before) + m.incomingHost + Response(t, m, after)
  {
    CurrentRouteWins(t, r);
    UndoInContext(t, r, r, before, after);
  }
}
