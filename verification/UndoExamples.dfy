/** Tables on which rewriting does not undo routing, one for each way to fail. */
module UndoExamples {
  import opened Text
  import opened Hosts
  import opened Config
  import opened Plans
  import opened Rewriting
  import opened Runs
  import opened RewriteLaws
  import opened Routing
  import opened RoutingUndo
  import opened MatchedHosts
  import opened WildcardOrder
  import opened UndoExactly
  import opened UndoFinite
  import opened UndoEverywhere
  import opened SpacedHosts
  import opened CurrentRoute
  import opened UndoTables

  const DEFAULT: Settings := Settings(Enabled, None, Https, 443, None)

  function Exact(incoming: Text, upstream: Text): MatchedRoute {
    MatchedRoute(incoming, upstream, DEFAULT, [])
  }

  function Wildcard(incoming: Text, upstream: Text): WildcardRule {
    WildcardRule(incoming, upstream, DEFAULT, [])
  }

  function Table(routes: seq<MatchedRoute>, wildcard: seq<WildcardRule>): RouteTable {
    RouteTable(IndexByHost(routes), routes, wildcard, [])
  }

  predicate LowerHostByte(b: byte) {
    IsHostByte(b) && LowerByte(b) == b
  }

  lemma PlainWhen(h: Text)
    requires h != [] && (forall i :: 0 <= i < |h| ==> LowerHostByte(h[i])) && h[|h| - 1] != '.'
    ensures PlainHost(h)
  {
  }

  lemma PlainSuffixOf(h: Text)
    requires PlainHost(h) && h[0] != '.'
    ensures PlainSuffix("." + h)
  {
    assert ("." + h)[1..] == h;
  }

  // ---- two routes to one upstream ----

  const Shared := Table([Exact("a.org", "c.net"), Exact("b.org", "c.net")], [])

  lemma SharedIsWellFormed()
    ensures WellFormed(Shared)
  {
    PlainWhen("a.org");
    PlainWhen("b.org");
    PlainWhen("c.net");
    assert "a.org"[0] != "b.org"[0];
  }

  lemma ExactMatch(t: RouteTable, i: nat)
    requires WellFormed(t) && i < |t.orderedExact|
    ensures var m := t.orderedExact[i];
      Accepted(t, m.incomingHost) && MatchHost(t, m.incomingHost) == Some(m)
      && NormalizeRequestHost(m.incomingHost) == Some(m.incomingHost)
  {
    PlainRequest(t.orderedExact[i].incomingHost);
    ExactRouteMatches(t, i);
  }

  /** The response for a.org turns the upstream of b.org into a.org. */
  lemma SharedUpstreamIsMistaken()
    ensures Accepted(Shared, "a.org") && Accepted(Shared, "b.org") && NormalizeRequestHost("b.org") == Some("b.org")
    ensures Undone(Shared, "a.org", "b.org") == "a.org" && !RewritingUndoesRouting(Shared)
  {
    SharedIsWellFormed();
    ExactMatch(Shared, 0);
    ExactMatch(Shared, 1);
    assert "a.org"[0] != "b.org"[0];
    assert "a.org"[1] != "c.net"[1] || "a.org"[0] != "c.net"[0];
    CurrentRouteWins(Shared, "a.org");
  }

  // ---- a route that changes nothing ----

  const Kept := Table([Exact("a.test", "a.test"), Exact("x.org", "test")], [])

  lemma KeptIsWellFormed()
    ensures WellFormed(Kept)
  {
    PlainWhen("a.test");
    PlainWhen("x.org");
    PlainWhen("test");
    assert "a.test"[0] != "x.org"[0];
  }

  lemma TestEndsHost()
    ensures LabelSuffix("test", "a.test")
  {
    var s := "a.test";
    assert s[2] == 't' && s[3] == 'e' && s[4] == 's' && s[5] == 't' && s[1] == '.';
  }

  lemma KeptPairs(p: (Text, Text))
    requires p in CandidatePairs(Kept)
    ensures p == ("a.test", "a.test") || p == ("test", "x.org")
  {
    var i := PairIndex(Kept, p);
    ExactPair(Kept, i);
  }

  lemma KeptTargets()
    ensures "test" in LexicalTargets(Kept) && LexicalTargets(Kept)["test"] == "x.org"
  {
    KeptIsWellFormed();
    assert |"test"| != |"a.test"|;
    forall p | p in CandidatePairs(Kept) && p.0 == "test" ensures p.1 == "x.org" { KeptPairs(p); }
    RouteRecorded(Kept, 1);
  }

  lemma KeptIsDisturbed()
    ensures !Undisturbed(Kept, "a.test")
  {
    KeptTargets();
    TestEndsHost();
    assert |"test"| != |"a.test"| && |"test"| != |"x.org"|;
  }

  /** The current route does not win for a.test: its rule is dropped, and the one for test applies. */
  lemma IdentityRouteLoses()
    ensures WellFormed(Kept) && Accepted(Kept, "a.test") && MatchHost(Kept, "a.test").value.upstreamHost == "a.test"
    ensures Some(Undone(Kept, "a.test", "a.test")) != NormalizeRequestHost("a.test")
  {
    KeptIsWellFormed();
    ExactMatch(Kept, 0);
    KeptIsDisturbed();
    CurrentHostWins(Kept, "a.test");
  }

  lemma RouteRecorded(t: RouteTable, i: nat)
    requires WellFormed(t) && i < |t.orderedExact|
    requires forall p :: p in CandidatePairs(t) && p.0 == t.orderedExact[i].upstreamHost ==>
      p.1 == t.orderedExact[i].incomingHost
    ensures var m := t.orderedExact[i];
      m.upstreamHost in LexicalTargets(t) && LexicalTargets(t)[m.upstreamHost] == m.incomingHost
  {
    ExactPair(t, i);
    TargetsAreMin(CandidatePairs(t));
  }

  // ---- labels with other bytes ----

  const Spaced := Table(
    [Exact("z.com", "b.bgm.tv"), Exact("b.example.com", "other.com")],
    [Wildcard(".example.com", ".bgm.tv")])

  lemma SpacedRoutesArePlain()
    ensures PlainRoutes(Spaced.orderedExact)
  {
    PlainWhen("z.com");
    PlainWhen("b.bgm.tv");
    PlainWhen("b.example.com");
    PlainWhen("other.com");
  }

  lemma SpacedRulesArePlain()
    ensures PlainSuffix(".example.com") && PlainSuffix(".bgm.tv")
  {
    PlainWhen("example.com");
    PlainWhen("bgm.tv");
    PlainSuffixOf("example.com");
    PlainSuffixOf("bgm.tv");
    assert "." + "example.com" == ".example.com" && "." + "bgm.tv" == ".bgm.tv";
  }

  lemma SpacedIsWellFormed()
    ensures WellFormed(Spaced) && DistinctRules(Spaced.wildcard)
  {
    SpacedRoutesArePlain();
    SpacedRulesArePlain();
    assert |"z.com"| != |"b.example.com"|;
  }

  lemma SpacedPairs(p: (Text, Text))
    requires p in CandidatePairs(Spaced)
    ensures p == ("b.bgm.tv", "z.com") || p == ("other.com", "b.example.com") || p == ("bgm.tv", "example.com")
  {
    var i := PairIndex(Spaced, p);
    SpacedIsWellFormed();
    if i < 2 { ExactPair(Spaced, i); } else {
      WildcardPair(Spaced, i - 2);
      ApexOfPlain(".example.com");
      ApexOfPlain(".bgm.tv");
    }
  }

  lemma SpacedDiffer(p: (Text, Text))
    requires p in CandidatePairs(Spaced)
    ensures p.0 != p.1 && |p.0| in {8, 9, 6}
    ensures |p.0| == 8 ==> p == ("b.bgm.tv", "z.com")
    ensures |p.0| == 9 ==> p == ("other.com", "b.example.com")
    ensures |p.0| == 6 ==> p == ("bgm.tv", "example.com")
  {
    SpacedPairs(p);
  }

  lemma NotStripped(t: RouteTable, p: (Text, Text), k: nat)
    requires k < |t.wildcard| && t.wildcard[k].upstreamSuffix != []
    requires var s := t.wildcard[k].upstreamSuffix; |p.0| < |s| || p.0[|p.0| - 1] != s[|s| - 1]
    ensures LabelAgrees(t, p, k)
  {
    var s := t.wildcard[k].upstreamSuffix;
    assert |s| <= |p.0| ==> p.0[|p.0| - |s|..][|s| - 1] == p.0[|p.0| - 1];
  }

  /** A label whose host under the rule is taken by an exact route is no label of the pair. */
  lemma TakenLabelAgrees(t: RouteTable, p: (Text, Text), k: nat, l: Text, i: nat)
    requires WellFormed(t) && k < |t.wildcard| && i < |t.orderedExact|
    requires p.0 == l + t.wildcard[k].upstreamSuffix
    requires t.orderedExact[i].incomingHost == l + t.wildcard[k].incomingSuffix && t.orderedExact[i].upstreamHost != p.0
    ensures LabelAgrees(t, p, k)
  {
    StripLabel(l, t.wildcard[k].upstreamSuffix);
    ExactRouteMatches(t, i);
  }

  /** Below .example.com, b is taken by the exact route, so its upstream is not that of z.com. */
  lemma SpacedTaken()
    ensures LabelAgrees(Spaced, ("b.bgm.tv", "z.com"), 0)
  {
    SpacedIsWellFormed();
    assert "b" + ".bgm.tv" == "b.bgm.tv" && "b" + ".example.com" == "b.example.com";
    assert |"other.com"| != |"b.bgm.tv"|;
    TakenLabelAgrees(Spaced, ("b.bgm.tv", "z.com"), 0, "b", 1);
  }

  lemma SpacedLabels(p: (Text, Text))
    requires p in CandidatePairs(Spaced)
    ensures LabelAgrees(Spaced, p, 0)
  {
    SpacedDiffer(p);
    SpacedTaken();
    SpacedNotStripped();
  }

  lemma SpacedNotStripped()
    ensures LabelAgrees(Spaced, ("other.com", "b.example.com"), 0) && LabelAgrees(Spaced, ("bgm.tv", "example.com"), 0)
  {
    NotStripped(Spaced, ("other.com", "b.example.com"), 0);
    NotStripped(Spaced, ("bgm.tv", "example.com"), 0);
  }

  lemma SpacedUnambiguous()
    ensures RecordsUnambiguous(Spaced)
  {
    forall p, q | p in CandidatePairs(Spaced) && q in CandidatePairs(Spaced) && p.0 == q.0 ensures p.1 == q.1 {
      SpacedDiffer(p);
      SpacedDiffer(q);
    }
    forall p, k | p in CandidatePairs(Spaced) && 0 <= k < |Spaced.wildcard| ensures LabelAgrees(Spaced, p, k) {
      SpacedLabels(p);
    }
  }

  lemma SpacedUndisturbed()
    ensures RecordsUndisturbed(Spaced)
  {
    forall p | p in CandidatePairs(Spaced) ensures p.0 != p.1 { SpacedDiffer(p); }
    assert ".example.com"[1] != ".bgm.tv"[1];
  }

  /** Every request for a plain host is undone. */
  lemma SpacedUndoesPlainHosts()
    ensures WellFormed(Spaced) && DistinctRules(Spaced.wildcard) && RewritingUndoesRouting(Spaced)
  {
    SpacedIsWellFormed();
    SpacedUnambiguous();
    SpacedUndisturbed();
    UndoIff(Spaced);
  }

  /** The label "x b" is accepted, and the response for z.com turns its upstream into "x z.com". */
  lemma SpacedLabelIsMistaken()
    ensures MatchHost(Spaced, "x b.example.com").Some?
      && MatchHost(Spaced, "x b.example.com").value.upstreamHost == "x b.bgm.tv"
      && NormalizeRequestHost("x b.example.com") == Some("x b.example.com")
    ensures Accepted(Spaced, "z.com") && Undone(Spaced, "z.com", "x b.example.com") == "x z.com"
  {
    SpacedIsWellFormed();
    assert "x" + ([' '] + "b") + ".example.com" == "x b.example.com" && "x" + ([' '] + "b") + ".bgm.tv" == "x b.bgm.tv";
    SpacedAccepted(Spaced, 0, "x", "b");
    ExactMatch(Spaced, 0);
    SpacedResponse();
  }

  lemma ShortIsUnchanged(rules: seq<Rule>)
    requires Searchable(rules) && forall r :: r in rules ==> |r.from| > 1
    ensures Scan(rules, "x", 0) == "x"
  {
    assert Unmatched(rules, "x", 0);
    ScanCopies(rules, "x", 0, 1);
    assert "x"[0..1] + [] == "x";
  }

  function AfterSpace(s: Text): Text {
    "x" + ([' '] + s)
  }

  /** After x and a space, a target is rewritten on its own; longer rules leave x alone. */
  lemma ScanAfterSpace(rules: seq<Rule>, sel: map<Text, Text>, u: Text)
    requires PlanOfTargets(rules, sel) && HostRules(rules) && HostShaped(u) && u in sel && sel[u] != u
    requires forall k :: k in sel ==> |k| > 1
    ensures Scan(rules, AfterSpace(u), 0) == AfterSpace(sel[u])
  {
    ScanSplits(rules, "x", ' ', u);
    RestoredByOwnRule(rules, sel, u, sel[u]);
    assert forall r :: r in rules ==> TargetRule(r, sel);
    ShortIsUnchanged(rules);
  }

  lemma SpacedTargetsAreLong(k: Text)
    requires k in Selected(Spaced, Exact("z.com", "b.bgm.tv"))
    ensures |k| > 1
  {
    TargetsAreMin(CandidatePairs(Spaced));
    if k != "b.bgm.tv" { SpacedDiffer((k, LexicalTargets(Spaced)[k])); }
  }

  lemma SpacedPlan()
    ensures var m := Exact("z.com", "b.bgm.tv");
      HostRules(PlanFor(Spaced, m)) && PlanOfTargets(PlanFor(Spaced, m), Selected(Spaced, m))
  {
    var m := Exact("z.com", "b.bgm.tv");
    SpacedIsWellFormed();
    RouteIsPaired(Spaced, 0);
    PlanIsHostRules(Spaced, m);
    RoutedIsNormal(Spaced, m);
    PlanMembers(Spaced, m);
  }

  lemma OwnAfterSpace(t: RouteTable, m: MatchedRoute)
    requires PlanOfTargets(PlanFor(t, m), Selected(t, m)) && HostRules(PlanFor(t, m))
    requires HostShaped(m.upstreamHost) && m.upstreamHost != m.incomingHost
    requires forall k :: k in Selected(t, m) ==> |k| > 1
    ensures Response(t, m, AfterSpace(m.upstreamHost)) == AfterSpace(m.incomingHost)
  {
    ScanAfterSpace(PlanFor(t, m), Selected(t, m), m.upstreamHost);
  }

  lemma SpacedTexts()
    ensures AfterSpace("b.bgm.tv") == "x b.bgm.tv" && AfterSpace("z.com") == "x z.com" && "b.bgm.tv" != "z.com"
  {
    assert |"b.bgm.tv"| != |"z.com"|;
  }

  lemma SpacedResponse()
    ensures Response(Spaced, Exact("z.com", "b.bgm.tv"), "x b.bgm.tv") == "x z.com"
  {
    SpacedPlan();
    PlainWhen("b.bgm.tv");
    forall k | k in Selected(Spaced, Exact("z.com", "b.bgm.tv")) ensures |k| > 1 { SpacedTargetsAreLong(k); }
    SpacedTexts();
    OwnAfterSpace(Spaced, Exact("z.com", "b.bgm.tv"));
  }

  // ---- an upstream without a dot ----

  const Dotless := Table([], [Wildcard(".example.com", ".lan")])

  lemma LanIsPlain()
    ensures PlainSuffix(".lan") && Apex(".lan") == "lan" && '.' !in "lan"
  {
    PlainWhen("lan");
    PlainSuffixOf("lan");
    assert "." + "lan" == ".lan" && ".lan"[1..] == "lan";
    ApexOfPlain(".lan");
  }

  lemma DotlessIsWellFormed()
    ensures WellFormed(Dotless)
  {
    LanIsPlain();
    SpacedRulesArePlain();
  }

  /** Requests for plain hosts are undone, but not all requests: the upstream lan can stand in a label. */
  lemma DotlessIsMistaken()
    ensures WellFormed(Dotless) && RewritingUndoesRouting(Dotless) && !UndoesEveryRequest(Dotless)
  {
    DotlessIsWellFormed();
    LanIsPlain();
    assert |".lan"| != |".example.com"|;
    OneRuleUndoes(Dotless);
    OneRuleUndoesEvery(Dotless);
  }
}
