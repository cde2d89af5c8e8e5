/** When rewriting undoes routing, as a condition that can be computed from the table. */
module UndoFinite {
  import opened Text
  import opened Hosts
  import opened Plans
  import opened Rewriting
  import opened Routing
  import opened RoutingUndo
  import opened MatchedHosts
  import opened WildcardOrder
  import opened UndoExactly

  /** Recorded pairs with the same upstream have the same host, also when the host is not recorded but one
      that a wildcard rule takes to the upstream of a recorded pair. */
  predicate RecordsUnambiguous(t: RouteTable) {
    && (forall p, q :: p in CandidatePairs(t) && q in CandidatePairs(t) && p.0 == q.0 ==> p.1 == q.1)
    && (forall p, k :: p in CandidatePairs(t) && 0 <= k < |t.wildcard| ==> LabelAgrees(t, p, k))
  }

  /** If the upstream of the pair is a label and the rest of rule k, and the rule takes its host there, then
      that is the host of the pair. */
  predicate LabelAgrees(t: RouteTable, p: (Text, Text), k: nat)
    requires k < |t.wildcard|
  {
    match StripSuffix(p.0, t.wildcard[k].upstreamSuffix)
    case None => true
    case Some(l) =>
      var h := l + t.wildcard[k].incomingSuffix;
      l != [] && '.' !in l && Routes(t, h, p.0) ==> p.1 == h
  }

  /** No upstream recorded for another host ends a recorded host that is routed to itself, or the apex of a
      wildcard rule that changes nothing. */
  predicate RecordsUndisturbed(t: RouteTable) {
    && (forall p, q :: p in CandidatePairs(t) && q in CandidatePairs(t) ==>
          p.0 != p.1 && q.0 == q.1 && Routes(t, q.0, q.0) ==> !LabelSuffix(p.0, q.0))
    && (forall p, k :: p in CandidatePairs(t) && 0 <= k < |t.wildcard| && p.0 != p.1 ==>
          ApexUndisturbed(t.wildcard[k], p.0))
  }

  predicate ApexUndisturbed(rule: WildcardRule, u: Text) {
    rule.incomingSuffix == rule.upstreamSuffix ==> !LabelSuffix(u, Apex(rule.upstreamSuffix))
  }

  /** A pair is recorded, or comes from a label under a wildcard rule. */
  lemma RecordedOrLabel(t: RouteTable, h: Text, u: Text) returns (k: nat, p: Text)
    requires WellFormed(t) && Paired(t, h, u)
    ensures (u, h) in CandidatePairs(t)
      || (Routes(t, h, u) && Accepts(t, h, u, ByLabel(k, p)))
  {
    k, p := 0, [];
    if (u, h) !in CandidatePairs(t) {
      var a := HowAccepted(t, h);
      match a
      case ByRoute(i) => ExactPair(t, i);
      case ByApex(j) => ApexIsPair(t, j);
      case ByLabel(j, l) => k, p := j, l;
    }
  }

  lemma StripLabel(p: Text, s: Text)
    ensures StripSuffix(p + s, s) == Some(p)
  {
    assert (p + s)[|p|..] == s && (p + s)[..|p|] == p;
  }

  lemma StripGives(s: Text, suffix: Text)
    ensures StripSuffix(s, suffix).Some? ==> s == StripSuffix(s, suffix).value + suffix
  {
  }

  lemma SameSuffixSameApex(t: RouteTable, j: nat, k: nat)
    requires WellFormed(t) && RecordsUnambiguous(t) && j < |t.wildcard| && k < |t.wildcard|
    requires t.wildcard[j].upstreamSuffix == t.wildcard[k].upstreamSuffix
    ensures t.wildcard[j].incomingSuffix == t.wildcard[k].incomingSuffix
  {
    ApexIsPair(t, j);
    ApexIsPair(t, k);
    ApexOfPlain(t.wildcard[j].incomingSuffix);
    ApexOfPlain(t.wildcard[k].incomingSuffix);
  }

  lemma LabelsAgree(t: RouteTable, h: Text, h': Text, u: Text, j: nat, p: Text, k: nat, p': Text)
    requires WellFormed(t) && RecordsUnambiguous(t)
    requires Accepts(t, h, u, ByLabel(j, p)) && Accepts(t, h', u, ByLabel(k, p'))
    ensures h == h'
  {
    SameSplit(p, t.wildcard[j].upstreamSuffix, p', t.wildcard[k].upstreamSuffix);
    assert p == u[..|p|] == p';
    SameSuffixSameApex(t, j, k);
  }

  lemma LabelMeetsRecord(t: RouteTable, h: Text, h': Text, u: Text, k: nat, p: Text)
    requires WellFormed(t) && RecordsUnambiguous(t)
    requires Routes(t, h, u) && Accepts(t, h, u, ByLabel(k, p)) && (u, h') in CandidatePairs(t)
    ensures h == h'
  {
    StripLabel(p, t.wildcard[k].upstreamSuffix);
    assert LabelAgrees(t, (u, h'), k);
  }

  lemma RecordsSuffice(t: RouteTable, h: Text, h': Text, u: Text)
    requires WellFormed(t) && RecordsUnambiguous(t) && Paired(t, h, u) && Paired(t, h', u)
    ensures h == h'
  {
    var k, p := RecordedOrLabel(t, h, u);
    var k', p' := RecordedOrLabel(t, h', u);
    if (u, h) in CandidatePairs(t) {
      if (u, h') !in CandidatePairs(t) { LabelMeetsRecord(t, h', h, u, k', p'); }
    } else if (u, h') in CandidatePairs(t) {
      LabelMeetsRecord(t, h, h', u, k, p);
    } else {
      LabelsAgree(t, h, h', u, k, p, k', p');
    }
  }

  lemma UnambiguousIff(t: RouteTable)
    requires WellFormed(t)
    ensures Unambiguous(t) <==> RecordsUnambiguous(t)
  {
    if RecordsUnambiguous(t) {
      forall h, h', u | Paired(t, h, u) && Paired(t, h', u) ensures h == h' { RecordsSuffice(t, h, h', u); }
    }
    if Unambiguous(t) {
      forall p, q | p in CandidatePairs(t) && q in CandidatePairs(t) && p.0 == q.0 ensures p.1 == q.1 {
        assert Paired(t, p.1, p.0) && Paired(t, q.1, p.0);
      }
      forall p, k | p in CandidatePairs(t) && 0 <= k < |t.wildcard| ensures LabelAgrees(t, p, k) {
        assert Paired(t, p.1, p.0);
        var l := StripSuffix(p.0, t.wildcard[k].upstreamSuffix);
        if l.Some? {
          var h := l.value + t.wildcard[k].incomingSuffix;
          assert Routes(t, h, p.0) ==> Paired(t, h, p.0);
        }
      }
    }
  }

  lemma RecordedIdentity(t: RouteTable, h: Text, p: (Text, Text))
    requires WellFormed(t) && Unambiguous(t) && RecordsUndisturbed(t)
    requires Routes(t, h, h) && p in CandidatePairs(t) && p.0 != p.1
    ensures !LabelSuffix(p.0, h)
  {
    var k, l := RecordedOrLabel(t, h, h);
    if (h, h) !in CandidatePairs(t) {
      AcceptedArePlain(t, h, h, ByLabel(k, l));
      RecordedIsPlain(t, p);
      assert Paired(t, p.1, p.0) && (p.0 == h ==> Paired(t, p.1, h)) && Paired(t, h, h);
      LabelUndisturbed(t, k, l, p.0);
    }
  }

  lemma LabelUndisturbed(t: RouteTable, k: nat, l: Text, u: Text)
    requires WellFormed(t) && k < |t.wildcard| && ApexUndisturbed(t.wildcard[k], u)
    requires AllHost(l) && Lower(l) == l && '.' !in l && Lower(u) == u && u != l + t.wildcard[k].upstreamSuffix
    requires l + t.wildcard[k].incomingSuffix == l + t.wildcard[k].upstreamSuffix
    ensures !LabelSuffix(u, l + t.wildcard[k].upstreamSuffix)
  {
    var inc, up := t.wildcard[k].incomingSuffix, t.wildcard[k].upstreamSuffix;
    assert inc == (l + inc)[|l|..] && up == (l + up)[|l|..];
    ApexOfPlain(up);
    SuffixUnderLabel(Rule(u, u), l, up);
  }

  lemma UndisturbedIff(t: RouteTable)
    requires WellFormed(t) && DistinctRules(t.wildcard) && Unambiguous(t)
    ensures IdentitiesUndisturbed(t) <==> RecordsUndisturbed(t)
  {
    if RecordsUndisturbed(t) {
      forall h, p | Routes(t, h, h) && p in CandidatePairs(t) && p.0 != p.1 ensures !LabelSuffix(p.0, h) {
        RecordedIdentity(t, h, p);
      }
    }
    if IdentitiesUndisturbed(t) {
      forall p, k | p in CandidatePairs(t) && 0 <= k < |t.wildcard| && p.0 != p.1
        ensures ApexUndisturbed(t.wildcard[k], p.0)
      {
        IdentityApexUndisturbed(t, k, p);
      }
    }
  }

  lemma IdentityApexUndisturbed(t: RouteTable, k: nat, p: (Text, Text))
    requires WellFormed(t) && DistinctRules(t.wildcard) && IdentitiesUndisturbed(t)
    requires k < |t.wildcard| && p in CandidatePairs(t) && p.0 != p.1
    ensures ApexUndisturbed(t.wildcard[k], p.0)
  {
    var up := t.wildcard[k].upstreamSuffix;
    if t.wildcard[k].incomingSuffix == up {
      var x := FreshLabelExists(t);
      FreshIsRouted(t, k, x);
      ApexOfPlain(up);
      MissesRest(p.0, x, up);
    }
  }

  /** On every well-formed table, rewriting undoes routing exactly when its finitely many recorded pairs and
      rules are in order. */
  lemma UndoIff(t: RouteTable)
    requires WellFormed(t) && DistinctRules(t.wildcard)
    ensures RewritingUndoesRouting(t) <==> RecordsUnambiguous(t) && RecordsUndisturbed(t)
  {
    UndoIffUnambiguous(t);
    UnambiguousIff(t);
    if Unambiguous(t) { UndisturbedIff(t); }
  }
}
