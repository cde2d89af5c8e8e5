/** Letter case, with letters given by their codes: what it means to be equal up to ASCII case, and that the
    case of a text or a request makes no difference to what is found in it. */
module Letters {
  import opened Text
  import opened Hosts
  import opened Plans
  import opened Rewriting
  import opened Matches
  import opened RoundTrip
  import opened Routing

  /** The same byte, or a capital letter and the small one 32 codes further on. */
  predicate SameLetter(a: byte, b: byte) {
    || a == b
    || (65 <= Code(a) <= 90 && Code(b) == Code(a) + 32)
    || (65 <= Code(b) <= 90 && Code(a) == Code(b) + 32)
  }

  predicate SameLetters(s: Text, t: Text) {
    |s| == |t| && forall i :: 0 <= i < |s| ==> SameLetter(s[i], t[i])
  }

  predicate Capital(b: byte) {
    65 <= Code(b) <= 90
  }

  lemma SameLetterIff(a: byte, b: byte)
    ensures LowerByte(a) == LowerByte(b) <==> SameLetter(a, b)
  {
  }

  /** Equality up to case is that and nothing else. */
  lemma EqFoldIff(s: Text, t: Text)
    ensures EqFold(s, t) <==> SameLetters(s, t)
  {
    if EqFold(s, t) {
      assert |Lower(s)| == |Lower(t)|;
      forall i | 0 <= i < |s| ensures SameLetter(s[i], t[i]) {
        assert Lower(s)[i] == Lower(t)[i];
        SameLetterIff(s[i], t[i]);
      }
    }
    if SameLetters(s, t) {
      forall i | 0 <= i < |s| ensures Lower(s)[i] == Lower(t)[i] { SameLetterIff(s[i], t[i]); }
    }
  }

  /** Lower-casing leaves the letters and no capital. */
  lemma LowerIs(s: Text)
    ensures SameLetters(s, Lower(s)) && forall i :: 0 <= i < |s| ==> !Capital(Lower(s)[i])
  {
    forall i | 0 <= i < |s| ensures SameLetter(s[i], Lower(s)[i]) && !Capital(Lower(s)[i]) {
      assert Lower(s)[i] == LowerByte(s[i]);
    }
  }

  // ---- occurrences ----

  /** Letters, digits, '-' and '_' */
  predicate LabelCode(n: int) {
    48 <= n <= 57 || 65 <= n <= 90 || 97 <= n <= 122 || n == 45 || n == 95
  }

  lemma LabelByteIff(b: byte)
    ensures IsLabelByte(b) <==> LabelCode(Code(b))
    ensures IsHostByte(b) <==> LabelCode(Code(b)) || Code(b) == 46
  {
  }

  /** A host occurs where the text has its letters, no label byte before them, and neither a label byte nor
      a dot after them. */
  lemma OccursIff(h: Text, s: Text, c: nat)
    ensures Occurs(h, s, c) <==>
      && c + |h| <= |s| && SameLetters(h, s[c..c + |h|])
      && (c == 0 || !LabelCode(Code(s[c - 1])))
      && (c + |h| == |s| || !(LabelCode(Code(s[c + |h|])) || Code(s[c + |h|]) == 46))
  {
    if c + |h| <= |s| {
      FoldAtIsEqFold(h, s, c);
      EqFoldIff(h, s[c..c + |h|]);
    }
  }

  lemma OccursInAnyCase(h: Text, s: Text, t: Text, c: nat)
    requires SameLetters(s, t)
    ensures Occurs(h, s, c) <==> Occurs(h, t, c)
  {
    forall i | 0 <= i < |s|
      ensures LowerByte(s[i]) == LowerByte(t[i]) && (IsHostByte(s[i]) <==> IsHostByte(t[i]))
      ensures IsLabelByte(s[i]) <==> IsLabelByte(t[i])
    {
      SameLetterIff(s[i], t[i]);
    }
  }

  lemma {:induction false} FindInAnyCase(rules: seq<Rule>, s: Text, t: Text, c: nat, i: nat)
    requires SameLetters(s, t) && i <= |rules|
    ensures FindFrom(rules, s, c, i) == FindFrom(rules, t, c, i)
    decreases |rules| - i
  {
    if i < |rules| {
      OccursInAnyCase(rules[i].from, s, t, c);
      FindInAnyCase(rules, s, t, c, i + 1);
    }
  }

  /** The same matches are replaced, whatever the case of the text. */
  lemma {:induction false} MatchesInAnyCase(rules: seq<Rule>, s: Text, t: Text, c: nat)
    requires SameLetters(s, t) && c <= |s| && Searchable(rules)
    ensures MatchesFrom(rules, s, c) == MatchesFrom(rules, t, c)
    decreases |s| - c
  {
    if c < |s| {
      FindInAnyCase(rules, s, t, c, 0);
      FindRuleFinds(rules, s, c);
      match FindRule(rules, s, c)
      case Some(r) => MatchesInAnyCase(rules, s, t, c + |r.from|);
      case None => MatchesInAnyCase(rules, s, t, c + 1);
    }
  }

  lemma SameLettersConcat(a: Text, b: Text, a': Text, b': Text)
    requires SameLetters(a, a') && SameLetters(b, b')
    ensures SameLetters(a + b, a' + b')
  {
  }

  ghost predicate SameOutput(rules: seq<Rule>, s: Text, t: Text, c: nat)
    requires Searchable(rules)
  {
    c <= |s| && c <= |t| && SameLetters(Scan(rules, s, c), Scan(rules, t, c))
  }

  lemma SameOutputAtMatch(rules: seq<Rule>, s: Text, t: Text, c: nat, r: Rule)
    requires SameLetters(s, t) && Searchable(rules) && c < |s| && FindRule(rules, s, c) == Some(r)
    requires SameOutput(rules, s, t, c + |r.from|)
    ensures SameOutput(rules, s, t, c)
  {
    FindInAnyCase(rules, s, t, c, 0);
    ScanMatched(rules, s, c, r);
    ScanMatched(rules, t, c, r);
    SameLettersConcat(r.to, Scan(rules, s, c + |r.from|), r.to, Scan(rules, t, c + |r.from|));
  }

  lemma SameOutputElsewhere(rules: seq<Rule>, s: Text, t: Text, c: nat)
    requires SameLetters(s, t) && Searchable(rules) && c < |s| && FindRule(rules, s, c).None?
    requires SameOutput(rules, s, t, c + 1)
    ensures SameOutput(rules, s, t, c)
  {
    FindInAnyCase(rules, s, t, c, 0);
    SameLettersConcat([s[c]], Scan(rules, s, c + 1), [t[c]], Scan(rules, t, c + 1));
  }

  /** The output has the case of the text where it is copied, and no other differences. */
  lemma ScanInAnyCase(rules: seq<Rule>, s: Text, t: Text, c: nat)
    requires SameLetters(s, t) && c <= |s| && Searchable(rules)
    ensures SameLetters(Scan(rules, s, c), Scan(rules, t, c))
  {
    var p := (i: nat) => SameOutput(rules, s, t, i);
    forall i: nat | i < |s| && FindRule(rules, s, i).None? && p(i + 1) ensures p(i) {
      SameOutputElsewhere(rules, s, t, i);
    }
    forall i: nat, r, next: nat | Next(rules, s, i, r, next) && p(next) ensures p(i) {
      SameOutputAtMatch(rules, s, t, i, r);
    }
    ByTurns(rules, s, p, c);
  }

  /** The host of a rule, in any case, becomes the target of the rule. */
  lemma HostInAnyCase(rules: seq<Rule>, r: Rule, s: Text)
    requires ValidPlan(rules) && r in rules && SameLetters(r.from, s)
    ensures Scan(rules, s, 0) == r.to
  {
    assert s[0..|s|] == s;
    OccursIff(r.from, s, 0);
    FoundRuleIsLongest(rules, s, 0, r);
    FindRuleFinds(rules, s, 0);
    ScanMatched(rules, s, 0, FindRule(rules, s, 0).value);
    assert r.to + [] == r.to;
  }

  // ---- requests ----

  lemma SameSpaceAt(s: Text, t: Text, i: nat)
    requires SameLetters(s, t) && i <= |s|
    ensures SpaceAt(s, i) == SpaceAt(t, i) && SpaceBefore(s, i) == SpaceBefore(t, i)
  {
  }

  lemma {:induction false} SameSkip(s: Text, t: Text, i: nat)
    requires SameLetters(s, t) && i <= |s|
    ensures SkipSpace(s, i) == SkipSpace(t, i)
    decreases |s| - i
  {
    SameSpaceAt(s, t, i);
    if SpaceAt(s, i) > 0 { SameSkip(s, t, i + SpaceAt(s, i)); }
  }

  lemma {:induction false} SameSkipBack(s: Text, t: Text, j: nat)
    requires SameLetters(s, t) && j <= |s|
    ensures SkipSpaceBack(s, j) == SkipSpaceBack(t, j)
    decreases j
  {
    SameSpaceAt(s, t, j);
    if SpaceBefore(s, j) > 0 { SameSkipBack(s, t, j - SpaceBefore(s, j)); }
  }

  lemma TrimInAnyCase(s: Text, t: Text)
    requires SameLetters(s, t)
    ensures SameLetters(Trim(s), Trim(t))
  {
    SameSkip(s, t, 0);
    var s', t' := TrimStart(s), TrimStart(t);
    SameSkipBack(s', t', |s'|);
  }

  lemma {:induction false} SameDots(s: Text, t: Text, j: nat)
    requires SameLetters(s, t) && j <= |s|
    ensures SkipByteBack(s, '.', j) == SkipByteBack(t, '.', j)
  {
    if j > 0 && s[j - 1] == '.' { SameDots(s, t, j - 1); }
  }

  /** A host in any case is normalised to the same. */
  lemma NormalizeInAnyCase(s: Text, t: Text)
    requires SameLetters(s, t)
    ensures NormalizeHost(s) == NormalizeHost(t)
  {
    TrimInAnyCase(s, t);
    SameDots(Trim(s), Trim(t), |Trim(s)|);
    EqFoldIff(TrimEndByte(Trim(s), '.'), TrimEndByte(Trim(t), '.'));
  }

  lemma {:induction false} SameIndex(s: Text, t: Text, b: byte, i: nat)
    requires SameLetters(s, t) && i <= |s| && (b == ':' || b == ']')
    ensures IndexOf(s, b, i) == IndexOf(t, b, i)
    decreases |s| - i
  {
    if i < |s| && s[i] != b { SameIndex(s, t, b, i + 1); }
  }

  lemma WithoutPortInAnyCase(s: Text, t: Text)
    requires SameLetters(s, t) && s != []
    ensures SameLetters(WithoutPort(s), WithoutPort(t))
  {
    SameIndex(s, t, ']', 1);
    SameIndex(s, t, ':', 0);
    assert s[0] == '[' <==> t[0] == '[';
  }

  /** A request in any letter case is matched the same. */
  lemma RequestInAnyCase(t: RouteTable, r: Text, r': Text)
    requires SameLetters(r, r')
    ensures MatchHost(t, r) == MatchHost(t, r')
  {
    TrimInAnyCase(r, r');
    if Trim(r) != [] {
      WithoutPortInAnyCase(Trim(r), Trim(r'));
      NormalizeInAnyCase(WithoutPort(Trim(r)), WithoutPort(Trim(r')));
    }
  }

  /** Rewriting with one rule turns the source host, in any case, into the target. */
  lemma OneRuleInAnyCase(from: Text, to: Text, s: Text)
    requires NormalizeHost(from) != [] && NormalizeHost(from) != NormalizeHost(to)
    requires SameLetters(NormalizeHost(from), s)
    ensures RewriteHeader(s, from, to) == NormalizeHost(to)
  {
    SingleRuleIs(from, to);
    HostInAnyCase(SingleRule(from, to), Rule(NormalizeHost(from), NormalizeHost(to)), s);
  }
}
