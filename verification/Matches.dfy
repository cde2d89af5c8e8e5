/** The matches of a pass: what they add to the length, and that they account for every occurrence. */
module Matches {
  import opened Text
  import opened Hosts
  import opened Plans
  import opened Rewriting

  datatype Match = Match(at: nat, rule: Rule) {
    function End(): nat { at + |rule.from| }
  }

  /** The matches the scan replaces from the cursor on. */
  function MatchesFrom(rules: seq<Rule>, input: Text, cursor: nat): seq<Match>
    requires cursor <= |input| && Searchable(rules)
    decreases |input| - cursor
  {
    if cursor == |input| then []
    else match FindRule(rules, input, cursor)
      case Some(r) =>
        FindRuleFinds(rules, input, cursor);
        [Match(cursor, r)] + MatchesFrom(rules, input, cursor + |r.from|)
      case None => MatchesFrom(rules, input, cursor + 1)
  }

  /** By how much the matches make the text longer. */
  function Growth(matches: seq<Match>): int {
    if matches == [] then 0 else |matches[0].rule.to| - |matches[0].rule.from| + Growth(matches[1..])
  }

  lemma GrowthOfFirst(m: Match, more: seq<Match>)
    ensures Growth([m] + more) == |m.rule.to| - |m.rule.from| + Growth(more)
  {
    assert ([m] + more)[1..] == more;
  }

  /** The first match, and those after it. */
  lemma FirstMatch(rules: seq<Rule>, input: Text, cursor: nat, r: Rule)
    requires Searchable(rules) && cursor < |input| && FindRule(rules, input, cursor) == Some(r)
    ensures cursor < cursor + |r.from| <= |input| && r in rules && Occurs(r.from, input, cursor)
    ensures MatchesFrom(rules, input, cursor) == [Match(cursor, r)] + MatchesFrom(rules, input, cursor + |r.from|)
  {
    FindRuleFinds(rules, input, cursor);
  }

  lemma NoMatchHere(rules: seq<Rule>, input: Text, cursor: nat)
    requires Searchable(rules) && cursor < |input| && FindRule(rules, input, cursor).None?
    ensures MatchesFrom(rules, input, cursor) == MatchesFrom(rules, input, cursor + 1)
    ensures Unmatched(rules, input, cursor)
  {
    FindRuleFinds(rules, input, cursor);
  }

  /** Where the rule found at a position ends. */
  ghost predicate Next(rules: seq<Rule>, input: Text, cursor: nat, r: Rule, next: nat) {
    cursor < |input| && FindRule(rules, input, cursor) == Some(r) && next == cursor + |r.from|
  }

  /** Induction over the turns of the scan, from the end of the text. */
  lemma {:induction false} ByTurns(rules: seq<Rule>, input: Text, p: nat -> bool, cursor: nat)
    requires Searchable(rules) && cursor <= |input| && p(|input|)
    requires forall i: nat :: i < |input| && FindRule(rules, input, i).None? && p(i + 1) ==> p(i)
    requires forall i: nat, r, next: nat :: Next(rules, input, i, r, next) && p(next) ==> p(i)
    ensures p(cursor)
    decreases |input| - cursor
  {
    if cursor < |input| {
      match FindRule(rules, input, cursor)
      case Some(r) =>
        FirstMatch(rules, input, cursor, r);
        ByTurns(rules, input, p, cursor + |r.from|);
        assert Next(rules, input, cursor, r, cursor + |r.from|);
      case None =>
        ByTurns(rules, input, p, cursor + 1);
    }
  }

  ghost predicate Accounted(rules: seq<Rule>, input: Text, cursor: nat)
    requires Searchable(rules)
  {
    cursor <= |input| && |Scan(rules, input, cursor)| == |input| - cursor + Growth(MatchesFrom(rules, input, cursor))
  }

  lemma AccountedAtMatch(rules: seq<Rule>, input: Text, cursor: nat, r: Rule)
    requires Searchable(rules) && cursor < |input| && FindRule(rules, input, cursor) == Some(r)
    requires Accounted(rules, input, cursor + |r.from|)
    ensures Accounted(rules, input, cursor)
  {
    FirstMatch(rules, input, cursor, r);
    ScanMatched(rules, input, cursor, r);
    GrowthOfFirst(Match(cursor, r), MatchesFrom(rules, input, cursor + |r.from|));
  }

  lemma AccountedElsewhere(rules: seq<Rule>, input: Text, cursor: nat)
    requires Searchable(rules) && cursor < |input| && FindRule(rules, input, cursor).None?
    requires Accounted(rules, input, cursor + 1)
    ensures Accounted(rules, input, cursor)
  {
    NoMatchHere(rules, input, cursor);
    ScanUnmatched(rules, input, cursor);
  }

  /** The output is longer than the input by exactly what the matches add. */
  lemma LengthAccounting(rules: seq<Rule>, input: Text, cursor: nat)
    requires cursor <= |input| && Searchable(rules)
    ensures |Scan(rules, input, cursor)| == |input| - cursor + Growth(MatchesFrom(rules, input, cursor))
  {
    var p := (i: nat) => Accounted(rules, input, i);
    forall i: nat | i < |input| && FindRule(rules, input, i).None? && p(i + 1) ensures p(i) {
      AccountedElsewhere(rules, input, i);
    }
    forall i: nat, r, next: nat | Next(rules, input, i, r, next) && p(next) ensures p(i) {
      AccountedAtMatch(rules, input, i, r);
    }
    ByTurns(rules, input, p, cursor);
  }

  /** Occurrences of rules from the cursor on, each beginning after the one before has ended. */
  ghost predicate InOrder(rules: seq<Rule>, input: Text, cursor: nat, ms: seq<Match>)
    decreases |ms|
  {
    ms == [] ||
    (cursor <= ms[0].at && ms[0].rule in rules && Occurs(ms[0].rule.from, input, ms[0].at)
     && InOrder(rules, input, ms[0].End(), ms[1..]))
  }

  /** The matches do not overlap. */
  lemma {:induction false} MatchesAreInOrder(rules: seq<Rule>, input: Text, cursor: nat)
    requires cursor <= |input| && Searchable(rules)
    ensures InOrder(rules, input, cursor, MatchesFrom(rules, input, cursor))
    decreases |input| - cursor
  {
    if cursor < |input| {
      FindRuleFinds(rules, input, cursor);
      match FindRule(rules, input, cursor)
      case Some(r) => MatchesAreInOrder(rules, input, cursor + |r.from|);
      case None => MatchesAreInOrder(rules, input, cursor + 1);
    }
  }

  ghost predicate SoughtBy(rules: seq<Rule>, h: Text) {
    exists k :: 0 <= k < |rules| && rules[k].from == h
  }

  /** The occurrence of h at c is the tail of a match from the cursor on, if it is not before the cursor. */
  ghost predicate Replaced(rules: seq<Rule>, input: Text, h: Text, c: nat, cursor: nat)
    requires Searchable(rules)
  {
    cursor <= |input| && (cursor <= c ==> exists m :: TailOf(m, h, c) && m in MatchesFrom(rules, input, cursor))
  }

  ghost predicate TailOf(m: Match, h: Text, c: nat) {
    m.at <= c && m.End() == c + |h|
  }

  lemma ReplacedAtMatch(rules: seq<Rule>, input: Text, h: Text, c: nat, cursor: nat, r: Rule)
    requires Searchable(rules) && HostRules(rules) && HostShaped(h) && Occurs(h, input, c)
    requires cursor < |input| && FindRule(rules, input, cursor) == Some(r)
    requires Replaced(rules, input, h, c, cursor + |r.from|)
    ensures Replaced(rules, input, h, c, cursor)
  {
    FirstMatch(rules, input, cursor, r);
    if cursor <= c < cursor + |r.from| {
      OverlapEndsTogether(r.from, cursor, h, c, input);
      assert TailOf(Match(cursor, r), h, c);
    }
  }

  lemma ReplacedElsewhere(rules: seq<Rule>, input: Text, h: Text, c: nat, cursor: nat)
    requires Searchable(rules) && SoughtBy(rules, h) && Occurs(h, input, c)
    requires cursor < |input| && FindRule(rules, input, cursor).None?
    requires Replaced(rules, input, h, c, cursor + 1)
    ensures Replaced(rules, input, h, c, cursor)
  {
    NoMatchHere(rules, input, cursor);
    var k :| 0 <= k < |rules| && rules[k].from == h;
    assert c != cursor;
  }

  /** No match is lost by jumping over a replacement: every occurrence of every host, also one the cursor
      never comes to, is the tail of a match that is replaced. */
  lemma EveryOccurrenceIsReplaced(rules: seq<Rule>, input: Text, cursor: nat, h: Text, c: nat) returns (m: Match)
    requires cursor <= c <= |input| && Searchable(rules) && HostRules(rules)
    requires HostShaped(h) && Occurs(h, input, c) && SoughtBy(rules, h)
    ensures m in MatchesFrom(rules, input, cursor)
    ensures m.at <= c && m.End() == c + |h|
  {
    var p := (i: nat) => Replaced(rules, input, h, c, i);
    forall i: nat | i < |input| && FindRule(rules, input, i).None? && p(i + 1) ensures p(i) {
      ReplacedElsewhere(rules, input, h, c, i);
    }
    forall i: nat, r, next: nat | Next(rules, input, i, r, next) && p(next) ensures p(i) {
      ReplacedAtMatch(rules, input, h, c, i, r);
    }
    ByTurns(rules, input, p, cursor);
    m :| TailOf(m, h, c) && m in MatchesFrom(rules, input, cursor);
  }
}
