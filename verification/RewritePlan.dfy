/** Building a rewrite plan: which rules survive, and in which order they are tried. */
module Plans {
  import opened Text
  import opened Hosts

  datatype Rule = Rule(from: Text, to: Text)

  /** `RewriteRule::new`, the only way to make a rule */
  function NewRule(from: Text, to: Text): Rule {
    Rule(NormalizeHost(from), NormalizeHost(to))
  }

  predicate Kept(r: Rule) {
    r.from != [] && r.from != r.to
  }

  /** Order of the hosts to look for: longer ones first, then bytewise. */
  predicate KeyLess(a: Text, b: Text) {
    |a| > |b| || (|a| == |b| && LexLess(a, b))
  }

  predicate RuleLess(a: Rule, b: Rule) {
    KeyLess(a.from, b.from) || (a.from == b.from && LexLess(a.to, b.to))
  }

  /** `Vec::retain` */
  function Retain(rules: seq<Rule>): seq<Rule> {
    if rules == [] then []
    else (if Kept(rules[0]) then [rules[0]] else []) + Retain(rules[1..])
  }

  /** `sort_by`: std's sort is outside the repository; insertion stands in for it. */
  function SortRules(rules: seq<Rule>): seq<Rule> {
    if rules == [] then [] else InsertRule(rules[0], SortRules(rules[1..]))
  }

  function InsertRule(r: Rule, rules: seq<Rule>): seq<Rule> {
    if rules == [] || !RuleLess(rules[0], r) then [r] + rules
    else [rules[0]] + InsertRule(r, rules[1..])
  }

  /** `dedup_by`: of neighbours with the same host to look for, the first stays. */
  function DedupByFrom(rules: seq<Rule>): seq<Rule>
    decreases |rules|
  {
    if |rules| < 2 then rules
    else if rules[1].from == rules[0].from then DedupByFrom([rules[0]] + rules[2..])
    else [rules[0]] + DedupByFrom(rules[1..])
  }

  function PlanOf(rules: seq<Rule>): seq<Rule> {
    DedupByFrom(SortRules(Retain(rules)))
  }

  // ---- what a plan is, whatever order the rules came in ----

  ghost predicate StrictKeys(plan: seq<Rule>) {
    forall i, j {:trigger KeyLess(plan[i].from, plan[j].from)} :: 0 <= i < j < |plan| ==>
      KeyLess(plan[i].from, plan[j].from)
  }

  /** The rule is kept and no kept rule for the same host has a smaller target. */
  ghost predicate Smallest(r: Rule, rules: seq<Rule>) {
    && r in rules && Kept(r)
    && forall q :: q in rules && Kept(q) && q.from == r.from ==> !LexLess(q.to, r.to)
  }

  /** One rule per host that has a kept rule, the one with the smallest target, longest host first. */
  ghost predicate IsPlan(plan: seq<Rule>, rules: seq<Rule>) {
    && StrictKeys(plan)
    && (forall r :: r in plan ==> Smallest(r, rules))
    && (forall q {:trigger HasKey(plan, q.from)} :: q in rules && Kept(q) ==> HasKey(plan, q.from))
  }

  ghost predicate HasKey(plan: seq<Rule>, from: Text) {
    exists r :: r in plan && r.from == from
  }

  lemma KeyLessTransitive(a: Text, b: Text, c: Text)
    requires KeyLess(a, b) && KeyLess(b, c)
    ensures KeyLess(a, c)
  {
    if |a| == |c| { LexTransitive(a, b, c); }
  }

  lemma KeyLessIrreflexive(a: Text)
    ensures !KeyLess(a, a)
  {
    LexIrreflexive(a);
  }

  lemma KeyLessTotal(a: Text, b: Text)
    ensures KeyLess(a, b) || a == b || KeyLess(b, a)
  {
    LexTotal(a, b);
  }

  lemma RuleLessTransitive(a: Rule, b: Rule, c: Rule)
    requires RuleLess(a, b) && RuleLess(b, c)
    ensures RuleLess(a, c)
  {
    if KeyLess(a.from, b.from) && KeyLess(b.from, c.from) { KeyLessTransitive(a.from, b.from, c.from); }
    if a.from == b.from == c.from && LexLess(a.to, b.to) && LexLess(b.to, c.to) { LexTransitive(a.to, b.to, c.to); }
  }

  lemma RuleLessTotal(a: Rule, b: Rule)
    ensures RuleLess(a, b) || a == b || RuleLess(b, a)
  {
    KeyLessTotal(a.from, b.from);
    LexTotal(a.to, b.to);
  }

  ghost predicate RuleLeq(a: Rule, b: Rule) {
    a == b || RuleLess(a, b)
  }

  ghost predicate Sorted(rules: seq<Rule>) {
    forall i, j :: 0 <= i < j < |rules| ==> RuleLeq(rules[i], rules[j])
  }

  lemma {:induction false} RetainKeeps(rules: seq<Rule>, r: Rule)
    ensures r in Retain(rules) <==> r in rules && Kept(r)
  {
    if rules != [] {
      RetainKeeps(rules[1..], r);
      assert rules == [rules[0]] + rules[1..];
    }
  }

  lemma {:induction false} InsertKeeps(r: Rule, rules: seq<Rule>, q: Rule)
    ensures q in InsertRule(r, rules) <==> q == r || q in rules
  {
    if rules != [] {
      InsertKeeps(r, rules[1..], q);
      assert rules == [rules[0]] + rules[1..];
    }
  }

  lemma {:induction false} SortKeeps(rules: seq<Rule>, q: Rule)
    ensures q in SortRules(rules) <==> q in rules
  {
    if rules != [] {
      SortKeeps(rules[1..], q);
      InsertKeeps(rules[0], SortRules(rules[1..]), q);
      assert rules == [rules[0]] + rules[1..];
    }
  }

  lemma ConsSorted(r: Rule, rules: seq<Rule>)
    requires Sorted(rules) && forall q :: q in rules ==> RuleLeq(r, q)
    ensures Sorted([r] + rules)
  {
  }

  lemma {:induction false} InsertSorted(r: Rule, rules: seq<Rule>)
    requires Sorted(rules)
    ensures Sorted(InsertRule(r, rules))
  {
    if rules == [] {
    } else if !RuleLess(rules[0], r) {
      forall q | q in rules ensures RuleLeq(r, q) {
        RuleLessTotal(r, rules[0]);
        assert RuleLeq(rules[0], q);
        if RuleLess(r, rules[0]) && RuleLess(rules[0], q) { RuleLessTransitive(r, rules[0], q); }
      }
      ConsSorted(r, rules);
    } else {
      InsertSorted(r, rules[1..]);
      forall q | q in InsertRule(r, rules[1..]) ensures RuleLeq(rules[0], q) {
        InsertKeeps(r, rules[1..], q);
      }
      ConsSorted(rules[0], InsertRule(r, rules[1..]));
    }
  }

  lemma {:induction false} SortSorts(rules: seq<Rule>)
    ensures Sorted(SortRules(rules))
  {
    if rules != [] {
      SortSorts(rules[1..]);
      InsertSorted(rules[0], SortRules(rules[1..]));
    }
  }

  lemma {:induction false} DedupKeeps(rules: seq<Rule>, r: Rule)
    requires r in DedupByFrom(rules)
    ensures r in rules
    decreases |rules|
  {
    if |rules| >= 2 {
      if rules[1].from == rules[0].from {
        DedupKeeps([rules[0]] + rules[2..], r);
      } else if r != rules[0] {
        DedupKeeps(rules[1..], r);
      }
    }
  }

  /** Deduplication of sorted rules leaves a representative with a target at most as large. */
  lemma {:induction false} DedupRepresents(rules: seq<Rule>, q: Rule) returns (r: Rule)
    requires Sorted(rules) && q in rules
    ensures r in DedupByFrom(rules) && r.from == q.from && RuleLeq(r, q)
    decreases |rules|
  {
    if |rules| < 2 {
      r := q;
    } else if rules[1].from == rules[0].from {
      var next := [rules[0]] + rules[2..];
      if q == rules[1] {
        r := DedupRepresents(next, rules[0]);
        if RuleLess(r, rules[0]) && RuleLess(rules[0], q) { RuleLessTransitive(r, rules[0], q); }
      } else {
        assert q in next;
        r := DedupRepresents(next, q);
      }
    } else if q == rules[0] {
      r := q;
    } else {
      assert q in rules[1..];
      r := DedupRepresents(rules[1..], q);
    }
  }

  lemma ConsStrict(r: Rule, plan: seq<Rule>)
    requires StrictKeys(plan) && forall i :: 0 <= i < |plan| ==> KeyLess(r.from, plan[i].from)
    ensures StrictKeys([r] + plan)
  {
    var p := [r] + plan;
    forall i, j | 0 <= i < j < |p| ensures KeyLess(p[i].from, p[j].from) {
      if i > 0 { assert KeyLess(plan[i - 1].from, plan[j - 1].from); }
    }
  }

  lemma {:induction false} DedupStrict(rules: seq<Rule>)
    requires Sorted(rules)
    ensures StrictKeys(DedupByFrom(rules))
    decreases |rules|
  {
    if |rules| >= 2 {
      if rules[1].from == rules[0].from {
        DedupStrict([rules[0]] + rules[2..]);
      } else {
        var rest := DedupByFrom(rules[1..]);
        DedupStrict(rules[1..]);
        assert RuleLeq(rules[0], rules[1]);
        forall i | 0 <= i < |rest| ensures KeyLess(rules[0].from, rest[i].from) {
          DedupKeeps(rules[1..], rest[i]);
          assert RuleLeq(rules[1], rest[i]);
          if KeyLess(rules[1].from, rest[i].from) { KeyLessTransitive(rules[0].from, rules[1].from, rest[i].from); }
        }
        ConsStrict(rules[0], rest);
      }
    }
  }

  lemma PlanOfIsPlan(rules: seq<Rule>)
    ensures IsPlan(PlanOf(rules), rules)
  {
    var kept := Retain(rules);
    var sorted := SortRules(kept);
    var plan := PlanOf(rules);
    SortSorts(kept);
    DedupStrict(sorted);
    forall r | r in plan ensures Smallest(r, rules) {
      DedupKeeps(sorted, r);
      SortKeeps(kept, r);
      RetainKeeps(rules, r);
      forall q | q in rules && Kept(q) && q.from == r.from ensures !LexLess(q.to, r.to) {
        RetainKeeps(rules, q);
        SortKeeps(kept, q);
        var p := DedupRepresents(sorted, q);
        StrictKeysUnique(plan, p, r);
        KeyLessIrreflexive(q.from);
        if RuleLess(r, q) && LexLess(q.to, r.to) { LexTransitive(r.to, q.to, r.to); }
        LexIrreflexive(r.to);
      }
    }
    forall q | q in rules && Kept(q) ensures HasKey(plan, q.from) {
      RetainKeeps(rules, q);
      SortKeeps(kept, q);
      var r := DedupRepresents(sorted, q);
    }
  }

  lemma StrictKeysUnique(plan: seq<Rule>, p: Rule, q: Rule)
    requires StrictKeys(plan) && p in plan && q in plan && p.from == q.from
    ensures p == q
  {
    var i :| 0 <= i < |plan| && plan[i] == p;
    var j :| 0 <= j < |plan| && plan[j] == q;
    assert i < j ==> KeyLess(plan[i].from, plan[j].from);
    assert j < i ==> KeyLess(plan[j].from, plan[i].from);
    KeyLessIrreflexive(p.from);
  }

  /** A plan depends only on which rules there are, not on their order or repetition. */
  lemma PlanIsCanonical(plan1: seq<Rule>, rules1: seq<Rule>, plan2: seq<Rule>, rules2: seq<Rule>)
    requires IsPlan(plan1, rules1) && IsPlan(plan2, rules2)
    requires forall r :: r in rules1 <==> r in rules2
    ensures plan1 == plan2
  {
    forall r ensures r in plan1 <==> r in plan2 {
      if r in plan1 { PlanMember(plan1, rules1, plan2, rules2, r); }
      if r in plan2 { PlanMember(plan2, rules2, plan1, rules1, r); }
    }
    SameMembersSameSequence(plan1, plan2);
  }

  lemma PlanMember(plan1: seq<Rule>, rules1: seq<Rule>, plan2: seq<Rule>, rules2: seq<Rule>, r: Rule)
    requires IsPlan(plan1, rules1) && IsPlan(plan2, rules2)
    requires forall r :: r in rules1 <==> r in rules2
    requires r in plan1
    ensures r in plan2
  {
    assert Smallest(r, rules1) && HasKey(plan2, r.from);
    var p :| p in plan2 && p.from == r.from;
    assert Smallest(p, rules2);
    LexTotal(p.to, r.to);
  }

  lemma {:induction false} SameMembersSameSequence(p: seq<Rule>, q: seq<Rule>)
    requires StrictKeys(p) && StrictKeys(q)
    requires forall r :: r in p <==> r in q
    ensures p == q
  {
    if q != [] { assert q[0] in q; }
    if p != [] {
      assert p[0] in q && q != [];
      assert q[0] in p;
      HeadIsLeast(p, q[0]);
      HeadIsLeast(q, p[0]);
      if p[0] != q[0] {
        KeyLessTransitive(p[0].from, q[0].from, p[0].from);
        KeyLessIrreflexive(p[0].from);
      }
      TailMember(p, p[0]);
      TailMember(q, q[0]);
      forall r ensures r in p[1..] <==> r in q[1..] {
        TailMember(p, r);
        TailMember(q, r);
      }
      SameMembersSameSequence(p[1..], q[1..]);
      assert p == [p[0]] + p[1..] && q == [q[0]] + q[1..];
    }
  }

  lemma HeadIsLeast(p: seq<Rule>, r: Rule)
    requires StrictKeys(p) && r in p
    ensures r == p[0] || KeyLess(p[0].from, r.from)
  {
    var i :| 0 <= i < |p| && p[i] == r;
    assert 0 < i ==> KeyLess(p[0].from, p[i].from);
  }

  lemma TailMember(p: seq<Rule>, r: Rule)
    requires StrictKeys(p) && p != []
    ensures r in p[1..] <==> r in p && r != p[0]
    ensures StrictKeys(p[1..])
  {
    if i :| 0 <= i < |p[1..]| && p[1..][i] == r {
      assert KeyLess(p[0].from, p[i + 1].from);
    }
    forall i, j | 0 <= i < j < |p[1..]| ensures KeyLess(p[1..][i].from, p[1..][j].from) {
      assert KeyLess(p[i + 1].from, p[j + 1].from);
    }
    KeyLessIrreflexive(p[0].from);
    assert p == [p[0]] + p[1..];
  }

  /** `RewritePlan::new` of any reordering or repetition of the rules is the same plan. */
  lemma PlanOfIgnoresOrder(rules1: seq<Rule>, rules2: seq<Rule>)
    requires forall r :: r in rules1 <==> r in rules2
    ensures PlanOf(rules1) == PlanOf(rules2)
  {
    PlanOfIsPlan(rules1);
    PlanOfIsPlan(rules2);
    PlanIsCanonical(PlanOf(rules1), rules1, PlanOf(rules2), rules2);
  }

  // ---- the same, spelled out ----

  /** Longer hosts first, hosts of the same length in the order of their codes, no host twice. */
  ghost predicate LongestFirst(plan: seq<Rule>) {
    forall i, j :: 0 <= i < j < |plan| ==> ComesBefore(plan[i].from, plan[j].from)
  }

  ghost predicate ComesBefore(a: Text, b: Text) {
    |a| > |b| || (|a| == |b| && Before(a, b))
  }

  /** A rule that changes something, with the first target of all those for its host. */
  ghost predicate FirstTarget(r: Rule, rules: seq<Rule>) {
    && r in rules && r.from != [] && r.from != r.to
    && forall q :: q in rules && q.from == r.from && q.from != q.to ==> q.to == r.to || Before(r.to, q.to)
  }

  ghost predicate SpelledOut(plan: seq<Rule>, rules: seq<Rule>) {
    && LongestFirst(plan)
    && (forall r :: r in plan ==> FirstTarget(r, rules))
    && (forall q {:trigger HasKey(plan, q.from)} :: q in rules && q.from != [] && q.from != q.to ==>
          HasKey(plan, q.from))
  }

  lemma PlanSpelledOut(plan: seq<Rule>, rules: seq<Rule>)
    requires IsPlan(plan, rules)
    ensures SpelledOut(plan, rules)
  {
    StrictIsLongestFirst(plan);
    forall r | r in plan ensures FirstTarget(r, rules) {
      assert Smallest(r, rules);
      forall q | q in rules && q.from == r.from && q.from != q.to ensures q.to == r.to || Before(r.to, q.to) {
        LexTotal(q.to, r.to);
        LexLessIff(r.to, q.to);
      }
    }
  }

  lemma StrictIsLongestFirst(plan: seq<Rule>)
    requires StrictKeys(plan)
    ensures LongestFirst(plan)
  {
    forall i, j | 0 <= i < j < |plan| ensures ComesBefore(plan[i].from, plan[j].from) {
      assert KeyLess(plan[i].from, plan[j].from);
      LexLessIff(plan[i].from, plan[j].from);
    }
  }
}
