/** The dashboard (src/components/Dashboard.tsx): the current week's
    summary, its progress colour, and the table of what each rule costs. */
module Dashboard {
  import opened Seqs
  import opened Types
  import opened Calculations
  import History

  /** `weekData`. */
  datatype WeekData = WeekData(baseAmount: real, deductions: real, remaining: real, percentage: real)

  /** What `weekData` needs of the allowance to be defined: a non-zero base
      (the percentage divides by it) and a deduction that is defined. */
  predicate WeekDataDefined(allowance: Option<WeeklyAllowance>)
  {
    allowance.Some? ==>
      allowance.value.baseAmount != 0.0 &&
      (|allowance.value.infractions| == 0 || TotalWeight(allowance.value.infractions) != 0)
  }

  /** `weekData`: the full allowance when there is no current week;
      otherwise the base minus the week's deduction, floored at 0, and that
      remainder as a percentage of the base. */
  function ComputeWeekData(allowance: Option<WeeklyAllowance>): (d: WeekData)
    requires WeekDataDefined(allowance)
    ensures allowance.None? ==> d == WeekData(100.0, 0.0, 100.0, 100.0)
    ensures allowance.Some? ==>
              var a := allowance.value;
              && d.baseAmount == a.baseAmount
              && d.deductions == (if |a.infractions| == 0 then 0.0 else WeeklyAllowanceBase)
              && d.remaining >= 0.0
              && (d.deductions <= a.baseAmount ==> d.remaining == a.baseAmount - d.deductions)
              && (a.baseAmount < d.deductions ==> d.remaining == 0.0)
              && d.percentage * a.baseAmount == d.remaining * 100.0
              && (a.baseAmount > 0.0 ==> 0.0 <= d.percentage <= 100.0)
  {
    match allowance
    case None => WeekData(100.0, 0.0, 100.0, 100.0)
    case Some(a) =>
      var deductions := CalculateWeeklyDeduction(a.infractions);
      var remaining := History.Max(0.0, a.baseAmount - deductions);
      var percentage := (remaining / a.baseAmount) * 100.0;
      PercentageBounds(remaining, a.baseAmount);
      WeekData(a.baseAmount, deductions, remaining, percentage)
  }

  lemma PercentageBounds(remaining: real, base: real)
    requires base != 0.0 && remaining >= 0.0
    requires base > 0.0 ==> remaining <= base
    ensures (remaining / base) * 100.0 * base == remaining * 100.0
    ensures base > 0.0 ==> 0.0 <= (remaining / base) * 100.0 <= 100.0
  {
    assert remaining / base * base == remaining;
    if base > 0.0 {
      Calculations.DivMonotone(remaining, base, 1.0, 1.0);
    }
  }

  /** `getProgressColor`: green from 70, yellow from 40, red below; exactly
      one band applies to every percentage. */
  function GetProgressColor(percentage: real): (c: string)
    ensures c == "bg-green-500" <==> percentage >= 70.0
    ensures c == "bg-yellow-500" <==> 40.0 <= percentage < 70.0
    ensures c == "bg-red-500" <==> percentage < 40.0
  {
    if percentage >= 70.0 then "bg-green-500"
    else if percentage >= 40.0 then "bg-yellow-500"
    else "bg-red-500"
  }

  function RuleWeights(rules: seq<Rule>): seq<int>
  {
    seq(|rules|, i requires 0 <= i < |rules| => rules[i].weight)
  }

  /** `rules.reduce((sum, rule) => sum + rule.weight, 0)`: the denominator is
      the weight of every rule, not of an actual week. */
  function RuleTotal(rules: seq<Rule>): int
  {
    Sum(RuleWeights(rules))
  }

  /** `calculateRuleCost`: a rule's share of 100 among all the rules. */
  function CalculateRuleCost(rules: seq<Rule>, ruleWeight: int): (r: real)
    requires RuleTotal(rules) != 0
    ensures r == Share(RuleTotal(rules), ruleWeight)
  {
    var totalWeights := RuleTotal(rules);
    (100.0 / totalWeights as real) * ruleWeight as real
  }

  /** The costs shown for the rules of `shown`, priced against `rules`. */
  function SumOfRuleCosts(rules: seq<Rule>, shown: seq<Rule>): real
    requires RuleTotal(rules) != 0
  {
    if shown == [] then 0.0
    else CalculateRuleCost(rules, shown[0].weight) + SumOfRuleCosts(rules, shown[1..])
  }

  lemma {:induction false} SumOfRuleCostsIsShares(rules: seq<Rule>, shown: seq<Rule>)
    requires RuleTotal(rules) != 0
    ensures SumOfRuleCosts(rules, shown) == SumOfShares(RuleWeights(shown), RuleTotal(rules))
  {
    if shown != [] {
      SumOfRuleCostsIsShares(rules, shown[1..]);
      assert RuleWeights(shown)[1..] == RuleWeights(shown[1..]);
    }
  }

  // ---------------------------------------------------------------------
  // sortedRules: `[...rules].sort((a, b) => b.weight - a.weight)`
  // ---------------------------------------------------------------------

  /** Places `x`, which came before every element of `sorted`, ahead of the
      first element that is not heavier (as a stable sort does). */
  function Insert(x: Rule, sorted: seq<Rule>): seq<Rule>
  {
    if sorted == [] || sorted[0].weight <= x.weight then [x] + sorted
    else [sorted[0]] + Insert(x, sorted[1..])
  }

  /** A stable sort by weight, heaviest first, on a copy of the rules. */
  function SortedRules(rules: seq<Rule>): seq<Rule>
  {
    if rules == [] then [] else Insert(rules[0], SortedRules(rules[1..]))
  }

  predicate HeaviestFirst(s: seq<Rule>)
  {
    forall i, j :: 0 <= i < j < |s| ==> s[i].weight >= s[j].weight
  }

  lemma {:induction false} InsertKeepsOrder(x: Rule, sorted: seq<Rule>)
    requires HeaviestFirst(sorted)
    ensures HeaviestFirst(Insert(x, sorted))
    ensures Insert(x, sorted)[0] == x || (sorted != [] && Insert(x, sorted)[0] == sorted[0])
  {
    var i := Insert(x, sorted);
    if sorted != [] && sorted[0].weight > x.weight {
      InsertKeepsOrder(x, sorted[1..]);
      InsertPermutes(x, sorted[1..]);
      assert i == [sorted[0]] + Insert(x, sorted[1..]);
      forall j | 1 <= j < |i|
        ensures i[0].weight >= i[j].weight
      {
        assert i[j] in multiset(sorted[1..]) + multiset{x};
      }
    }
  }

  lemma {:induction false} InsertPermutes(x: Rule, sorted: seq<Rule>)
    ensures multiset(Insert(x, sorted)) == multiset(sorted) + multiset{x}
    ensures |Insert(x, sorted)| == |sorted| + 1
  {
    if sorted != [] && sorted[0].weight > x.weight {
      InsertPermutes(x, sorted[1..]);
      assert sorted == [sorted[0]] + sorted[1..];
    }
  }

  /** `sortedRules` lists the same rules, heaviest first. */
  lemma {:induction false} SortedRulesCorrect(rules: seq<Rule>)
    ensures HeaviestFirst(SortedRules(rules))
    ensures multiset(SortedRules(rules)) == multiset(rules)
  {
    if rules != [] {
      SortedRulesCorrect(rules[1..]);
      InsertSorted(rules[0], SortedRules(rules[1..]), rules[1..]);
      assert rules == [rules[0]] + rules[1..];
    }
  }

  /** One step of the sort: inserting into a sorted permutation of `tail`
      gives a sorted permutation of `[x] + tail`. */
  lemma InsertSorted(x: Rule, sorted: seq<Rule>, tail: seq<Rule>)
    requires HeaviestFirst(sorted) && multiset(sorted) == multiset(tail)
    ensures HeaviestFirst(Insert(x, sorted))
    ensures multiset(Insert(x, sorted)) == multiset([x] + tail)
  {
    InsertKeepsOrder(x, sorted);
    InsertPermutes(x, sorted);
  }

  lemma {:induction false} InsertCost(rules: seq<Rule>, x: Rule, sorted: seq<Rule>)
    requires RuleTotal(rules) != 0
    ensures SumOfRuleCosts(rules, Insert(x, sorted))
         == CalculateRuleCost(rules, x.weight) + SumOfRuleCosts(rules, sorted)
  {
    if sorted != [] && sorted[0].weight > x.weight {
      InsertCost(rules, x, sorted[1..]);
      var i := Insert(x, sorted);
      assert i[0] == sorted[0] && i[1..] == Insert(x, sorted[1..]);
    }
  }

  lemma {:induction false} SortedCost(rules: seq<Rule>, shown: seq<Rule>)
    requires RuleTotal(rules) != 0
    ensures SumOfRuleCosts(rules, SortedRules(shown)) == SumOfRuleCosts(rules, shown)
  {
    if shown != [] {
      SortedCost(rules, shown[1..]);
      InsertCost(rules, shown[0], SortedRules(shown[1..]));
    }
  }

  /** The costs of all the rules add up to exactly 100, both in the order
      they are stored and in the order the table lists them. */
  lemma RuleCostsSumTo100(rules: seq<Rule>)
    requires RuleTotal(rules) != 0
    ensures SumOfRuleCosts(rules, rules) == 100.0
    ensures SumOfRuleCosts(rules, SortedRules(rules)) == 100.0
  {
    SumOfRuleCostsIsShares(rules, rules);
    SharesExhaustBase(RuleWeights(rules));
    SortedCost(rules, rules);
  }

  /** The rules of weight `w`, in the order given. */
  function OfWeight(rules: seq<Rule>, w: int): seq<Rule>
  {
    if rules == [] then []
    else (if rules[0].weight == w then [rules[0]] else []) + OfWeight(rules[1..], w)
  }

  /** Stability: the rules of any one weight keep their original order. */
  lemma {:induction false} SortedRulesStable(rules: seq<Rule>, w: int)
    ensures OfWeight(SortedRules(rules), w) == OfWeight(rules, w)
  {
    if rules != [] {
      SortedRulesStable(rules[1..], w);
      InsertOfWeight(rules[0], SortedRules(rules[1..]), w);
    }
  }

  /** Inserting `x` passes over only rules strictly heavier than `x`, so
      among the rules of one weight `x` lands first. */
  lemma {:induction false} InsertOfWeight(x: Rule, sorted: seq<Rule>, w: int)
    ensures OfWeight(Insert(x, sorted), w)
         == (if x.weight == w then [x] else []) + OfWeight(sorted, w)
  {
    var i := Insert(x, sorted);
    if sorted == [] || sorted[0].weight <= x.weight {
      assert i[0] == x && i[1..] == sorted;
    } else {
      InsertOfWeight(x, sorted[1..], w);
      assert i[0] == sorted[0] && i[1..] == Insert(x, sorted[1..]);
      var head := if sorted[0].weight == w then [sorted[0]] else [];
      assert OfWeight(i, w) == head + OfWeight(Insert(x, sorted[1..]), w);
      assert OfWeight(sorted, w) == head + OfWeight(sorted[1..], w);
      if x.weight == w {
        assert head == [];
      }
    }
  }

  /** The priority band of a rule in the table. */
  datatype Priority = High | Medium | Low

  /** `isHighPriority` (weight from 8), `isMediumPriority` (5 to 7), and
      otherwise low: exactly one band for every weight. */
  function GetPriority(weight: int): (p: Priority)
    ensures p == High <==> weight >= 8
    ensures p == Medium <==> 5 <= weight < 8
    ensures p == Low <==> weight < 5
  {
    var isHighPriority := weight >= 8;
    var isMediumPriority := weight >= 5 && weight < 8;
    if isHighPriority then High else if isMediumPriority then Medium else Low
  }
}
