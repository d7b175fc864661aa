/**
 When a coupon is applied to an order and which rule it is, in the columns of the order lines and rules
 (apps/api/src/domain/cafe24-coupon-matcher.ts).
 */
module CouponOutcomes {
  import opened Outcomes
  import opened Sorting
  import opened Sums
  import opened CouponAllocation
  import opened CouponMatching

  // ---- The order ------------------------------------------------------------------------------

  /** A complete order of one day that names the coupon as payment, with a product and both totals on every line. */
  predicate Orderly(lines: seq<Line>, day: int) {
    && (exists l :: l in lines && l.paidByCoupon)
    && (forall l :: l in lines ==>
          && l.isValid && l.orderDate == Day(day) && l.productId.Some? && l.productId.value != ""
          && l.totalOrder.Finite? && l.totalPaid.Finite?)
    && TotalsAgree(lines)
  }

  /** The totals on the lines differ by one won at most. */
  predicate TotalsAgree(lines: seq<Line>)
    requires forall l :: l in lines ==> l.totalOrder.Finite? && l.totalPaid.Finite?
  {
    forall l, m :: l in lines && m in lines ==>
      l.totalOrder.value - m.totalOrder.value <= 100 && l.totalPaid.value - m.totalPaid.value <= 100
  }

  /** The total of the order less what was paid for it, as its first line says. */
  function Gap(lines: seq<Line>): int
    requires lines != [] && lines[0].totalOrder.Finite? && lines[0].totalPaid.Finite?
  {
    lines[0].totalOrder.value - lines[0].totalPaid.value
  }

  lemma FirstIsFinite(values: seq<Num>)
    requires values != [] && values[0].Finite?
    ensures FirstFinite(values) == Some(values[0].value)
  {
  }

  lemma OrderlyTotals(lines: seq<Line>, day: int)
    requires Orderly(lines, day)
    ensures lines != [] && lines[0].totalOrder.Finite? && lines[0].totalPaid.Finite?
    ensures FirstFinite(OrderTotals(lines)) == Some(lines[0].totalOrder.value)
    ensures FirstFinite(PaidTotals(lines)) == Some(lines[0].totalPaid.value)
    ensures Consistent(OrderTotals(lines)) && Consistent(PaidTotals(lines)) && DatesConsistent(lines)
  {
    assert lines[0] in lines;
    FirstIsFinite(OrderTotals(lines));
    FirstIsFinite(PaidTotals(lines));
    assert forall i :: 0 <= i < |lines| ==> lines[i] in lines;
  }

  /** The rules are looked at exactly for an orderly order that was paid less than its total, and with that gap. */
  lemma OpensExactly(lines: seq<Line>)
    ensures Screen(lines).Open? <==> exists day :: Underpaid(lines, day)
    ensures forall day :: Underpaid(lines, day) ==> Screen(lines) == Screened.Open(Gap(lines))
  {
    forall day | Underpaid(lines, day) ensures Screen(lines) == Screened.Open(Gap(lines)) {
      UnderpaidOpens(lines, day);
    }
    if Screen(lines).Open? { OpenIsUnderpaid(lines); }
  }

  predicate Underpaid(lines: seq<Line>, day: int) { Orderly(lines, day) && lines != [] && Gap(lines) > 0 }

  lemma UnderpaidOpens(lines: seq<Line>, day: int)
    requires Underpaid(lines, day)
    ensures Screen(lines) == Screened.Open(Gap(lines))
  {
    OrderlyTotals(lines, day);
    assert lines[0] in lines && HasProduct(lines[0]);
  }

  lemma OpenIsUnderpaid(lines: seq<Line>)
    requires Screen(lines).Open?
    ensures Underpaid(lines, lines[0].orderDate.day)
  {
    var day := lines[0].orderDate.day;
    assert Consistent(OrderTotals(lines)) && Consistent(PaidTotals(lines));
    forall l | l in lines ensures l.isValid && l.orderDate == Day(day) && l.productId.Some? && l.productId.value != "" {
      assert HasProduct(l);
    }
    forall i | 0 <= i < |lines| ensures lines[i].totalOrder.Finite? && lines[i].totalPaid.Finite? {
      assert OrderTotals(lines)[i] == lines[i].totalOrder && PaidTotals(lines)[i] == lines[i].totalPaid;
    }
    forall i, j | 0 <= i < |lines| && 0 <= j < |lines|
      ensures lines[i].totalOrder.value - lines[j].totalOrder.value <= 100
      ensures lines[i].totalPaid.value - lines[j].totalPaid.value <= 100
    {
      assert OrderTotals(lines)[i].value - OrderTotals(lines)[j].value <= TOLERANCE;
      assert PaidTotals(lines)[i].value - PaidTotals(lines)[j].value <= TOLERANCE;
    }
    OrderlyTotals(lines, day);
  }

  // ---- The rules ------------------------------------------------------------------------------

  /** A rule in force on the day, for the whole order or for one of its products. */
  predicate InForce(rule: Rule, lines: seq<Line>, day: int) {
    && rule.isActive && rule.discount.Finite? && rule.discount.value > 0
    && rule.validFrom <= day && (rule.validTo == None || day <= rule.validTo.value)
    && match rule.scope
       case Global => rule.productId == None
       case Product => rule.productId.Some? && exists l :: l in lines && l.productId == rule.productId
  }

  lemma InForceExactly(rule: Rule, lines: seq<Line>, day: int)
    requires Orderly(lines, day)
    ensures InForce(rule, lines, day) <==> Eligible(rule, day, Products(lines))
  {
    if rule.productId.Some? {
      assert (exists l :: l in lines && l.productId == rule.productId) <==> rule.productId.value in Products(lines) by {
        forall l | l in lines ensures HasProduct(l) {}
      }
    }
  }

  /** At most one won apart. */
  predicate Close(gap: int, amount: int) { gap - 100 <= amount <= gap + 100 }

  function Apart(gap: int, amount: int): int { if gap > amount then gap - amount else amount - gap }

  /**
   Between amounts: one at most a won off the gap comes before any other, the nearer one first and the larger of
   two equally near; below them all the larger amount comes first. Amounts beyond that are never taken.
   */
  predicate Outdoes(gap: int, a: int, b: int) {
    if Close(gap, a) then Apart(gap, a) < Apart(gap, b) || (Apart(gap, a) == Apart(gap, b) && a >= b)
    else b <= a || b > gap + 100
  }

  /**
   Between rules of one amount: a product's before the order's, the smaller priority number, the later beginning,
   the later creation, the smaller identifier.
   */
  predicate Before(le: Collation, a: Rule, b: Rule) {
    || (a.scope == Product && b.scope == Global)
    || (a.scope == b.scope && a.priority < b.priority)
    || (a.scope == b.scope && a.priority == b.priority && a.validFrom > b.validFrom)
    || (a.scope == b.scope && a.priority == b.priority && a.validFrom == b.validFrom && a.createdAt > b.createdAt)
    || (a.scope == b.scope && a.priority == b.priority && a.validFrom == b.validFrom && a.createdAt == b.createdAt
        && le(a.id, b.id) && a.id != b.id)
  }

  /** The rule to take: in force, not above the gap by more than a won, and preferred to every other one in force. */
  ghost predicate Best(le: Collation, rules: seq<Rule>, lines: seq<Line>, day: int, gap: int, rule: Rule) {
    && rule in rules && InForce(rule, lines, day) && rule.discount.value <= gap + 100
    && forall other :: other in rules && InForce(other, lines, day) ==>
         && Outdoes(gap, rule.discount.value, other.discount.value)
         && (other.discount == rule.discount && other.id != rule.id ==> Before(le, rule, other))
  }

  /** The coupon can be split: a product's goes to the product, the order's needs a line that costs something. */
  predicate Splittable(lines: seq<Line>, rule: Rule) {
    rule.scope == Product || (SafeAmount(rule.discount) && exists l :: l in lines && LineCosts(l))
  }

  predicate LineCosts(l: Line) {
    l.salePrice.Finite? && l.quantity.Finite? && l.salePrice.value * l.quantity.value > 0
  }

  /** The units handed out, whole won if the discount is in whole won and cents otherwise, are exact integers. */
  predicate SafeAmount(n: Num) {
    n.Finite? && if n.value % 100 == 0 then n.value / 100 <= 9007199254740991 else n.value <= 9007199254740991
  }

  lemma BeforeExactly(le: Collation, a: Rule, b: Rule)
    requires TotalOrder(le) && a.id != b.id
    ensures Before(le, a, b) <==> CompareAtSameAmount(le, a, b) < 0
  {
  }

  lemma BestIsUnique(le: Collation, rules: seq<Rule>, lines: seq<Line>, day: int, gap: int, a: Rule, b: Rule)
    requires TotalOrder(le) && DistinctIds(rules)
    requires Best(le, rules, lines, day, gap, a) && Best(le, rules, lines, day, gap, b)
    ensures a == b
  {
    SameAmount(gap, a.discount.value, b.discount.value);
    if a.id != b.id {
      BeforeExactly(le, a, b);
      BeforeExactly(le, b, a);
      ComparatorIsTotalOrder(le, a, b, b);
    }
  }

  lemma SameAmount(gap: int, a: int, b: int)
    requires Outdoes(gap, a, b) && Outdoes(gap, b, a) && a <= gap + 100 && b <= gap + 100
    ensures a == b
  {
  }

  lemma ChosenOutdoes(candidates: seq<Rule>, gap: int, chosen: Rule, other: Rule)
    requires IsNearest(candidates, gap, chosen) || IsGreatestBelow(candidates, gap, chosen)
    requires other in candidates
    ensures Outdoes(gap, Amount(chosen), Amount(other))
  {
  }

  lemma CandidatesAre(le: Collation, lines: seq<Line>, rules: seq<Rule>, day: int, rule: Rule)
    requires TotalOrder(le) && Orderly(lines, day) && DatesConsistent(lines) && lines[0].orderDate == Day(day)
    ensures rule in Candidates(le, lines, rules) <==> rule in rules && InForce(rule, lines, day)
  {
    var eligible := EligibleOn(day, Products(lines));
    RuleOrdersAreTotal(le);
    SortMembers(IdOrder(le), Filter(eligible, rules));
    InForceExactly(rule, lines, day);
    assert eligible(rule) <==> Eligible(rule, day, Products(lines));
  }

  /** What is selected is the best rule, and something is selected exactly if a rule in force is low enough. */
  lemma SelectionExactly(le: Collation, lines: seq<Line>, rules: seq<Rule>, day: int, gap: int)
    requires TotalOrder(le) && Orderly(lines, day) && DatesConsistent(lines) && lines[0].orderDate == Day(day)
    ensures var selection := SelectRule(le, Candidates(le, lines, rules), gap);
      && (selection.Some? <==>
            exists rule :: rule in rules && InForce(rule, lines, day) && rule.discount.value <= gap + 100)
      && (selection.Some? ==> Best(le, rules, lines, day, gap, selection.value.0))
  {
    var candidates := Candidates(le, lines, rules);
    forall rule ensures rule in candidates <==> rule in rules && InForce(rule, lines, day) {
      CandidatesAre(le, lines, rules, day, rule);
    }
    AmountIsNearestOrGreatest(candidates, gap);
    var selection := SelectRule(le, candidates, gap);
    if selection.Some? {
      SelectedIsBest(le, candidates, gap);
      var rule := selection.value.0;
      forall other | other in rules && InForce(other, lines, day)
        ensures Outdoes(gap, rule.discount.value, other.discount.value)
        ensures other.discount == rule.discount && other.id != rule.id ==> Before(le, rule, other)
      {
        assert other in candidates;
      }
    } else {
      forall rule | rule in rules && InForce(rule, lines, day) ensures rule.discount.value > gap + 100 {
        assert rule in candidates && Amount(rule) > gap + TOLERANCE;
      }
    }
  }

  lemma SelectedIsBest(le: Collation, candidates: seq<Rule>, gap: int)
    requires TotalOrder(le) && SelectRule(le, candidates, gap).Some?
    ensures var rule := SelectRule(le, candidates, gap).value.0;
      && rule in candidates && Amount(rule) <= gap + 100
      && forall other :: other in candidates ==>
           && Outdoes(gap, Amount(rule), Amount(other))
           && (Amount(other) == Amount(rule) && other.id != rule.id ==> Before(le, rule, other))
  {
    var rule := SelectedIsPlausible(le, candidates, gap);
    SelectedRuleIsLeast(le, candidates, gap, rule);
    AmountIsNearestOrGreatest(candidates, gap);
    var chosen :|
      && chosen in candidates && Amount(rule) == Amount(chosen)
      && (IsNearest(candidates, gap, chosen) || IsGreatestBelow(candidates, gap, chosen));
    forall other | other in candidates
      ensures Outdoes(gap, Amount(rule), Amount(other))
      ensures Amount(other) == Amount(rule) && other.id != rule.id ==> Before(le, rule, other)
    {
      ChosenOutdoes(candidates, gap, chosen, other);
      SelectedRuleIsLeast(le, candidates, gap, other);
      if other.id != rule.id { BeforeExactly(le, rule, other); }
    }
  }

  // ---- The split ------------------------------------------------------------------------------

  lemma {:induction false} PositiveSum(product: string, lines: seq<Line>)
    ensures Sum(Contribution(product), lines) >= 0
    ensures Sum(Contribution(product), lines) > 0 <==>
      exists l :: l in lines && l.productId == Some(product) && LineCosts(l)
  {
    if lines != [] {
      PositiveSum(product, lines[1..]);
      assert lines == [lines[0]] + lines[1..];
      var first := lines[0];
      assert Contribution(product)(first) > 0 <==> first.productId == Some(product) && LineCosts(first);
      forall l | l in lines ensures l == first || l in lines[1..] {}
    }
  }

  lemma {:induction false} PositiveTotal(es: seq<Entry>)
    ensures TotalWeight(es) > 0 <==> exists i :: 0 <= i < |es| && es[i].weight > 0
  {
    if es != [] {
      PositiveTotal(es[1..]);
      assert forall i :: 0 <= i < |es[1..]| ==> es[1..][i] == es[i + 1];
      if i :| 0 < i < |es| && es[i].weight > 0 { assert es[1..][i - 1].weight > 0; }
    }
  }

  /** An amount is apportioned exactly if it is known, not negative and safe to count, and some weight is positive. */
  lemma AllocatesExactly(le: Collation, amount: Num, weights: seq<(string, Num)>)
    ensures Allocation(le, amount, weights).Some? <==>
      && amount.Finite? && amount.value >= 0 && SafeAmount(amount)
      && exists i :: 0 <= i < |weights| && weights[i].1.Finite? && weights[i].1.value > 0
  {
    PositiveTotal(Clamped(weights));
    assert forall i :: 0 <= i < |weights| ==>
      (Clamped(weights)[i].weight > 0 <==> weights[i].1.Finite? && weights[i].1.value > 0);
  }

  lemma WeightExactly(lines: seq<Line>)
    requires AllMapped(lines)
    ensures TotalWeight(Clamped(Bases(lines))) > 0 <==> exists l :: l in lines && LineCosts(l)
  {
    BasesCorrect(lines);
    var bases := Bases(lines);
    PositiveTotal(Clamped(bases));
    forall i | 0 <= i < |bases|
      ensures Clamped(bases)[i].weight > 0 <==>
        exists l :: l in lines && l.productId == Some(bases[i].0) && LineCosts(l)
    {
      PositiveSum(bases[i].0, lines);
    }
    forall l | l in lines && LineCosts(l) ensures exists i :: 0 <= i < |bases| && Clamped(bases)[i].weight > 0 {
      assert HasProduct(l);
      assert Names(bases, l.productId.value);
      var i :| 0 <= i < |bases| && bases[i].0 == l.productId.value;
      assert Clamped(bases)[i].weight > 0;
    }
  }

  lemma SplitExactly(le: Collation, lines: seq<Line>, rule: Rule, day: int)
    requires Orderly(lines, day) && InForce(rule, lines, day)
    ensures CouponSplit(le, lines, rule).Some? <==> Splittable(lines, rule)
  {
    forall i | 0 <= i < |lines| ensures HasProduct(lines[i]) { assert lines[i] in lines; }
    if rule.scope == Global { WeightExactly(lines); }
  }

  // ---- The resolution -------------------------------------------------------------------------

  /** An order gets a coupon with this rule. */
  ghost predicate Grants(le: Collation, lines: seq<Line>, rules: seq<Rule>, day: int, rule: Rule) {
    Underpaid(lines, day) && Best(le, rules, lines, day, Gap(lines), rule) && Splittable(lines, rule)
  }

  /**
   A coupon is applied if and only if the order is complete and underpaid and its best rule can be split; the rule
   is then that one, and the gap is what was not paid.
   */
  lemma AppliedExactly(le: Collation, lines: seq<Line>, rules: seq<Rule>)
    requires TotalOrder(le) && DistinctIds(rules)
    ensures var r := Resolve(le, lines, rules);
      && (r.status == Applied <==> exists day, rule :: Grants(le, lines, rules, day, rule))
      && (forall day, rule :: Grants(le, lines, rules, day, rule) ==>
            r.rule == Some(rule) && r.gap == Some(Gap(lines)))
  {
    OpensExactly(lines);
    var r := Resolve(le, lines, rules);
    forall day | Underpaid(lines, day) ensures
      && (r.status == Applied <==> exists rule :: Grants(le, lines, rules, day, rule))
      && (forall rule :: Grants(le, lines, rules, day, rule) ==> r.rule == Some(rule) && r.gap == Some(Gap(lines)))
    {
      UnderpaidResolved(le, lines, rules, day);
    }
  }

  lemma ResolvedWithin(le: Collation, lines: seq<Line>, rules: seq<Rule>, day: int)
    requires TotalOrder(le) && Underpaid(lines, day)
    ensures DatesConsistent(lines) && lines[0].orderDate == Day(day)
    ensures Resolve(le, lines, rules) == ResolveWithin(le, lines, Candidates(le, lines, rules), Gap(lines))
  {
    OrderlyTotals(lines, day);
    OpensExactly(lines);
    assert lines[0] in lines;
  }

  lemma WithinStatus(le: Collation, lines: seq<Line>, candidates: seq<Rule>, gap: int)
    requires TotalOrder(le)
    ensures
      var r, selection := ResolveWithin(le, lines, candidates, gap), SelectRule(le, candidates, gap);
      && r.gap == Some(gap) && (r.status != Applied ==> r.status == Unmatched)
      && (r.status == Applied <==> selection.Some? && CouponSplit(le, lines, selection.value.0).Some?)
      && (r.status == Applied ==> r.rule == Some(selection.value.0))
  {
  }

  lemma WithinWarnings(le: Collation, lines: seq<Line>, candidates: seq<Rule>, gap: int)
    requires TotalOrder(le)
    ensures
      var r, selection := ResolveWithin(le, lines, candidates, gap), SelectRule(le, candidates, gap);
      && (candidates == [] ==> r.warnings == [NoActiveCouponRule])
      && (candidates != [] && selection.None? ==> r.warnings == [NoPlausibleCouponAmount])
      && (candidates != [] && selection.Some? ==>
            NoActiveCouponRule !in r.warnings && NoPlausibleCouponAmount !in r.warnings)
  {
    var selection := SelectRule(le, candidates, gap);
    if selection.Some? {
      OtherWarnings(le, lines, selection.value.0, selection.value.1, gap, Ids(candidates));
    }
  }

  lemma OtherWarnings(
      le: Collation, lines: seq<Line>, rule: Rule, tied: seq<Rule>, gap: int, candidateIds: seq<string>)
    ensures var r := ResolveWith(le, lines, rule, tied, gap, candidateIds);
      NoActiveCouponRule !in r.warnings && NoPlausibleCouponAmount !in r.warnings
  {
  }

  lemma BestIsLow(le: Collation, rules: seq<Rule>, lines: seq<Line>, day: int, gap: int, rule: Rule)
    requires Best(le, rules, lines, day, gap, rule)
    ensures rule in rules && InForce(rule, lines, day) && rule.discount.value <= gap + 100
  {
  }

  lemma UnderpaidResolved(le: Collation, lines: seq<Line>, rules: seq<Rule>, day: int)
    requires TotalOrder(le) && DistinctIds(rules) && Underpaid(lines, day)
    ensures var r := Resolve(le, lines, rules);
      && (r.status == Applied <==> exists rule :: Grants(le, lines, rules, day, rule))
      && (forall rule :: Grants(le, lines, rules, day, rule) ==> r.rule == Some(rule) && r.gap == Some(Gap(lines)))
  {
    var gap := Gap(lines);
    ResolvedWithin(le, lines, rules, day);
    WithinStatus(le, lines, Candidates(le, lines, rules), gap);
    SelectionExactly(le, lines, rules, day, gap);
    var selection := SelectRule(le, Candidates(le, lines, rules), gap);
    if selection.Some? {
      var chosen := selection.value.0;
      SplitExactly(le, lines, chosen, day);
      assert Grants(le, lines, rules, day, chosen) <==> Splittable(lines, chosen);
      forall rule | Grants(le, lines, rules, day, rule) ensures rule == chosen {
        BestIsUnique(le, rules, lines, day, gap, rule, chosen);
      }
    } else {
      forall rule ensures !Grants(le, lines, rules, day, rule) {
        if Best(le, rules, lines, day, gap, rule) { BestIsLow(le, rules, lines, day, gap, rule); }
      }
    }
  }

  /** An underpaid order without a coupon is told why: no rule in force, none low enough, or nothing to split over. */
  lemma UnappliedExactly(le: Collation, lines: seq<Line>, rules: seq<Rule>, day: int)
    requires TotalOrder(le) && Underpaid(lines, day)
    ensures var r := Resolve(le, lines, rules);
      && (r.warnings == [NoActiveCouponRule] <==> forall rule :: rule in rules ==> !InForce(rule, lines, day))
      && (r.warnings == [NoPlausibleCouponAmount] <==>
            && (exists rule :: rule in rules && InForce(rule, lines, day))
            && forall rule :: rule in rules && InForce(rule, lines, day) ==> rule.discount.value > Gap(lines) + 100)
      && (r.status != Applied ==> r.status == Unmatched && r.gap == Some(Gap(lines)))
  {
    ResolvedWithin(le, lines, rules, day);
    WithinStatus(le, lines, Candidates(le, lines, rules), Gap(lines));
    WithinWarnings(le, lines, Candidates(le, lines, rules), Gap(lines));
    SelectionExactly(le, lines, rules, day, Gap(lines));
    NoneInForce(le, lines, rules, day);
  }

  lemma NoneInForce(le: Collation, lines: seq<Line>, rules: seq<Rule>, day: int)
    requires TotalOrder(le) && Orderly(lines, day) && DatesConsistent(lines) && lines[0].orderDate == Day(day)
    ensures Candidates(le, lines, rules) == [] <==> forall rule :: rule in rules ==> !InForce(rule, lines, day)
  {
    var candidates := Candidates(le, lines, rules);
    forall rule ensures rule in candidates <==> rule in rules && InForce(rule, lines, day) {
      CandidatesAre(le, lines, rules, day, rule);
    }
    if candidates != [] { assert candidates[0] in candidates; }
  }

  /** Another rule in force grants the same amount. */
  ghost predicate Rivalled(rules: seq<Rule>, lines: seq<Line>, day: int, rule: Rule) {
    exists other :: other in rules && InForce(other, lines, day) && other.discount == rule.discount && other != rule
  }

  predicate Once(rules: seq<Rule>) { forall x :: x in rules ==> multiset(rules)[x] == 1 }

  lemma SeveralMembers<T>(xs: seq<T>, first: T)
    requires first in xs && forall x :: x in xs ==> multiset(xs)[x] == 1
    ensures |xs| > 1 <==> exists x :: x in xs && x != first
  {
    if |xs| > 1 && xs[0] == xs[1] { RepeatedMember(xs, 0, 1); }
    if |xs| > 1 { assert xs[0] in xs && xs[1] in xs; }
    if x :| x in xs && x != first {
      var i :| 0 <= i < |xs| && xs[i] == x;
      var j :| 0 <= j < |xs| && xs[j] == first;
    }
  }

  lemma FilterOnce(p: Rule -> bool, rules: seq<Rule>)
    requires Once(rules)
    ensures Once(Filter(p, rules))
  {
    forall x | x in Filter(p, rules) ensures multiset(Filter(p, rules))[x] == 1 { FilterCount(p, rules, x); }
  }

  lemma SortOnce(order: (Rule, Rule) -> bool, rules: seq<Rule>)
    requires TotalPreorder(order) && Once(rules)
    ensures Once(Sort(order, rules))
  {
    SortSpec(order, rules);
    SortMembers(order, rules);
  }

  /** A tie is reported exactly if another rule in force grants the amount of the one that was taken. */
  lemma TieToldExactly(le: Collation, lines: seq<Line>, rules: seq<Rule>, day: int)
    requires TotalOrder(le) && Once(rules) && Underpaid(lines, day) && Resolve(le, lines, rules).status == Applied
    ensures var r := Resolve(le, lines, rules);
      r.rule.Some? && (RuleTieResolvedByPriority in r.warnings <==> Rivalled(rules, lines, day, r.rule.value))
  {
    ResolvedWithin(le, lines, rules, day);
    var candidates, gap := Candidates(le, lines, rules), Gap(lines);
    WithinTie(le, lines, candidates, gap);
    CandidatesOnce(le, lines, rules);
    forall rule ensures rule in candidates <==> rule in rules && InForce(rule, lines, day) {
      CandidatesAre(le, lines, rules, day, rule);
    }
    TiedAre(le, candidates, gap);
    RivalsTied(le, lines, rules, candidates, day, gap);
  }

  lemma WithinTie(le: Collation, lines: seq<Line>, candidates: seq<Rule>, gap: int)
    requires TotalOrder(le) && ResolveWithin(le, lines, candidates, gap).status == Applied
    ensures
      var r, selection := ResolveWithin(le, lines, candidates, gap), SelectRule(le, candidates, gap);
      && selection.Some? && r.rule == Some(selection.value.0)
      && (RuleTieResolvedByPriority in r.warnings <==> |selection.value.1| > 1)
  {
    WithinStatus(le, lines, candidates, gap);
    var (rule, tied) := SelectRule(le, candidates, gap).value;
    TieWarned(le, lines, rule, tied, gap, Ids(candidates));
  }

  lemma TieWarned(le: Collation, lines: seq<Line>, rule: Rule, tied: seq<Rule>, gap: int, candidateIds: seq<string>)
    ensures RuleTieResolvedByPriority in ResolveWith(le, lines, rule, tied, gap, candidateIds).warnings <==> |tied| > 1
  {
  }

  lemma CandidatesOnce(le: Collation, lines: seq<Line>, rules: seq<Rule>)
    requires TotalOrder(le) && Once(rules) && DatesConsistent(lines)
    ensures Once(Candidates(le, lines, rules))
  {
    var eligible := EligibleOn(lines[0].orderDate.day, Products(lines));
    RuleOrdersAreTotal(le);
    FilterOnce(eligible, rules);
    SortOnce(IdOrder(le), Filter(eligible, rules));
  }

  lemma RivalsTied(
      le: Collation, lines: seq<Line>, rules: seq<Rule>, candidates: seq<Rule>, day: int, gap: int)
    requires TotalOrder(le) && Once(candidates) && SelectRule(le, candidates, gap).Some?
    requires forall rule :: rule in candidates <==> rule in rules && InForce(rule, lines, day)
    requires var (rule, tied) := SelectRule(le, candidates, gap).value;
      rule in tied && forall other :: other in tied <==> other in candidates && Amount(other) == Amount(rule)
    ensures var (rule, tied) := SelectRule(le, candidates, gap).value;
      |tied| > 1 <==> Rivalled(rules, lines, day, rule)
  {
    var (rule, tied) := SelectRule(le, candidates, gap).value;
    TiedOnce(le, candidates, gap);
    SeveralMembers(tied, rule);
    forall other
      ensures other in tied <==> other in rules && InForce(other, lines, day) && other.discount == rule.discount
    {
      assert other in candidates && rule in candidates ==>
        (Amount(other) == Amount(rule) <==> other.discount == rule.discount);
    }
  }

  lemma TiedOnce(le: Collation, candidates: seq<Rule>, gap: int)
    requires TotalOrder(le) && Once(candidates) && SelectRule(le, candidates, gap).Some?
    ensures Once(SelectRule(le, candidates, gap).value.1)
  {
    TiedAre(le, candidates, gap);
    var amount := Amount(SelectRule(le, candidates, gap).value.0);
    RuleOrdersAreTotal(le);
    FilterOnce(WithAmount(amount), candidates);
    SortOnce(PreferenceOrder(le), Filter(WithAmount(amount), candidates));
  }

  lemma TiedAre(le: Collation, candidates: seq<Rule>, gap: int)
    requires TotalOrder(le) && SelectRule(le, candidates, gap).Some?
    ensures var (rule, tied) := SelectRule(le, candidates, gap).value;
      && rule in tied && tied == Sort(PreferenceOrder(le), Filter(WithAmount(Amount(rule)), candidates))
      && forall other :: other in tied <==> other in candidates && Amount(other) == Amount(rule)
  {
    var (rule, tied) := SelectRule(le, candidates, gap).value;
    SelectedRuleIsLeast(le, candidates, gap, rule);
    RuleOrdersAreTotal(le);
    var same := Filter(WithAmount(Amount(rule)), candidates);
    SortMembers(PreferenceOrder(le), same);
    forall other ensures other in same <==> other in candidates && Amount(other) == Amount(rule) {
      assert WithAmount(Amount(rule))(other) <==> Amount(other) == Amount(rule);
    }
  }

  /** A complete order that was paid in full, or more, is told so. */
  lemma PaidInFull(le: Collation, lines: seq<Line>, rules: seq<Rule>, day: int)
    requires TotalOrder(le) && Orderly(lines, day) && lines != [] && Gap(lines) <= 0
    ensures Resolve(le, lines, rules).warnings == [NonPositiveGap] && Resolve(le, lines, rules).gap == Some(Gap(lines))
  {
    OrderlyTotals(lines, day);
  }

  /** An order has no coupon exactly if none of its lines names one as payment. */
  lemma NoCouponExactly(le: Collation, lines: seq<Line>, rules: seq<Rule>)
    requires TotalOrder(le)
    ensures Resolve(le, lines, rules).status == NoCoupon <==> forall l :: l in lines ==> !l.paidByCoupon
  {
    if Screen(lines).Open? { WithinStatus(le, lines, Candidates(le, lines, rules), Screen(lines).gap); }
  }
}
