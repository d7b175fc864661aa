/**
 Matching a Cafe24 order to a coupon rule and splitting the coupon over its products
 (apps/api/src/domain/cafe24-coupon-matcher.ts).

 Amounts are exact cents, so the tolerance of one won is 100. Days stand for `dateValue`, and the
 payment-method text is represented by whether it contains the coupon token.
 */
module CouponMatching {
  import opened Outcomes
  import opened Sorting
  import opened Sums
  import opened CouponAllocation

  const TOLERANCE := 100

  datatype Scope = Global | Product

  datatype OrderDate = NoDate | InvalidDate | Day(day: int)

  datatype Line = Line(
    orderDate: OrderDate, paidByCoupon: bool, totalOrder: Num, totalPaid: Num,
    productId: Option<string>, salePrice: Num, quantity: Num, isValid: bool)

  datatype Rule = Rule(
    id: string, name: string, scope: Scope, productId: Option<string>, discount: Num, priority: int,
    validFrom: int, validTo: Option<int>, isActive: bool, createdAt: int)

  datatype Status = NoCoupon | Applied | Unmatched

  datatype Confidence = NoConfidence | Exact | Estimated

  datatype Warning =
    | MissingTotalOrder | IncompleteOrderData | InconsistentOrderDate | InconsistentTotalOrder
    | InconsistentTotalPaid | NonPositiveGap | NoActiveCouponRule | NoPlausibleCouponAmount
    | UnmatchedProduct | PartialProductMapping | NonPositiveAllocationBase
    | RuleTieResolvedByPriority | IgnoredResidualExists

  datatype Resolution = Resolution(
    status: Status, confidence: Confidence, gap: Option<int>, rule: Option<Rule>, deduction: int,
    residual: int, allocations: seq<Share>, warnings: seq<Warning>, candidateIds: seq<string>)

  // ---- Sequence helpers -----------------------------------------------------------------------

  function Filter<T(!new)>(p: T -> bool, xs: seq<T>): (r: seq<T>)
    ensures forall x :: x in r <==> x in xs && p(x)
  {
    if xs == [] then []
    else if p(xs[0]) then [xs[0]] + Filter(p, xs[1..])
    else Filter(p, xs[1..])
  }

  lemma {:induction false} FilterCount<T(!new)>(p: T -> bool, xs: seq<T>, x: T)
    ensures multiset(Filter(p, xs))[x] == if p(x) then multiset(xs)[x] else 0
  {
    if xs != [] {
      FilterCount(p, xs[1..], x);
      assert xs == [xs[0]] + xs[1..];
    }
  }

  lemma FilterPermuted<T(!new)>(p: T -> bool, xs: seq<T>, ys: seq<T>)
    requires multiset(xs) == multiset(ys)
    ensures multiset(Filter(p, xs)) == multiset(Filter(p, ys))
  {
    forall x: T | x in xs + ys
      ensures multiset(Filter(p, xs))[x] == multiset(Filter(p, ys))[x]
    {
      FilterCount(p, xs, x);
      FilterCount(p, ys, x);
    }
  }

  // ---- Rules ----------------------------------------------------------------------------------

  predicate Eligible(rule: Rule, day: int, products: set<string>) {
    && rule.isActive
    && rule.discount.Finite? && rule.discount.value > 0
    && rule.validFrom <= day
    && (rule.validTo.Some? ==> day <= rule.validTo.value)
    && (if rule.scope == Global then rule.productId.None?
        else rule.productId.Some? && rule.productId.value in products)
  }

  function Amount(rule: Rule): int { if rule.discount.Finite? then rule.discount.value else 0 }

  function Distance(gap: int, rule: Rule): nat {
    if gap >= Amount(rule) then gap - Amount(rule) else Amount(rule) - gap
  }

  function CollationSign(le: Collation, a: string, b: string): int {
    if a == b then 0 else if le(a, b) then -1 else 1
  }

  function CompareAtSameAmount(le: Collation, a: Rule, b: Rule): int {
    if a.scope != b.scope then (if a.scope == Product then -1 else 1)
    else if a.priority != b.priority then a.priority - b.priority
    else if a.validFrom != b.validFrom then b.validFrom - a.validFrom
    else if a.createdAt != b.createdAt then b.createdAt - a.createdAt
    else CollationSign(le, a.id, b.id)
  }

  function PreferenceOrder(le: Collation): (Rule, Rule) -> bool {
    (a: Rule, b: Rule) => CompareAtSameAmount(le, a, b) <= 0
  }

  function IdOrder(le: Collation): (Rule, Rule) -> bool {
    (a: Rule, b: Rule) => le(a.id, b.id)
  }

  predicate DistinctIds(rules: seq<Rule>) {
    forall a, b :: a in rules && b in rules && a.id == b.id ==> a == b
  }

  /** The tie-break comparator is a strict total order on rules with different ids. */
  lemma ComparatorIsTotalOrder(le: Collation, a: Rule, b: Rule, c: Rule)
    requires TotalOrder(le)
    ensures CompareAtSameAmount(le, a, a) == 0
    ensures CompareAtSameAmount(le, a, b) < 0 <==> CompareAtSameAmount(le, b, a) > 0
    ensures CompareAtSameAmount(le, a, b) == 0 ==> a.id == b.id
    ensures CompareAtSameAmount(le, a, b) <= 0 && CompareAtSameAmount(le, b, c) <= 0 ==>
              CompareAtSameAmount(le, a, c) <= 0
    ensures CompareAtSameAmount(le, a, b) < 0 && CompareAtSameAmount(le, b, c) <= 0 ==>
              CompareAtSameAmount(le, a, c) < 0
  {
    assert le(a.id, b.id) || le(b.id, a.id);
    assert le(a.id, b.id) && le(b.id, c.id) ==> le(a.id, c.id);
    assert le(c.id, a.id) && le(a.id, b.id) ==> le(c.id, b.id);
  }

  lemma RuleOrdersAreTotal(le: Collation)
    requires TotalOrder(le)
    ensures TotalPreorder(PreferenceOrder(le)) && TotalPreorder(IdOrder(le))
  {
    var byPreference, byId := PreferenceOrder(le), IdOrder(le);
    forall a: Rule, b: Rule ensures byPreference(a, b) || byPreference(b, a) {
      ComparatorIsTotalOrder(le, a, b, b);
    }
    forall a: Rule, b: Rule, c: Rule | byPreference(a, b) && byPreference(b, c) ensures byPreference(a, c) {
      ComparatorIsTotalOrder(le, a, b, c);
    }
    forall a: Rule, b: Rule ensures byId(a, b) || byId(b, a) {
      assert le(a.id, b.id) || le(b.id, a.id);
    }
    forall a: Rule, b: Rule, c: Rule | byId(a, b) && byId(b, c) ensures byId(a, c) {
      assert le(a.id, b.id) && le(b.id, c.id);
    }
  }

  // ---- Selecting an amount and a rule ---------------------------------------------------------

  function WithinTolerance(gap: int): Rule -> bool { (r: Rule) => Distance(gap, r) <= TOLERANCE }

  function AtDistance(gap: int, d: int): Rule -> bool { (r: Rule) => Distance(gap, r) == d }

  function Plausible(gap: int): Rule -> bool { (r: Rule) => Amount(r) <= gap + TOLERANCE }

  function WithAmount(amount: int): Rule -> bool { (r: Rule) => Amount(r) == amount }

  function MaxAmount(rules: seq<Rule>): (m: int)
    requires rules != []
    ensures forall r :: r in rules ==> Amount(r) <= m
    ensures exists r :: r in rules && Amount(r) == m
  {
    var first := rules[0];
    assert first in rules;
    if |rules| == 1 then Amount(first)
    else
      var rest := MaxAmount(rules[1..]);
      if Amount(first) > rest then Amount(first) else rest
  }

  function MinDistance(gap: int, rules: seq<Rule>): (m: int)
    requires rules != []
    ensures forall r :: r in rules ==> m <= Distance(gap, r)
    ensures exists r :: r in rules && Distance(gap, r) == m
  {
    var first := rules[0];
    assert first in rules;
    if |rules| == 1 then Distance(gap, first)
    else
      var rest := MinDistance(gap, rules[1..]);
      if Distance(gap, first) < rest then Distance(gap, first) else rest
  }

  function SelectedAmount(candidates: seq<Rule>, gap: int): Option<int> {
    var exact := Filter(WithinTolerance(gap), candidates);
    if exact != [] then
      var closest := MinDistance(gap, exact);
      var nearest := Filter(AtDistance(gap, closest), exact);
      assert exists r :: r in exact && AtDistance(gap, closest)(r) by {
        var r :| r in exact && Distance(gap, r) == closest;
        assert AtDistance(gap, closest)(r);
      }
      Some(MaxAmount(nearest))
    else
      var plausible := Filter(Plausible(gap), candidates);
      if plausible == [] then None else Some(MaxAmount(plausible))
  }

  /** `chosen` is the nearest amount within tolerance, and the larger of two equally near ones. */
  ghost predicate IsNearest(candidates: seq<Rule>, gap: int, chosen: Rule) {
    && Distance(gap, chosen) <= TOLERANCE
    && forall c :: c in candidates ==>
         || Distance(gap, chosen) < Distance(gap, c)
         || (Distance(gap, chosen) == Distance(gap, c) && Amount(c) <= Amount(chosen))
  }

  /** No amount is within tolerance and `chosen` is the greatest below the gap. */
  ghost predicate IsGreatestBelow(candidates: seq<Rule>, gap: int, chosen: Rule) {
    && Amount(chosen) < gap - TOLERANCE
    && forall c :: c in candidates ==> Amount(c) <= Amount(chosen) || Amount(c) > gap + TOLERANCE
  }

  lemma NearestCase(candidates: seq<Rule>, gap: int) returns (chosen: Rule)
    requires Filter(WithinTolerance(gap), candidates) != []
    ensures chosen in candidates && SelectedAmount(candidates, gap) == Some(Amount(chosen))
    ensures IsNearest(candidates, gap, chosen)
  {
    var exact := Filter(WithinTolerance(gap), candidates);
    var closest := MinDistance(gap, exact);
    var nearest := Filter(AtDistance(gap, closest), exact);
    var r :| r in exact && Distance(gap, r) == closest;
    assert AtDistance(gap, closest)(r) && r in nearest;
    var most := MaxAmount(nearest);
    chosen :| chosen in nearest && Amount(chosen) == most;
    assert AtDistance(gap, closest)(chosen) && chosen in exact && WithinTolerance(gap)(chosen);
    forall c | c in candidates
      ensures Distance(gap, chosen) < Distance(gap, c) ||
              (Distance(gap, chosen) == Distance(gap, c) && Amount(c) <= Amount(chosen))
    {
      if WithinTolerance(gap)(c) {
        assert c in exact;
        if AtDistance(gap, closest)(c) { assert c in nearest; }
      }
    }
  }

  lemma GreatestCase(candidates: seq<Rule>, gap: int) returns (chosen: Rule)
    requires Filter(WithinTolerance(gap), candidates) == [] && Filter(Plausible(gap), candidates) != []
    ensures chosen in candidates && SelectedAmount(candidates, gap) == Some(Amount(chosen))
    ensures IsGreatestBelow(candidates, gap, chosen)
  {
    var plausible := Filter(Plausible(gap), candidates);
    var most := MaxAmount(plausible);
    chosen :| chosen in plausible && Amount(chosen) == most;
    assert Plausible(gap)(chosen);
    assert !WithinTolerance(gap)(chosen) by { assert chosen !in Filter(WithinTolerance(gap), candidates); }
    forall c | c in candidates ensures Amount(c) <= Amount(chosen) || Amount(c) > gap + TOLERANCE {
      if Plausible(gap)(c) { assert c in plausible; }
    }
  }

  /**
   The chosen amount is the nearest one within tolerance; failing that, the greatest amount below the
   gap; and nothing exactly when every candidate exceeds the gap by more than the tolerance.
   */
  lemma AmountIsNearestOrGreatest(candidates: seq<Rule>, gap: int)
    ensures SelectedAmount(candidates, gap).None? <==> forall c :: c in candidates ==> Amount(c) > gap + TOLERANCE
    ensures SelectedAmount(candidates, gap).Some? ==>
      exists chosen :: chosen in candidates && SelectedAmount(candidates, gap).value == Amount(chosen) &&
        (IsNearest(candidates, gap, chosen) || IsGreatestBelow(candidates, gap, chosen))
  {
    if Filter(WithinTolerance(gap), candidates) != [] {
      var chosen := NearestCase(candidates, gap);
    } else if Filter(Plausible(gap), candidates) != [] {
      var chosen := GreatestCase(candidates, gap);
    } else {
      forall c | c in candidates ensures Amount(c) > gap + TOLERANCE {
        assert c !in Filter(Plausible(gap), candidates);
        assert !Plausible(gap)(c);
      }
    }
  }

  function SelectRule(le: Collation, candidates: seq<Rule>, gap: int): (r: Option<(Rule, seq<Rule>)>)
    requires TotalOrder(le)
    ensures r.Some? <==> SelectedAmount(candidates, gap).Some?
  {
    var amount := SelectedAmount(candidates, gap);
    if amount.None? then None
    else
      AmountIsNearestOrGreatest(candidates, gap);
      assert exists c :: c in candidates && WithAmount(amount.value)(c);
      var tied := Sort(PreferenceOrder(le), Filter(WithAmount(amount.value), candidates));
      Some((tied[0], tied))
  }

  /** The selected rule has the selected amount and precedes every other candidate of that amount. */
  lemma SelectedRuleIsLeast(le: Collation, candidates: seq<Rule>, gap: int, other: Rule)
    requires TotalOrder(le) && SelectRule(le, candidates, gap).Some?
    ensures var rule := SelectRule(le, candidates, gap).value.0;
      && rule in candidates && Some(Amount(rule)) == SelectedAmount(candidates, gap)
      && (other in candidates && Amount(other) == Amount(rule) && other.id != rule.id ==>
          CompareAtSameAmount(le, rule, other) < 0)
  {
    var amount := SelectedAmount(candidates, gap).value;
    AmountIsNearestOrGreatest(candidates, gap);
    var same := Filter(WithAmount(amount), candidates);
    RuleOrdersAreTotal(le);
    var order := PreferenceOrder(le);
    var tied := Sort(order, same);
    SortSpec(order, same);
    SortMembers(order, same);
    assert exists c :: c in candidates && WithAmount(amount)(c);
    assert tied[0] in tied;
    assert tied[0] in same && WithAmount(amount)(tied[0]);
    if other in candidates && Amount(other) == amount && other.id != tied[0].id {
      assert WithAmount(amount)(other) && other in same && other in tied;
      var i :| 0 <= i < |tied| && tied[i] == other;
      assert order(tied[0], tied[i]);
      ComparatorIsTotalOrder(le, tied[0], other, other);
    }
  }

  // ---- Splitting the coupon over products -----------------------------------------------------

  predicate HasProduct(line: Line) { line.productId.Some? && line.productId.value != "" }

  predicate AllMapped(lines: seq<Line>) { forall i :: 0 <= i < |lines| ==> HasProduct(lines[i]) }

  function LineBase(line: Line): (b: int)
    ensures b >= 0
  {
    if line.salePrice.Finite? && line.quantity.Finite? then
      var raw := line.salePrice.value * line.quantity.value;
      if raw > 0 then raw else 0
    else 0
  }

  /** What one line contributes to the base of a product. */
  function Contribution(product: string): Line -> int {
    (l: Line) => if l.productId == Some(product) then LineBase(l) else 0
  }

  function AddBase(bases: seq<(string, Num)>, product: string, amount: int): seq<(string, Num)> {
    if bases == [] then [(product, Finite(amount))]
    else if bases[0].0 == product then
      [(product, Finite(amount + if bases[0].1.Finite? then bases[0].1.value else 0))] + bases[1..]
    else [bases[0]] + AddBase(bases[1..], product, amount)
  }

  /** Bases after the given lines; a JavaScript `Map` keeps its keys in order of first insertion. */
  function Bases(lines: seq<Line>): seq<(string, Num)>
    requires AllMapped(lines)
  {
    if lines == [] then []
    else AddBase(Bases(lines[..|lines| - 1]), lines[|lines| - 1].productId.value, LineBase(lines[|lines| - 1]))
  }

  predicate Names(bases: seq<(string, Num)>, product: string) {
    exists i :: 0 <= i < |bases| && bases[i].0 == product
  }

  /** What the bases mean: every product of the order once, with the sum over its lines. */
  ghost predicate AreBases(lines: seq<Line>, bases: seq<(string, Num)>) {
    && UniqueKeys(bases)
    && (forall product :: Names(bases, product) <==> Sold(lines, product))
    && SumsRight(lines, bases)
  }

  predicate Sold(lines: seq<Line>, product: string) { exists l :: l in lines && l.productId == Some(product) }

  predicate SumsRight(lines: seq<Line>, bases: seq<(string, Num)>) {
    forall i :: 0 <= i < |bases| ==> bases[i].1 == Finite(Sum(Contribution(bases[i].0), lines))
  }

  predicate FiniteBases(bases: seq<(string, Num)>) {
    forall i :: 0 <= i < |bases| ==> bases[i].1.Finite?
  }

  lemma {:induction false} AddBaseAbsent(bases: seq<(string, Num)>, product: string, amount: int)
    requires !Names(bases, product)
    ensures AddBase(bases, product, amount) == bases + [(product, Finite(amount))]
  {
    if bases != [] {
      assert forall i :: 0 <= i < |bases[1..]| ==> bases[1..][i] == bases[i + 1];
      AddBaseAbsent(bases[1..], product, amount);
      assert bases == [bases[0]] + bases[1..];
    }
  }

  lemma {:induction false} AddBasePresent(bases: seq<(string, Num)>, product: string, amount: int, at: nat)
    requires at < |bases| && bases[at].0 == product && UniqueKeys(bases) && FiniteBases(bases)
    ensures AddBase(bases, product, amount) == bases[at := (product, Finite(bases[at].1.value + amount))]
  {
    if at > 0 {
      AddBasePresent(bases[1..], product, amount, at - 1);
      assert bases[0].0 != product;
    }
  }

  lemma {:induction false} AbsentProduct(lines: seq<Line>, product: string)
    requires forall l :: l in lines ==> l.productId != Some(product)
    ensures Sum(Contribution(product), lines) == 0
  {
    if lines != [] { AbsentProduct(lines[1..], product); }
  }

  lemma AddBaseKeys(bases: seq<(string, Num)>, product: string, amount: int) returns (after: seq<(string, Num)>)
    requires UniqueKeys(bases) && FiniteBases(bases)
    ensures after == AddBase(bases, product, amount) && UniqueKeys(after)
    ensures forall p :: Names(after, p) <==> Names(bases, p) || p == product
    ensures forall i :: 0 <= i < |after| ==>
      if i < |bases| then
        after[i].0 == bases[i].0 && after[i].1 == Finite(bases[i].1.value + if after[i].0 == product then amount else 0)
      else after[i] == (product, Finite(amount)) && !Names(bases, product)
    ensures |bases| <= |after|
  {
    after := AddBase(bases, product, amount);
    if Names(bases, product) {
      var at :| 0 <= at < |bases| && bases[at].0 == product;
      AddBasePresent(bases, product, amount, at);
      assert forall i :: 0 <= i < |after| ==> after[i].0 == bases[i].0;
    } else {
      AddBaseAbsent(bases, product, amount);
      assert after[|bases|].0 == product;
      assert forall i :: 0 <= i < |bases| ==> after[i] == bases[i];
    }
  }

  lemma {:induction false} BasesCorrect(lines: seq<Line>)
    requires AllMapped(lines)
    ensures AreBases(lines, Bases(lines))
  {
    if lines != [] {
      var earlier, line := lines[..|lines| - 1], lines[|lines| - 1];
      BasesCorrect(earlier);
      assert lines == earlier + [line];
      var before, product := Bases(earlier), line.productId.value;
      var after := AddBaseKeys(before, product, LineBase(line));
      ProductsGrow(earlier, line, before, after);
      SumsGrow(earlier, line, before, after);
    }
  }

  lemma ProductsGrow(earlier: seq<Line>, line: Line, before: seq<(string, Num)>, after: seq<(string, Num)>)
    requires line.productId.Some? && forall p :: Names(before, p) <==> Sold(earlier, p)
    requires forall p :: Names(after, p) <==> Names(before, p) || p == line.productId.value
    ensures forall p :: Names(after, p) <==> Sold(earlier + [line], p)
  {
    forall p ensures Sold(earlier + [line], p) <==> Sold(earlier, p) || p == line.productId.value {
      if p == line.productId.value { assert line in earlier + [line]; }
      if l :| l in earlier && l.productId == Some(p) { assert l in earlier + [line]; }
    }
  }

  lemma SumsGrow(earlier: seq<Line>, line: Line, before: seq<(string, Num)>, after: seq<(string, Num)>)
    requires line.productId.Some? && |before| <= |after|
    requires SumsRight(earlier, before) && forall p :: Names(before, p) <==> Sold(earlier, p)
    requires forall i :: 0 <= i < |after| ==>
      if i < |before| then
        && after[i].0 == before[i].0
        && after[i].1 == Finite(before[i].1.value + if after[i].0 == line.productId.value then LineBase(line) else 0)
      else after[i] == (line.productId.value, Finite(LineBase(line))) && !Names(before, line.productId.value)
    ensures SumsRight(earlier + [line], after)
  {
    forall i | 0 <= i < |after| ensures after[i].1 == Finite(Sum(Contribution(after[i].0), earlier + [line])) {
      SumAppend(Contribution(after[i].0), earlier, line);
      if i >= |before| { AbsentProduct(earlier, line.productId.value); }
    }
  }

  lemma {:induction false} SumAppend<T>(f: T -> int, xs: seq<T>, x: T)
    ensures Sum(f, xs + [x]) == Sum(f, xs) + f(x)
  {
    if xs == [] {
      assert [] + [x] == [x];
    } else {
      SumAppend(f, xs[1..], x);
      assert (xs + [x])[1..] == xs[1..] + [x];
    }
  }

  lemma {:induction false} UniqueOccurrence(bases: seq<(string, Num)>, b: (string, Num))
    requires UniqueKeys(bases)
    ensures multiset(bases)[b] == if b in bases then 1 else 0
  {
    if bases != [] {
      UniqueOccurrence(bases[1..], b);
      assert bases == [bases[0]] + bases[1..];
      assert bases[0] !in bases[1..];
    }
  }

  /** The coupon a rule grants, split over the products of the order. */
  ghost function CouponSplit(le: Collation, lines: seq<Line>, rule: Rule): Option<seq<Share>> {
    if rule.scope == Product then
      if rule.productId.Some? && rule.productId.value != "" then Some([Share(rule.productId.value, Amount(rule))])
      else None
    else if !AllMapped(lines) then None
    else Allocation(le, rule.discount, Bases(lines))
  }

  /** `allocateCoupon`: a product rule takes the whole discount; otherwise the bases accumulate line by line. */
  method AllocateCoupon(le: Collation, lines: seq<Line>, rule: Rule) returns (r: Option<seq<Share>>)
    requires TotalOrder(le)
    ensures r == CouponSplit(le, lines, rule)
  {
    if rule.scope == Product {
      if rule.productId.Some? && rule.productId.value != "" {
        return Some([Share(rule.productId.value, Amount(rule))]);
      }
      return None;
    }
    var bases := [];
    for n := 0 to |lines|
      invariant AllMapped(lines[..n])
      invariant bases == Bases(lines[..n])
    {
      if !HasProduct(lines[n]) {
        return None;
      }
      assert lines[..n + 1][..n] == lines[..n];
      bases := AddBase(bases, lines[n].productId.value, LineBase(lines[n]));
    }
    assert lines[..|lines|] == lines;
    BasesCorrect(lines);
    r := AllocateNonNegativeByWeight(le, rule.discount, bases);
  }

  /** A split coupon adds up to the discount and only reaches products of the order. */
  lemma SplitConserved(le: Collation, lines: seq<Line>, rule: Rule, products: set<string>, day: int)
    requires TotalOrder(le) && Eligible(rule, day, products) && CouponSplit(le, lines, rule).Some?
    requires products == set l | l in lines && HasProduct(l) :: l.productId.value
    ensures var shares := CouponSplit(le, lines, rule).value;
      && Sum(CentsOf(), shares) == Amount(rule)
      && forall s :: s in shares ==> s.key in products
  {
    var shares := CouponSplit(le, lines, rule).value;
    if rule.scope == Product {
      assert shares[1..] == [];
    } else {
      var bases := Bases(lines);
      BasesCorrect(lines);
      AllocationConserved(le, rule.discount, bases);
      OrdersAreTotal(le, 0, 1);
      SortMembers(KeyOrder(le), Clamped(bases));
      var order := Sort(KeyOrder(le), Clamped(bases));
      forall s | s in shares ensures s.key in products {
        var i :| 0 <= i < |shares| && shares[i] == s;
        assert order[i] in Clamped(bases);
        var j :| 0 <= j < |bases| && Clamped(bases)[j] == order[i];
        assert Names(bases, s.key);
        var l :| l in lines && l.productId == Some(s.key);
        assert HasProduct(l);
      }
    }
  }

  /** The split does not depend on the order of the lines. */
  lemma SplitLineOrderFree(le: Collation, lines: seq<Line>, others: seq<Line>, rule: Rule)
    requires TotalOrder(le) && multiset(lines) == multiset(others)
    ensures CouponSplit(le, lines, rule) == CouponSplit(le, others, rule)
  {
    forall l ensures l in lines <==> l in others {
      assert l in multiset(lines) <==> l in multiset(others);
    }
    assert AllMapped(lines) <==> forall l :: l in lines ==> HasProduct(l);
    assert AllMapped(others) <==> forall l :: l in others ==> HasProduct(l);
    if AllMapped(lines) && AllMapped(others) {
      BasesCorrect(lines);
      BasesCorrect(others);
      BasesSame(lines, others);
      AllocationOrderFree(le, rule.discount, Bases(lines), Bases(others));
    }
  }

  lemma BasesIncluded(lines: seq<Line>, others: seq<Line>, b: (string, Num))
    requires AllMapped(lines) && AllMapped(others) && multiset(lines) == multiset(others)
    requires AreBases(lines, Bases(lines)) && AreBases(others, Bases(others)) && b in Bases(lines)
    ensures b in Bases(others)
  {
    var i :| 0 <= i < |Bases(lines)| && Bases(lines)[i] == b;
    assert Names(Bases(lines), b.0);
    var l :| l in lines && l.productId == Some(b.0);
    assert l in multiset(others);
    assert Names(Bases(others), b.0);
    var j :| 0 <= j < |Bases(others)| && Bases(others)[j].0 == b.0;
    SumOrderFree(Contribution(b.0), lines, others);
    assert Bases(others)[j] == b;
  }

  lemma BasesSame(lines: seq<Line>, others: seq<Line>)
    requires AllMapped(lines) && AllMapped(others) && multiset(lines) == multiset(others)
    requires AreBases(lines, Bases(lines)) && AreBases(others, Bases(others))
    ensures multiset(Bases(lines)) == multiset(Bases(others))
  {
    forall b | b in Bases(lines) + Bases(others)
      ensures multiset(Bases(lines))[b] == multiset(Bases(others))[b]
    {
      if b in Bases(lines) { BasesIncluded(lines, others, b); }
      if b in Bases(others) { BasesIncluded(others, lines, b); }
      UniqueOccurrence(Bases(lines), b);
      UniqueOccurrence(Bases(others), b);
    }
  }

  // ---- Resolving an order ---------------------------------------------------------------------

  function FirstFinite(values: seq<Num>): Option<int> {
    if values == [] then None
    else if values[0].Finite? then Some(values[0].value)
    else FirstFinite(values[1..])
  }

  function OrderTotals(lines: seq<Line>): seq<Num> {
    seq(|lines|, i requires 0 <= i < |lines| => lines[i].totalOrder)
  }

  function PaidTotals(lines: seq<Line>): seq<Num> {
    seq(|lines|, i requires 0 <= i < |lines| => lines[i].totalPaid)
  }

  predicate Consistent(values: seq<Num>) {
    && values != []
    && (forall i :: 0 <= i < |values| ==> values[i].Finite?)
    && (forall i, j :: 0 <= i < |values| && 0 <= j < |values| ==> values[i].value - values[j].value <= TOLERANCE)
  }

  predicate DatesConsistent(lines: seq<Line>) {
    && lines != []
    && (forall i :: 0 <= i < |lines| ==> lines[i].orderDate.Day? && lines[i].orderDate == lines[0].orderDate)
  }

  function Products(lines: seq<Line>): set<string> {
    set l | l in lines && HasProduct(l) :: l.productId.value
  }

  function EligibleOn(day: int, products: set<string>): Rule -> bool {
    (r: Rule) => Eligible(r, day, products)
  }

  function Candidates(le: Collation, lines: seq<Line>, rules: seq<Rule>): seq<Rule>
    requires DatesConsistent(lines)
  {
    Sort(IdOrder(le), Filter(EligibleOn(lines[0].orderDate.day, Products(lines)), rules))
  }

  function Ids(rules: seq<Rule>): seq<string> {
    seq(|rules|, i requires 0 <= i < |rules| => rules[i].id)
  }

  function Mismatch(gap: Option<int>, warning: Warning, candidateIds: seq<string>): Resolution {
    Resolution(Unmatched, NoConfidence, gap, None, 0, 0, [], [warning], candidateIds)
  }

  /** The checks that come before any rule is looked at. */
  datatype Screened = Settled(resolution: Resolution) | Open(gap: int)

  predicate NothingDeducted(r: Resolution) {
    r.status != Applied && r.rule.None? && r.deduction == 0 && r.residual == 0 && r.allocations == []
  }

  function Screen(lines: seq<Line>): (s: Screened)
    ensures s.Settled? ==> NothingDeducted(s.resolution)
    ensures s.Open? ==> s.gap > 0 && DatesConsistent(lines) && forall l :: l in lines ==> HasProduct(l)
  {
    var totalOrder, totalPaid := FirstFinite(OrderTotals(lines)), FirstFinite(PaidTotals(lines));
    if forall l :: l in lines ==> !l.paidByCoupon then
      var gap := if totalOrder.None? || totalPaid.None? then None else Some(totalOrder.value - totalPaid.value);
      Settled(Resolution(NoCoupon, NoConfidence, gap, None, 0, 0, [], [], []))
    else if exists l :: l in lines && !l.isValid then Settled(Mismatch(None, IncompleteOrderData, []))
    else if exists l :: l in lines && l.totalOrder.NotFinite? then Settled(Mismatch(None, MissingTotalOrder, []))
    else if !DatesConsistent(lines) then Settled(Mismatch(None, InconsistentOrderDate, []))
    else if !Consistent(OrderTotals(lines)) then Settled(Mismatch(None, InconsistentTotalOrder, []))
    else if !Consistent(PaidTotals(lines)) then Settled(Mismatch(None, InconsistentTotalPaid, []))
    else if totalOrder.None? || totalPaid.None? then Settled(Mismatch(None, InconsistentTotalPaid, []))
    else
      var gap := totalOrder.value - totalPaid.value;
      if gap <= 0 then Settled(Mismatch(Some(gap), NonPositiveGap, []))
      else if forall l :: l in lines ==> !HasProduct(l) then Settled(Mismatch(Some(gap), UnmatchedProduct, []))
      else if exists l :: l in lines && !HasProduct(l) then Settled(Mismatch(Some(gap), PartialProductMapping, []))
      else Open(gap)
  }

  ghost function Resolve(le: Collation, lines: seq<Line>, rules: seq<Rule>): Resolution
    requires TotalOrder(le)
  {
    var screened := Screen(lines);
    if screened.Settled? then screened.resolution
    else ResolveWithin(le, lines, Candidates(le, lines, rules), screened.gap)
  }

  ghost function ResolveWithin(le: Collation, lines: seq<Line>, candidates: seq<Rule>, gap: int): Resolution
    requires TotalOrder(le)
  {
    if candidates == [] then Mismatch(Some(gap), NoActiveCouponRule, [])
    else
      var selection := SelectRule(le, candidates, gap);
      if selection.None? then Mismatch(Some(gap), NoPlausibleCouponAmount, Ids(candidates))
      else ResolveWith(le, lines, selection.value.0, selection.value.1, gap, Ids(candidates))
  }

  ghost function ResolveWith(
      le: Collation, lines: seq<Line>, rule: Rule, tied: seq<Rule>, gap: int, candidateIds: seq<string>): Resolution {
    var ties := if |tied| > 1 then [RuleTieResolvedByPriority] else [];
    var split := CouponSplit(le, lines, rule);
    if split.None? then
      Mismatch(Some(gap), NonPositiveAllocationBase, candidateIds).(warnings := ties + [NonPositiveAllocationBase])
    else
      var residual := if gap > Amount(rule) then gap - Amount(rule) else 0;
      Resolution(
        Applied,
        if Distance(gap, rule) <= TOLERANCE then Exact else Estimated,
        Some(gap), Some(rule), Amount(rule), residual, split.value,
        ties + (if residual > TOLERANCE then [IgnoredResidualExists] else []),
        candidateIds)
  }

  /** The resolution depends on the set of rules, not on the order they are stored in. */
  lemma ResolutionRuleOrderFree(le: Collation, lines: seq<Line>, rules: seq<Rule>, others: seq<Rule>)
    requires TotalOrder(le) && DistinctIds(rules) && multiset(rules) == multiset(others)
    ensures Resolve(le, lines, rules) == Resolve(le, lines, others)
  {
    if DatesConsistent(lines) {
      var eligible := EligibleOn(lines[0].orderDate.day, Products(lines));
      FilterPermuted(eligible, rules, others);
      RuleOrdersAreTotal(le);
      var kept := Filter(eligible, rules);
      forall a, b | a in kept && b in kept && IdOrder(le)(a, b) && IdOrder(le)(b, a) ensures a == b {
        assert a.id == b.id;
      }
      SortOrderFree(IdOrder(le), kept, Filter(eligible, others));
    }
  }

  /** What an applied coupon must satisfy for the given candidates. */
  ghost predicate WellApplied(r: Resolution, lines: seq<Line>, rules: seq<Rule>) {
    && r.gap.Some? && r.rule.Some? && r.rule.value in rules && r.deduction == Amount(r.rule.value) > 0
    && r.deduction <= r.gap.value + TOLERANCE
    && Sum(CentsOf(), r.allocations) == r.deduction
    && (forall s :: s in r.allocations ==> s.key in Products(lines))
    && (r.confidence == Estimated <==> IgnoredResidualExists in r.warnings)
    && r.residual >= 0
    && (if r.deduction <= r.gap.value then r.deduction + r.residual == r.gap.value else r.residual == 0)
    && (r.confidence == Exact <==> -TOLERANCE <= r.gap.value - r.deduction <= TOLERANCE)
  }

  lemma SelectedIsPlausible(le: Collation, candidates: seq<Rule>, gap: int) returns (rule: Rule)
    requires TotalOrder(le) && SelectRule(le, candidates, gap).Some?
    ensures rule == SelectRule(le, candidates, gap).value.0 && rule in candidates
    ensures Amount(rule) <= gap + TOLERANCE
  {
    rule := SelectRule(le, candidates, gap).value.0;
    SelectedRuleIsLeast(le, candidates, gap, rule);
    AmountIsNearestOrGreatest(candidates, gap);
  }

  lemma AppliedWithin(le: Collation, lines: seq<Line>, candidates: seq<Rule>, gap: int, day: int)
    requires TotalOrder(le) && forall c :: c in candidates ==> Eligible(c, day, Products(lines))
    ensures var r := ResolveWithin(le, lines, candidates, gap);
      if r.status == Applied then r.gap == Some(gap) && WellApplied(r, lines, candidates)
      else NothingDeducted(r)
  {
    if SelectRule(le, candidates, gap).Some? {
      var rule := SelectedIsPlausible(le, candidates, gap);
      if CouponSplit(le, lines, rule).Some? {
        SplitConserved(le, lines, rule, Products(lines), day);
      }
    }
  }

  lemma CandidatesEligible(le: Collation, lines: seq<Line>, rules: seq<Rule>)
    requires TotalOrder(le) && DatesConsistent(lines)
    ensures forall c :: c in Candidates(le, lines, rules) ==>
      c in rules && Eligible(c, lines[0].orderDate.day, Products(lines))
  {
    var eligible := EligibleOn(lines[0].orderDate.day, Products(lines));
    RuleOrdersAreTotal(le);
    SortMembers(IdOrder(le), Filter(eligible, rules));
    forall c | c in Candidates(le, lines, rules)
      ensures c in rules && Eligible(c, lines[0].orderDate.day, Products(lines))
    {
      assert eligible(c);
    }
  }

  /**
   An applied coupon: its rule is one of the rules, its deduction adds up over products of the order,
   it never exceeds the observed gap by more than the tolerance, and it is an estimate exactly when
   the ignored residual is reported. Anything else deducts nothing.
   */
  lemma AppliedResolution(le: Collation, lines: seq<Line>, rules: seq<Rule>)
    requires TotalOrder(le)
    ensures var r := Resolve(le, lines, rules);
      if r.status == Applied then WellApplied(r, lines, rules)
      else NothingDeducted(r)
  {
    if Screen(lines).Open? {
      CandidatesEligible(le, lines, rules);
      AppliedWithin(le, lines, Candidates(le, lines, rules), Screen(lines).gap, lines[0].orderDate.day);
    }
  }
}
