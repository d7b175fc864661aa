/**
 Largest-remainder apportionment of a coupon over weighted keys
 (apps/api/src/domain/cafe24-coupon-matcher.ts, `allocateNonNegativeByWeight`).

 Money is exact: an amount is a whole number of cents. Weights are exact integers. The collation
 `le` stands for `localeCompare` and may be any total order on strings.
 */
module CouponAllocation {
  import opened Outcomes
  import opened Sorting
  import opened Sums

  const MAX_SAFE_INTEGER := 9007199254740991

  /** A JavaScript number holding an exact amount, or one that `Number.isFinite` refuses. */
  datatype Num = Finite(value: int) | NotFinite

  datatype Entry = Entry(key: string, weight: nat)

  datatype Share = Share(key: string, cents: int)

  type Collation = (string, string) -> bool

  function Clamp(n: Num): nat {
    if n.Finite? && n.value > 0 then n.value else 0
  }

  function Clamped(weights: seq<(string, Num)>): (r: seq<Entry>)
    ensures |r| == |weights|
    ensures forall i :: 0 <= i < |weights| ==> r[i] == Entry(weights[i].0, Clamp(weights[i].1))
  {
    seq(|weights|, i requires 0 <= i < |weights| => Entry(weights[i].0, Clamp(weights[i].1)))
  }

  function WeightOf(): Entry -> int { (e: Entry) => e.weight }

  function TotalWeight(es: seq<Entry>): (w: int)
    ensures w >= 0
    ensures forall e :: e in es ==> e.weight <= w
  {
    TotalWeightBounds(es);
    Sum(WeightOf(), es)
  }

  lemma {:induction false} TotalWeightBounds(es: seq<Entry>)
    ensures Sum(WeightOf(), es) >= 0
    ensures forall e :: e in es ==> e.weight <= Sum(WeightOf(), es)
  {
    if es != [] {
      TotalWeightBounds(es[1..]);
    }
  }

  predicate DistinctKeys(es: seq<Entry>) {
    forall i, j :: 0 <= i < j < |es| ==> es[i].key != es[j].key
  }

  // ---- Quotas ---------------------------------------------------------------------------------

  /** Whole units of the exact quota `units * weight / total`. */
  function Floor(units: nat, total: int, e: Entry): (f: int)
    requires total > 0
  {
    units * e.weight / total
  }

  /** What the quota has left over, as a numerator over `total`. */
  function Remainder(units: nat, total: int, e: Entry): (r: int)
    requires total > 0
  {
    units * e.weight % total
  }

  lemma QuotaParts(units: nat, total: int, e: Entry)
    requires total > 0
    ensures Floor(units, total, e) * total + Remainder(units, total, e) == units * e.weight
    ensures 0 <= Remainder(units, total, e) < total && 0 <= Floor(units, total, e)
  {
    var x := units * e.weight;
    assert x >= 0;
    assert x == (x / total) * total + x % total;
    MulLe(0, units, e.weight);
    CancelLt(-1, x / total, total);
  }

  function FloorOf(units: nat, total: int): Entry -> int
    requires total > 0
  {
    (e: Entry) => Floor(units, total, e)
  }

  /** Units still to hand out once every entry has its floor. */
  function Leftover(units: nat, total: int, es: seq<Entry>): int
    requires total > 0
  {
    units - Sum(FloorOf(units, total), es)
  }

  /** The order in which leftover units are handed out: larger remainder first, then collation. */
  predicate Deserves(le: Collation, units: nat, total: int, a: Entry, b: Entry)
    requires total > 0
  {
    Remainder(units, total, a) > Remainder(units, total, b) ||
    (Remainder(units, total, a) == Remainder(units, total, b) && le(a.key, b.key))
  }

  function DeservesOrder(le: Collation, units: nat, total: int): (Entry, Entry) -> bool
    requires total > 0
  {
    (a: Entry, b: Entry) => Deserves(le, units, total, a, b)
  }

  function KeyOrder(le: Collation): (Entry, Entry) -> bool {
    (a: Entry, b: Entry) => le(a.key, b.key)
  }

  ghost function AheadOf(le: Collation, units: nat, total: int, es: seq<Entry>, e: Entry): set<Entry>
    requires total > 0
  {
    set x | x in es && x != e && Deserves(le, units, total, x, e)
  }

  /**
   Reference definition, independent of any ordering of the input: an entry gets its floor, and one
   more unit exactly when fewer entries come before it than there are units left over.
   */
  ghost function Units(le: Collation, units: nat, es: seq<Entry>, e: Entry): int
    requires TotalWeight(es) > 0
  {
    var total := TotalWeight(es);
    Floor(units, total, e) +
    if |AheadOf(le, units, total, es, e)| < Leftover(units, total, es) then 1 else 0
  }

  // ---- The leftover never reaches an exact quota ---------------------------------------------

  ghost function Fractional(units: nat, total: int, es: seq<Entry>): set<Entry>
    requires total > 0
  {
    set e | e in es && Remainder(units, total, e) > 0
  }

  function RemainderOf(units: nat, total: int): Entry -> int
    requires total > 0
  {
    (e: Entry) => Remainder(units, total, e)
  }

  lemma {:induction false} QuotasAddUp(units: nat, total: int, es: seq<Entry>)
    requires total > 0
    ensures Sum(FloorOf(units, total), es) * total + Sum(RemainderOf(units, total), es) == Sum(WeightOf(), es) * units
  {
    if es != [] {
      var e, rest := es[0], es[1..];
      QuotasAddUp(units, total, rest);
      QuotaParts(units, total, e);
      MulDistributes(Floor(units, total, e), Sum(FloorOf(units, total), rest), total);
      MulDistributes(e.weight, Sum(WeightOf(), rest), units);
    }
  }

  lemma BoundStep(sum: int, n: nat, r: int, c: int)
    requires sum <= n * c && r <= c
    ensures r + sum <= (n + 1) * c
  {
    MulDistributes(n, 1, c);
  }

  lemma {:induction false} RemaindersBounded(units: nat, total: int, es: seq<Entry>)
    requires total > 0 && DistinctKeys(es)
    ensures 0 <= Sum(RemainderOf(units, total), es) <= |Fractional(units, total, es)| * (total - 1)
    ensures |Fractional(units, total, es)| <= |es|
  {
    if es == [] {
      assert Fractional(units, total, es) == {};
    } else {
      var e, rest := es[0], es[1..];
      RemaindersBounded(units, total, rest);
      QuotaParts(units, total, e);
      assert e !in rest;
      FractionalStep(units, total, es);
      if Remainder(units, total, e) > 0 {
        var n := |Fractional(units, total, rest)|;
        BoundStep(Sum(RemainderOf(units, total), rest), n, Remainder(units, total, e), total - 1);
      }
    }
  }

  lemma FractionalStep(units: nat, total: int, es: seq<Entry>)
    requires total > 0 && es != [] && es[0] !in es[1..]
    ensures |Fractional(units, total, es)| ==
      |Fractional(units, total, es[1..])| + if Remainder(units, total, es[0]) > 0 then 1 else 0
  {
    var e, rest := es[0], es[1..];
    if Remainder(units, total, e) > 0 {
      assert Fractional(units, total, es) == Fractional(units, total, rest) + {e};
    } else {
      assert Fractional(units, total, es) == Fractional(units, total, rest);
    }
  }

  lemma LeftoverArithmetic(left: int, n: nat, total: int)
    requires total > 0 && 0 <= left * total <= n * (total - 1)
    ensures 0 <= left <= n && (n > 0 ==> left < n)
  {
    MulDistributes(n, 1, total);
    assert n * (total - 1) == n * total - n;
    CancelLt(left, n + 1, total);
    CancelLt(-1, left, total);
    if n > 0 { CancelLt(left, n, total); }
  }

  lemma LeftoverOf(units: nat, floors: int, remainders: int, n: nat, total: int)
    requires total > 0 && floors * total + remainders == total * units && 0 <= remainders <= n * (total - 1)
    ensures 0 <= units - floors <= n && (n > 0 ==> units - floors < n)
  {
    MulDistributes(units - floors, floors, total);
    LeftoverArithmetic(units - floors, n, total);
  }

  /** There are never more leftover units than fractional quotas, so the hand-out never wraps round. */
  lemma LeftoverBound(units: nat, es: seq<Entry>)
    requires TotalWeight(es) > 0 && DistinctKeys(es)
    ensures var total := TotalWeight(es);
      && 0 <= Leftover(units, total, es) <= |Fractional(units, total, es)|
      && Leftover(units, total, es) < |es|
  {
    var total := TotalWeight(es);
    QuotasAddUp(units, total, es);
    RemaindersBounded(units, total, es);
    LeftoverOf(
      units, Sum(FloorOf(units, total), es), Sum(RemainderOf(units, total), es), |Fractional(units, total, es)|, total);
    assert es != [];
  }

  // ---- Laws of the reference definition -------------------------------------------------------

  /** Each entry gets its floor or one more; an exact quota, in particular a zero weight, gets exactly itself. */
  lemma QuotaRule(le: Collation, units: nat, es: seq<Entry>, e: Entry)
    requires TotalOrder(le) && TotalWeight(es) > 0 && DistinctKeys(es) && e in es
    ensures var total := TotalWeight(es);
      && Floor(units, total, e) <= Units(le, units, es, e) <= Floor(units, total, e) + 1
      && (units * e.weight % total == 0 ==> Units(le, units, es, e) == units * e.weight / total)
    ensures e.weight == 0 ==> Units(le, units, es, e) == 0
  {
    var total := TotalWeight(es);
    if Remainder(units, total, e) == 0 {
      LeftoverBound(units, es);
      var ahead := AheadOf(le, units, total, es, e);
      forall x | x in Fractional(units, total, es) ensures x in ahead {
        QuotaParts(units, total, x);
      }
      SubsetSize(Fractional(units, total, es), ahead);
    }
    if e.weight == 0 {
      assert units * e.weight == 0;
    }
  }

  lemma FloorMonotone(units: nat, total: int, small: Entry, large: Entry)
    requires total > 0 && small.weight < large.weight
    ensures Floor(units, total, small) <= Floor(units, total, large)
    ensures units > 0 && Floor(units, total, small) == Floor(units, total, large) ==>
              Remainder(units, total, small) < Remainder(units, total, large)
  {
    QuotaParts(units, total, small);
    QuotaParts(units, total, large);
    MulLe(small.weight + 1, large.weight, units);
    MulDistributes(small.weight, 1, units);
    assert small.weight * units == units * small.weight && large.weight * units == units * large.weight;
    var g := Floor(units, total, large);
    MulDistributes(g, 1, total);
    CancelLt(Floor(units, total, small), g + 1, total);
  }

  /** A strictly larger weight never gets fewer units. */
  lemma WeightMonotone(le: Collation, units: nat, es: seq<Entry>, small: Entry, large: Entry)
    requires TotalOrder(le) && TotalWeight(es) > 0 && DistinctKeys(es)
    requires small in es && large in es && small.weight < large.weight
    ensures Units(le, units, es, small) <= Units(le, units, es, large)
  {
    var total := TotalWeight(es);
    FloorMonotone(units, total, small, large);
    if units == 0 {
      QuotaRule(le, units, es, small);
      QuotaRule(le, units, es, large);
      assert units * small.weight == 0 && units * large.weight == 0;
    } else if Floor(units, total, small) == Floor(units, total, large) {
      SubsetSize(AheadOf(le, units, total, es, large), AheadOf(le, units, total, es, small));
    }
  }

  /** The share of an entry does not depend on the insertion order of the weights. */
  lemma InsertionOrderFree(le: Collation, units: nat, es: seq<Entry>, fs: seq<Entry>, e: Entry)
    requires multiset(es) == multiset(fs) && TotalWeight(es) > 0
    ensures TotalWeight(fs) > 0 && Units(le, units, es, e) == Units(le, units, fs, e)
  {
    SumOrderFree(WeightOf(), es, fs);
    var total := TotalWeight(es);
    SumOrderFree(FloorOf(units, total), es, fs);
    forall x ensures x in es <==> x in fs {
      assert x in multiset(es) <==> x in multiset(fs);
    }
    assert AheadOf(le, units, total, es, e) == AheadOf(le, units, total, fs, e);
  }

  // ---- Ranks are positions in the sorted order ------------------------------------------------

  lemma {:induction false} SingleOccurrence(es: seq<Entry>, e: Entry)
    requires DistinctKeys(es)
    ensures multiset(es)[e] <= 1
  {
    if es != [] {
      SingleOccurrence(es[1..], e);
      assert es == [es[0]] + es[1..];
      assert es[0] !in es[1..];
    }
  }

  lemma DistinctKeysPermuted(es: seq<Entry>, fs: seq<Entry>)
    requires multiset(es) == multiset(fs) && DistinctKeys(es)
    ensures DistinctKeys(fs)
  {
    forall i, j | 0 <= i < j < |fs| ensures fs[i].key != fs[j].key {
      assert fs[i] in multiset(es) && fs[j] in multiset(es);
      SingleOccurrence(es, fs[i]);
      if fs[i] == fs[j] { RepeatedMember(fs, i, j); }
    }
  }

  lemma OrdersAreTotal(le: Collation, units: nat, total: int)
    requires TotalOrder(le) && total > 0
    ensures TotalPreorder(DeservesOrder(le, units, total))
    ensures TotalPreorder(KeyOrder(le))
  {
    var byKey := KeyOrder(le);
    forall a: Entry, b: Entry ensures byKey(a, b) || byKey(b, a) {
      assert le(a.key, b.key) || le(b.key, a.key);
    }
    forall a: Entry, b: Entry, c: Entry | byKey(a, b) && byKey(b, c) ensures byKey(a, c) {
      assert le(a.key, b.key) && le(b.key, c.key);
    }
  }

  lemma KeyTies(le: Collation, es: seq<Entry>)
    requires TotalOrder(le) && DistinctKeys(es)
    ensures TiesOnlyEqual(KeyOrder(le), es)
  {
    forall a, b | a in es && b in es && le(a.key, b.key) && le(b.key, a.key) ensures a == b {
      assert a.key == b.key;
    }
  }

  lemma OneMoreMember(es: seq<Entry>, e: Entry)
    requires e !in es
    ensures |set x | x in es + [e]| == |set x | x in es| + 1
  {
    assert (set x | x in es + [e]) == (set x | x in es) + {e};
  }

  lemma {:induction false} PrefixSize(ds: seq<Entry>, i: nat)
    requires i <= |ds| && DistinctKeys(ds)
    ensures |set x | x in ds[..i]| == i
  {
    if i > 0 {
      PrefixSize(ds, i - 1);
      var shorter := ds[..i - 1];
      assert ds[i - 1] !in shorter;
      OneMoreMember(shorter, ds[i - 1]);
      assert ds[..i] == shorter + [ds[i - 1]];
    }
  }

  lemma RankIsPosition(le: Collation, units: nat, es: seq<Entry>, ds: seq<Entry>, i: nat)
    requires TotalOrder(le) && TotalWeight(es) > 0 && DistinctKeys(es) && multiset(es) == multiset(ds)
    requires Sorted(DeservesOrder(le, units, TotalWeight(es)), ds) && i < |ds|
    ensures |AheadOf(le, units, TotalWeight(es), es, ds[i])| == i
  {
    var total := TotalWeight(es);
    var order := DeservesOrder(le, units, total);
    DistinctKeysPermuted(es, ds);
    PrefixSize(ds, i);
    var ahead := AheadOf(le, units, total, es, ds[i]);
    forall x ensures x in ahead <==> x in ds[..i] {
      assert x in es <==> x in ds by { assert x in multiset(es) <==> x in multiset(ds); }
      if x in ds {
        var j :| 0 <= j < |ds| && ds[j] == x;
        if j < i {
          assert order(ds[j], ds[i]);
        } else if j > i {
          assert order(ds[i], ds[j]) && ds[i].key != ds[j].key;
          assert x !in ds[..i];
        }
      }
    }
    assert ahead == set x | x in ds[..i];
  }

  ghost function UnitsIn(le: Collation, units: nat, es: seq<Entry>): Entry -> int
    requires TotalWeight(es) > 0
  {
    (e: Entry) => Units(le, units, es, e)
  }

  lemma {:induction false} SuffixUnits(le: Collation, units: nat, es: seq<Entry>, ds: seq<Entry>, i: nat)
    requires TotalOrder(le) && TotalWeight(es) > 0 && DistinctKeys(es) && multiset(es) == multiset(ds)
    requires Sorted(DeservesOrder(le, units, TotalWeight(es)), ds)
    requires i <= |ds| && Leftover(units, TotalWeight(es), es) <= |ds|
    ensures var total := TotalWeight(es);
      var left := Leftover(units, total, es);
      Sum(UnitsIn(le, units, es), ds[i..]) == Sum(FloorOf(units, total), ds[i..]) + (if left > i then left - i else 0)
    decreases |ds| - i
  {
    if i < |ds| {
      SuffixUnits(le, units, es, ds, i + 1);
      RankIsPosition(le, units, es, ds, i);
      assert ds[i..][0] == ds[i] && ds[i..][1..] == ds[i + 1..];
    }
  }

  /** The units handed out add up to the total, exactly. */
  lemma UnitsConserved(le: Collation, units: nat, es: seq<Entry>)
    requires TotalOrder(le) && TotalWeight(es) > 0 && DistinctKeys(es)
    ensures Sum(UnitsIn(le, units, es), es) == units
  {
    var total := TotalWeight(es);
    OrdersAreTotal(le, units, total);
    var ds := Sort(DeservesOrder(le, units, total), es);
    SortSpec(DeservesOrder(le, units, total), es);
    LeftoverBound(units, es);
    SuffixUnits(le, units, es, ds, 0);
    assert ds[0..] == ds;
    SumOrderFree(UnitsIn(le, units, es), es, ds);
    SumOrderFree(FloorOf(units, total), es, ds);
  }

  // ---- The whole operation --------------------------------------------------------------------

  /** Whole won are split in won; other amounts in cents. */
  function UnitCents(cents: nat): (c: nat)
    ensures c > 0 && cents / c * c == cents
  {
    if cents % 100 == 0 then 100 else 1
  }

  predicate Refused(amount: Num, weights: seq<(string, Num)>) {
    || amount.NotFinite? || amount.value < 0
    || weights == []
    || TotalWeight(Clamped(weights)) <= 0
    || amount.value / UnitCents(amount.value) > MAX_SAFE_INTEGER
  }

  ghost function Shares(le: Collation, amount: Num, weights: seq<(string, Num)>, order: seq<Entry>): (r: seq<Share>)
    requires !Refused(amount, weights)
    ensures |r| == |order|
    ensures forall i :: 0 <= i < |order| ==>
      r[i].key == order[i].key && r[i].cents == ShareCents(le, amount, weights, order[i])
  {
    seq(|order|, i requires 0 <= i < |order| => Share(order[i].key, ShareCents(le, amount, weights, order[i])))
  }

  ghost function ShareCents(le: Collation, amount: Num, weights: seq<(string, Num)>, e: Entry): int
    requires !Refused(amount, weights)
  {
    Units(le, amount.value / UnitCents(amount.value), Clamped(weights), e) * UnitCents(amount.value)
  }

  /** Specification of the operation: the reference shares, listed in collation order. */
  ghost function Allocation(le: Collation, amount: Num, weights: seq<(string, Num)>): Option<seq<Share>> {
    if Refused(amount, weights) then None
    else Some(Shares(le, amount, weights, Sort(KeyOrder(le), Clamped(weights))))
  }

  predicate UniqueKeys(weights: seq<(string, Num)>) {
    forall i, j :: 0 <= i < j < |weights| ==> weights[i].0 != weights[j].0
  }

  /**
   The operation as the source performs it: sort, take floors, then give one unit at a time to the
   entry at `index % length` of the remainder order, and list the result by key.
   */
  method AllocateNonNegativeByWeight(le: Collation, amount: Num, weights: seq<(string, Num)>)
    returns (r: Option<seq<Share>>)
    requires TotalOrder(le) && UniqueKeys(weights)
    ensures r == Allocation(le, amount, weights)
  {
    if amount.NotFinite? || amount.value < 0 || |weights| == 0 {
      return None;
    }
    ghost var es := Clamped(weights);
    var entries := Sort(KeyOrder(le), Clamped(weights));
    SortedEntries(le, es);
    var total := TotalWeight(entries);
    if total <= 0 {
      return None;
    }
    var unit := UnitCents(amount.value);
    var units := amount.value / unit;
    if units > MAX_SAFE_INTEGER {
      return None;
    }
    var handed := HandOut(le, units, total, entries);
    HandedOut(le, units, es, entries, handed);
    r := Some(seq(|entries|, i requires 0 <= i < |entries| => Share(entries[i].key, handed[entries[i].key] * unit)));
    assert r.value == Shares(le, amount, weights, entries);
  }

  lemma SortedEntries(le: Collation, es: seq<Entry>)
    requires TotalOrder(le) && DistinctKeys(es)
    ensures var entries := Sort(KeyOrder(le), es);
      multiset(entries) == multiset(es) && DistinctKeys(entries) && TotalWeight(entries) == TotalWeight(es)
  {
    OrdersAreTotal(le, 0, 1);
    SortSpec(KeyOrder(le), es);
    SumOrderFree(WeightOf(), Sort(KeyOrder(le), es), es);
    DistinctKeysPermuted(es, Sort(KeyOrder(le), es));
  }

  lemma HandedOut(le: Collation, units: nat, es: seq<Entry>, entries: seq<Entry>, handed: map<string, int>)
    requires TotalWeight(entries) > 0 && multiset(entries) == multiset(es)
    requires forall e :: e in entries ==> e.key in handed && handed[e.key] == Units(le, units, entries, e)
    ensures TotalWeight(es) > 0 && forall e :: e in entries ==> handed[e.key] == Units(le, units, es, e)
  {
    SumOrderFree(WeightOf(), entries, es);
    forall e | e in entries ensures handed[e.key] == Units(le, units, es, e) {
      InsertionOrderFree(le, units, entries, es, e);
    }
  }

  method Floors(units: nat, total: int, entries: seq<Entry>) returns (floors: map<string, int>, sum: int)
    requires total > 0 && DistinctKeys(entries)
    ensures forall e :: e in entries ==> e.key in floors && floors[e.key] == Floor(units, total, e)
    ensures sum == Sum(FloorOf(units, total), entries)
  {
    floors, sum := map[], 0;
    for i := 0 to |entries|
      invariant forall j :: 0 <= j < i ==>
        entries[j].key in floors && floors[entries[j].key] == Floor(units, total, entries[j])
      invariant sum + Sum(FloorOf(units, total), entries[i..]) == Sum(FloorOf(units, total), entries)
    {
      var floor := Floor(units, total, entries[i]);
      floors := floors[entries[i].key := floor];
      sum := sum + floor;
      assert entries[i..][1..] == entries[i + 1..];
    }
  }

  lemma SmallMod(i: nat, n: nat)
    requires i < n
    ensures i % n == i
  {
  }

  method HandOut(le: Collation, units: nat, total: int, entries: seq<Entry>) returns (handed: map<string, int>)
    requires TotalOrder(le) && DistinctKeys(entries) && total == TotalWeight(entries) > 0
    ensures forall e :: e in entries ==> e.key in handed && handed[e.key] == Units(le, units, entries, e)
  {
    var floors, sum := Floors(units, total, entries);
    var remaining := units - sum;
    var largest := Sort(DeservesOrder(le, units, total), entries);
    RemainderOrder(le, units, entries, largest);
    handed := floors;
    for index := 0 to remaining
      invariant forall p :: 0 <= p < |largest| ==>
        && largest[p].key in handed
        && handed[largest[p].key] == floors[largest[p].key] + if p < index then 1 else 0
    {
      SmallMod(index, |largest|);
      var next := largest[index % |largest|];
      handed := handed[next.key := handed[next.key] + 1];
    }
    forall e | e in entries ensures e.key in handed && handed[e.key] == Units(le, units, entries, e) {
      assert e in largest;
      var p :| 0 <= p < |largest| && largest[p] == e;
      RankIsPosition(le, units, entries, largest, p);
    }
  }

  lemma RemainderOrder(le: Collation, units: nat, entries: seq<Entry>, largest: seq<Entry>)
    requires TotalOrder(le) && DistinctKeys(entries) && TotalWeight(entries) > 0
    requires largest == Sort(DeservesOrder(le, units, TotalWeight(entries)), entries)
    ensures Sorted(DeservesOrder(le, units, TotalWeight(entries)), largest) && DistinctKeys(largest)
    ensures multiset(entries) == multiset(largest) && forall e :: e in largest <==> e in entries
    ensures 0 <= Leftover(units, TotalWeight(entries), entries) < |largest|
  {
    var order := DeservesOrder(le, units, TotalWeight(entries));
    OrdersAreTotal(le, units, TotalWeight(entries));
    SortSpec(order, entries);
    SortMembers(order, entries);
    DistinctKeysPermuted(entries, largest);
    LeftoverBound(units, entries);
  }

  function CentsOf(): Share -> int { (s: Share) => s.cents }

  lemma {:induction false} SharesAddUp(le: Collation, amount: Num, weights: seq<(string, Num)>, order: seq<Entry>)
    requires !Refused(amount, weights)
    ensures Sum(CentsOf(), Shares(le, amount, weights, order)) ==
            Sum(UnitsIn(le, amount.value / UnitCents(amount.value), Clamped(weights)), order) * UnitCents(amount.value)
  {
    if order != [] {
      SharesAddUp(le, amount, weights, order[1..]);
      var all := Shares(le, amount, weights, order);
      assert all[1..] == Shares(le, amount, weights, order[1..]);
      var each := UnitsIn(le, amount.value / UnitCents(amount.value), Clamped(weights));
      MulDistributes(each(order[0]), Sum(each, order[1..]), UnitCents(amount.value));
    }
  }

  /** Conservation: whatever is allocated adds up to the amount, to the cent. */
  lemma AllocationConserved(le: Collation, amount: Num, weights: seq<(string, Num)>)
    requires TotalOrder(le) && UniqueKeys(weights) && Allocation(le, amount, weights).Some?
    ensures Sum(CentsOf(), Allocation(le, amount, weights).value) == amount.value
  {
    var es := Clamped(weights);
    OrdersAreTotal(le, 0, 1);
    var order := Sort(KeyOrder(le), es);
    SortSpec(KeyOrder(le), es);
    var units := amount.value / UnitCents(amount.value);
    SharesAddUp(le, amount, weights, order);
    SumOrderFree(UnitsIn(le, units, es), order, es);
    UnitsConserved(le, units, es);
  }

  lemma {:induction false} ClampedPermuted(ws: seq<(string, Num)>, vs: seq<(string, Num)>)
    requires multiset(ws) == multiset(vs)
    ensures multiset(Clamped(ws)) == multiset(Clamped(vs))
  {
    if ws == [] {
      assert |multiset(vs)| == 0;
    } else {
      assert ws[0] in multiset(vs);
      var i :| 0 <= i < |vs| && vs[i] == ws[0];
      MultisetSplit(ws, 0);
      MultisetSplit(vs, i);
      assert multiset(Without(ws, 0)) == multiset(ws) - multiset{ws[0]};
      assert multiset(Without(vs, i)) == multiset(vs) - multiset{vs[i]};
      ClampedPermuted(Without(ws, 0), Without(vs, i));
      ClampedSplit(ws, 0);
      ClampedSplit(vs, i);
    }
  }

  lemma ClampedSplit(ws: seq<(string, Num)>, i: nat)
    requires i < |ws|
    ensures multiset(Clamped(ws)) == multiset(Clamped(Without(ws, i))) + multiset{Entry(ws[i].0, Clamp(ws[i].1))}
  {
    assert Clamped(Without(ws, i)) == Without(Clamped(ws), i);
    MultisetSplit(Clamped(ws), i);
  }

  /** The allocation is the same list whatever order the weights were inserted in. */
  lemma AllocationOrderFree(le: Collation, amount: Num, ws: seq<(string, Num)>, vs: seq<(string, Num)>)
    requires TotalOrder(le) && UniqueKeys(ws) && multiset(ws) == multiset(vs)
    ensures Allocation(le, amount, ws) == Allocation(le, amount, vs)
  {
    ClampedPermuted(ws, vs);
    SumOrderFree(WeightOf(), Clamped(ws), Clamped(vs));
    if !Refused(amount, ws) {
      assert |multiset(vs)| == |ws|;
      OrdersAreTotal(le, 0, 1);
      KeyTies(le, Clamped(ws));
      SortOrderFree(KeyOrder(le), Clamped(ws), Clamped(vs));
      SharesOrderFree(le, amount, ws, vs, Sort(KeyOrder(le), Clamped(ws)));
    } else if ws == [] {
      assert |multiset(vs)| == 0;
    }
  }

  lemma SharesOrderFree(le: Collation, amount: Num, ws: seq<(string, Num)>, vs: seq<(string, Num)>, order: seq<Entry>)
    requires !Refused(amount, ws) && !Refused(amount, vs) && multiset(Clamped(ws)) == multiset(Clamped(vs))
    ensures Shares(le, amount, ws, order) == Shares(le, amount, vs, order)
  {
    var units := amount.value / UnitCents(amount.value);
    forall i | 0 <= i < |order|
      ensures Shares(le, amount, ws, order)[i] == Shares(le, amount, vs, order)[i]
    {
      InsertionOrderFree(le, units, Clamped(ws), Clamped(vs), order[i]);
    }
  }

  /** A discount of whole won is split in whole won. */
  lemma WholeWonStayWhole(le: Collation, amount: Num, weights: seq<(string, Num)>, i: nat)
    requires Allocation(le, amount, weights).Some? && amount.value % 100 == 0
    requires i < |Allocation(le, amount, weights).value|
    ensures Allocation(le, amount, weights).value[i].cents % 100 == 0
  {
  }
}
