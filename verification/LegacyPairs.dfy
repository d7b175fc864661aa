/**
 Pairing of tombstone plans: a tombstone row holds two keys that move together
 (`pairLegacyTombstonePlans` in apps/api/maintenance/legacy/reference-inventory.ts).
 */
module LegacyPairs {
  import opened Outcomes
  import opened Sorting
  import opened Sums
  import opened Traversal
  import opened Text
  import opened LegacyPlans

  datatype Pair = Pair(original: Plan, trash: Plan)

  type Collation = (string, string) -> bool

  /** The tombstone plans of one record, in manifest order. */
  function Group(plans: seq<Plan>, recordId: string): (g: seq<Plan>)
    ensures forall p :: p in g <==> p in plans && p.model == StorageTombstone && p.recordId == recordId
  {
    if plans == [] then []
    else
      var rest := Group(plans[..|plans| - 1], recordId);
      var last := plans[|plans| - 1];
      assert plans == plans[..|plans| - 1] + [last];
      if last.model == StorageTombstone && last.recordId == recordId then rest + [last] else rest
  }

  function Find(group: seq<Plan>, field: Field): (r: Option<Plan>)
    ensures r.Some? ==> r.value in group && r.value.field == field
    ensures r.None? ==> forall p :: p in group ==> p.field != field
  {
    if group == [] then None else if group[0].field == field then Some(group[0]) else Find(group[1..], field)
  }

  predicate Matching(o: Plan, t: Plan) {
    && o.oldStatus == t.oldStatus && o.oldProvider == t.oldProvider && Truthy(o.oldProvider)
    && o.oldValue != t.oldValue && o.targetKey != t.targetKey
  }

  predicate KeyIsReference(p: Plan) { p.targetReference == p.targetKey && p.size <= MAX_SOURCE_BYTES }

  function PairOf(group: seq<Plan>): (r: Result<Pair>)
    ensures r.Success? ==> r.value.original in group && r.value.trash in group
  {
    var original, trash := Find(group, OriginalKey), Find(group, TrashKey);
    if |group| != 2 || original.None? || trash.None? || !Matching(original.value, trash.value) then
      Failure("LEGACY_TOMBSTONE_PAIR_INCOMPLETE")
    else if !KeyIsReference(original.value) || !KeyIsReference(trash.value) then
      Failure("LEGACY_TOMBSTONE_PAIR_INVALID")
    else Success(Pair(original.value, trash.value))
  }

  /** The records with a tombstone plan, each once, in order of first appearance. */
  function Records(plans: seq<Plan>): (r: seq<string>)
    ensures forall id :: id in r <==> exists p :: p in plans && p.model == StorageTombstone && p.recordId == id
    ensures forall i, j :: 0 <= i < j < |r| ==> r[i] != r[j]
  {
    if plans == [] then []
    else
      var earlier, last := plans[..|plans| - 1], plans[|plans| - 1];
      var rest := Records(earlier);
      assert plans == earlier + [last];
      if last.model == StorageTombstone && last.recordId !in rest then rest + [last.recordId] else rest
  }

  function PairFor(plans: seq<Plan>): string -> Result<Pair> { (id: string) => PairOf(Group(plans, id)) }

  function PairTombstones(le: Collation, plans: seq<Plan>): Result<seq<Pair>> {
    Traverse(PairFor(plans), Sort(le, Records(plans)))
  }

  method GroupByRecord(plans: seq<Plan>) returns (groups: map<string, seq<Plan>>, keys: seq<string>)
    ensures keys == Records(plans) && forall k :: k in keys ==> k in groups && groups[k] == Group(plans, k)
  {
    groups, keys := map[], [];
    for n := 0 to |plans|
      invariant keys == Records(plans[..n])
      invariant forall k :: k in keys <==> k in groups
      invariant forall k :: k in groups ==> groups[k] == Group(plans[..n], k)
    {
      var plan := plans[n];
      assert plans[..n + 1][..n] == plans[..n];
      if plan.model == StorageTombstone {
        if plan.recordId !in groups {
          EmptyGroup(plans[..n], plan.recordId);
          keys := keys + [plan.recordId];
          groups := groups[plan.recordId := [plan]];
        } else {
          groups := groups[plan.recordId := groups[plan.recordId] + [plan]];
        }
      }
    }
    assert plans[..|plans|] == plans;
  }

  lemma EmptyGroup(plans: seq<Plan>, recordId: string)
    requires recordId !in Records(plans)
    ensures Group(plans, recordId) == []
  {
    if Group(plans, recordId) != [] { assert Group(plans, recordId)[0] in Group(plans, recordId); }
  }

  /** The source's loop: collect groups per record, then pair them in collation order. */
  method PairLegacyTombstonePlans(le: Collation, plans: seq<Plan>) returns (r: Result<seq<Pair>>)
    requires TotalOrder(le)
    ensures r == PairTombstones(le, plans)
  {
    var groups, keys := GroupByRecord(plans);
    var records := Sort(le, keys);
    SortMembers(le, keys);
    var f := (id: string) => PairOf(if id in groups then groups[id] else []);
    r := Collect(f, records);
    TraverseAgrees(f, PairFor(plans), records);
  }

  // ---- What pairing guarantees ----------------------------------------------------------------

  /** A pair holds the two plans of its group. */
  lemma GroupIsPair(group: seq<Plan>, p: Plan)
    requires PairOf(group).Success? && p in group
    ensures p == PairOf(group).value.original || p == PairOf(group).value.trash
    ensures PairOf(group).value.original.field == OriginalKey && PairOf(group).value.trash.field == TrashKey
  {
    var pair := PairOf(group).value;
    var i :| 0 <= i < 2 && group[i] == pair.original;
    var j :| 0 <= j < 2 && group[j] == pair.trash;
    assert i != j;
  }

  predicate WellPaired(pair: Pair, plans: seq<Plan>) {
    && pair.original in plans && pair.trash in plans
    && pair.original.model == StorageTombstone && pair.trash.model == StorageTombstone
    && pair.original.field == OriginalKey && pair.trash.field == TrashKey
    && pair.original.recordId == pair.trash.recordId
    && Matching(pair.original, pair.trash) && KeyIsReference(pair.original) && KeyIsReference(pair.trash)
  }

  predicate Holds(pair: Pair, p: Plan) { p == pair.original || p == pair.trash }

  predicate Covered(pairs: seq<Pair>, p: Plan) { exists i :: 0 <= i < |pairs| && Holds(pairs[i], p) }

  predicate RecordsDistinct(pairs: seq<Pair>) {
    forall i, j :: 0 <= i < j < |pairs| ==> pairs[i].original.recordId != pairs[j].original.recordId
  }

  /** Pairs come from distinct records of the manifest and each is the whole group of its record. */
  predicate Partition(pairs: seq<Pair>, plans: seq<Plan>) {
    && (forall i :: 0 <= i < |pairs| ==> WellPaired(pairs[i], plans))
    && RecordsDistinct(pairs)
    && (forall p :: p in plans && p.model == StorageTombstone ==> Covered(pairs, p))
  }

  lemma PairedRecords(le: Collation, plans: seq<Plan>, records: seq<string>)
    requires TotalOrder(le) && records == Sort(le, Records(plans))
    ensures forall id :: id in records <==> exists p :: p in plans && p.model == StorageTombstone && p.recordId == id
    ensures forall i, j :: 0 <= i < j < |records| ==> records[i] != records[j]
  {
    SortMembers(le, Records(plans));
    SortSpec(le, Records(plans));
    DistinctPermuted(Records(plans), records);
  }

  lemma PairOfRecord(plans: seq<Plan>, id: string)
    requires PairOf(Group(plans, id)).Success?
    ensures var pair := PairOf(Group(plans, id)).value;
      && WellPaired(pair, plans) && pair.original.recordId == id
      && forall p :: p in plans && p.model == StorageTombstone && p.recordId == id ==> Holds(pair, p)
  {
    var group := Group(plans, id);
    var pair := PairOf(group).value;
    GroupIsPair(group, pair.original);
    forall p | p in plans && p.model == StorageTombstone && p.recordId == id ensures Holds(pair, p) {
      GroupIsPair(group, p);
    }
  }

  /** When pairing succeeds, the tombstone plans are partitioned into one pair per record. */
  lemma PairingPartitions(le: Collation, plans: seq<Plan>)
    requires TotalOrder(le) && PairTombstones(le, plans).Success?
    ensures Partition(PairTombstones(le, plans).value, plans)
  {
    var records := Sort(le, Records(plans));
    var pairs := PairTombstones(le, plans).value;
    PairedRecords(le, plans, records);
    TraverseSpec(PairFor(plans), records);
    assert PairsOfRecords(plans, records, pairs);
    forall i | 0 <= i < |pairs| ensures WellPaired(pairs[i], plans) && pairs[i].original.recordId == records[i] {
      PairAt(plans, records, pairs, i);
    }
    forall p | p in plans && p.model == StorageTombstone ensures Covered(pairs, p) {
      assert p.recordId in records;
      var i :| 0 <= i < |records| && records[i] == p.recordId;
      PairAt(plans, records, pairs, i);
      assert Holds(pairs[i], p);
    }
  }

  predicate PairsOfRecords(plans: seq<Plan>, records: seq<string>, pairs: seq<Pair>) {
    |pairs| == |records| && forall i :: 0 <= i < |records| ==> PairFor(plans)(records[i]) == Success(pairs[i])
  }

  lemma PairAt(plans: seq<Plan>, records: seq<string>, pairs: seq<Pair>, i: nat)
    requires PairsOfRecords(plans, records, pairs) && i < |records|
    ensures WellPaired(pairs[i], plans) && pairs[i].original.recordId == records[i]
    ensures forall p :: p in plans && p.model == StorageTombstone && p.recordId == records[i] ==> Holds(pairs[i], p)
  {
    assert PairFor(plans)(records[i]) == Success(pairs[i]);
    PairOfRecord(plans, records[i]);
  }

  predicate Unpaired(plans: seq<Plan>, p: Plan) { p.model == StorageTombstone && PairFor(plans)(p.recordId).Failure? }

  /** Pairing fails exactly when some record with a tombstone plan lacks a complete, matching pair. */
  lemma PairingFailsExactly(le: Collation, plans: seq<Plan>)
    requires TotalOrder(le)
    ensures PairTombstones(le, plans).Failure? <==> exists p :: p in plans && Unpaired(plans, p)
  {
    var records, f := Sort(le, Records(plans)), PairFor(plans);
    TraverseSpec(f, records);
    if PairTombstones(le, plans).Failure? {
      var i :| 0 <= i < |records| && f(records[i]).Failure?;
      UnpairedRecord(le, plans, records[i]);
    } else {
      forall p | p in plans ensures !Unpaired(plans, p) { NotUnpaired(le, plans, p); }
    }
  }

  lemma UnpairedRecord(le: Collation, plans: seq<Plan>, id: string)
    requires TotalOrder(le) && id in Sort(le, Records(plans)) && PairFor(plans)(id).Failure?
    ensures exists p :: p in plans && Unpaired(plans, p)
  {
    SortMembers(le, Records(plans));
    var p :| p in plans && p.model == StorageTombstone && p.recordId == id;
    assert Unpaired(plans, p);
  }

  lemma NotUnpaired(le: Collation, plans: seq<Plan>, p: Plan)
    requires TotalOrder(le) && p in plans
    requires forall id :: id in Sort(le, Records(plans)) ==> PairFor(plans)(id).Success?
    ensures !Unpaired(plans, p)
  {
    SortMembers(le, Records(plans));
    if p.model == StorageTombstone { assert p.recordId in Sort(le, Records(plans)); }
  }

  lemma HeldRecord(pair: Pair, plans: seq<Plan>, p: Plan)
    requires WellPaired(pair, plans) && Holds(pair, p)
    ensures p.recordId == pair.original.recordId
  {
  }

  /** A plan lies in one pair only. */
  lemma PairIsUnique(pairs: seq<Pair>, plans: seq<Plan>, i: nat, j: nat, p: Plan)
    requires Partition(pairs, plans) && i < |pairs| && j < |pairs| && Holds(pairs[i], p) && Holds(pairs[j], p)
    ensures i == j
  {
    HeldRecord(pairs[i], plans, p);
    HeldRecord(pairs[j], plans, p);
  }

  lemma {:induction false} OnceEach(xs: seq<string>, x: string)
    requires forall i, j :: 0 <= i < j < |xs| ==> xs[i] != xs[j]
    ensures multiset(xs)[x] <= 1
  {
    if xs != [] {
      OnceEach(xs[1..], x);
      assert xs == [xs[0]] + xs[1..];
      assert xs[0] !in xs[1..];
    }
  }

  lemma DistinctPermuted(xs: seq<string>, ys: seq<string>)
    requires multiset(xs) == multiset(ys) && forall i, j :: 0 <= i < j < |xs| ==> xs[i] != xs[j]
    ensures forall i, j :: 0 <= i < j < |ys| ==> ys[i] != ys[j]
  {
    forall i, j | 0 <= i < j < |ys| ensures ys[i] != ys[j] {
      OnceEach(xs, ys[i]);
      if ys[i] == ys[j] { RepeatedMember(ys, i, j); }
    }
  }
}
