/**
 Which migrated objects the database refers to, and how a manifest swap changes that
 (apps/api/maintenance/legacy/direct-provider.ts, apps/api/maintenance/legacy/reference-inventory.ts).
 */
module LegacyReferences {
  import opened Outcomes
  import opened Sorting
  import opened Text
  import opened LegacyPlans
  import opened LegacyPairs
  import opened LegacySwap
  import opened LegacySwapLaws

  /** A place in the database that can hold a reference. */
  datatype Slot = RowSlot(key: RowKey) | OriginalSlot(id: string) | TrashSlot(id: string)

  function SlotOf(p: Plan): Slot {
    if p.model != StorageTombstone then RowSlot(Key(p))
    else if p.field == OriginalKey then OriginalSlot(Lower(p.recordId)) else TrashSlot(Lower(p.recordId))
  }

  function MigratedKey(key: string): Option<string> { if "legacy/" <= key then Some(key) else None }

  function MigratedValue(value: Option<string>): Option<string> {
    if value.Some? && "supabase:" <= value.value then MigratedKey(value.value[9..]) else None
  }

  /** The migrated object a slot refers to, if it refers to one. */
  function Held(rows: Rows, slot: Slot): Option<string> {
    match slot
    case RowSlot(k) => if k in rows.ordinary then MigratedValue(rows.ordinary[k].value) else None
    case OriginalSlot(id) =>
      if id in rows.tombstones && rows.tombstones[id].provider == "supabase" then
        MigratedKey(rows.tombstones[id].originalKey)
      else None
    case TrashSlot(id) =>
      if id in rows.tombstones && rows.tombstones[id].provider == "supabase" then
        MigratedKey(rows.tombstones[id].trashKey)
      else None
  }

  lemma TargetIsMigrated(p: Plan)
    requires WellFormed(p)
    ensures MigratedKey(p.targetKey) == Some(p.targetKey)
    ensures p.model != StorageTombstone ==> MigratedValue(Some(p.targetReference)) == Some(p.targetKey)
    ensures p.model != StorageTombstone ==> MigratedValue(Some(p.oldValue)) == None
  {
    assert p.targetKey[..7] == "legacy/";
    if p.model != StorageTombstone {
      assert p.targetReference[..9] == "supabase:" && p.targetReference[9..] == p.targetKey;
    }
  }

  predicate PlansWellFormed(plans: seq<Plan>) { forall i :: 0 <= i < |plans| ==> WellFormed(plans[i]) }

  predicate Introduces(plans: seq<Plan>, slot: Slot, key: string) {
    exists p :: p in plans && SlotOf(p) == slot && p.targetKey == key
  }

  lemma MovedRowHolds(p: Plan, row: OrdinaryRow, desired: bool)
    requires WellFormed(p) && p.model != StorageTombstone
    ensures MigratedValue(OrdinaryTo(p, row, desired).value) == if desired then Some(p.targetKey) else None
  {
    TargetIsMigrated(p);
  }

  lemma MovedPairHolds(pair: Pair, row: TombstoneRow, desired: bool, plans: seq<Plan>)
    requires WellFormed(pair.original) && WellFormed(pair.trash) && WellPaired(pair, plans)
    ensures var moved := PairTo(pair, row, desired);
      if desired then
        && moved.provider == "supabase" && MigratedKey(moved.originalKey) == Some(pair.original.targetKey)
        && MigratedKey(moved.trashKey) == Some(pair.trash.targetKey)
      else moved.provider == "local"
  {
    TargetIsMigrated(pair.original);
    TargetIsMigrated(pair.trash);
  }

  lemma RowSwapEffect(os: seq<Plan>, a: OrdinaryRows, b: OrdinaryRows, desired: bool, k: RowKey)
    requires OrdinaryMoved(a, b, os, desired) && k in a
    requires forall i :: 0 <= i < |os| ==> WellFormed(os[i]) && os[i].model != StorageTombstone
    ensures MigratedValue(b[k].value).Some? ==>
      || MigratedValue(b[k].value) == MigratedValue(a[k].value)
      || (desired && Introduces(os, RowSlot(k), MigratedValue(b[k].value).value))
  {
    if !UntouchedRow(os, k) {
      var i :| 0 <= i < |os| && Key(os[i]) == k;
      MovedRowHolds(os[i], a[k], desired);
      assert os[i] in os && SlotOf(os[i]) == RowSlot(k);
    }
  }

  lemma PairSwapEffect(
      plans: seq<Plan>, pairs: seq<Pair>, a: TombstoneRows, b: TombstoneRows, desired: bool, id: string)
    requires TombstonesMoved(a, b, pairs, desired) && id in a
    requires forall i :: 0 <= i < |pairs| ==>
      WellPaired(pairs[i], plans) && WellFormed(pairs[i].original) && WellFormed(pairs[i].trash)
    ensures
      || b[id] == a[id]
      || (!desired && b[id].provider != "supabase")
      || (&& desired
          && MigratedKey(b[id].originalKey).Some?
          && Introduces(plans, OriginalSlot(id), MigratedKey(b[id].originalKey).value)
          && MigratedKey(b[id].trashKey).Some? && Introduces(plans, TrashSlot(id), MigratedKey(b[id].trashKey).value))
  {
    if !UntouchedTombstone(pairs, id) {
      var i :| 0 <= i < |pairs| && PairKey(pairs[i]) == id;
      MovedPairHolds(pairs[i], a[id], desired, plans);
      assert SlotOf(pairs[i].original) == OriginalSlot(id) && SlotOf(pairs[i].trash) == TrashSlot(id);
    }
  }

  lemma ManifestPieces(le: Collation, plans: seq<Plan>)
    requires TotalOrder(le) && PlansWellFormed(plans) && PairTombstones(le, plans).Success?
    ensures var os := Ordinary(plans);
      forall i :: 0 <= i < |os| ==> WellFormed(os[i]) && os[i].model != StorageTombstone && os[i] in plans
    ensures var pairs := PairTombstones(le, plans).value;
      forall i :: 0 <= i < |pairs| ==>
        WellPaired(pairs[i], plans) && WellFormed(pairs[i].original) && WellFormed(pairs[i].trash)
  {
    PairingPartitions(le, plans);
    var os := Ordinary(plans);
    assert forall i :: 0 <= i < |os| ==> os[i] in os;
  }

  /** A slot holds a migrated reference after a swap only if it did before or the forward swap put it there. */
  lemma SwapEffect(le: Collation, plans: seq<Plan>, back: bool, a: Rows, r: Result<string>, b: Rows, slot: Slot)
    requires TotalOrder(le) && PlansWellFormed(plans) && CasStep(le, plans, back, a, r, b) && Held(b, slot).Some?
    ensures Held(b, slot) == Held(a, slot) ||
      (!back && r == Success("UPDATED") && Introduces(plans, slot, Held(b, slot).value))
  {
    if r == Success("UPDATED") {
      ManifestPieces(le, plans);
      var os, pairs := Ordinary(plans), PairTombstones(le, plans).value;
      match slot
      case RowSlot(k) =>
        RowSwapEffect(os, a.ordinary, b.ordinary, !back, k);
      case OriginalSlot(id) =>
        PairSwapEffect(plans, pairs, a.tombstones, b.tombstones, !back, id);
      case TrashSlot(id) =>
        PairSwapEffect(plans, pairs, a.tombstones, b.tombstones, !back, id);
    }
  }

  /** On the desired side every plan's slot refers to the plan's own object; on the original side to none. */
  lemma SideHolds(le: Collation, plans: seq<Plan>, rows: Rows, desired: bool, p: Plan)
    requires TotalOrder(le) && PlansWellFormed(plans) && ManifestAt(le, plans, rows, desired) && p in plans
    ensures Held(rows, SlotOf(p)) == if desired then Some(p.targetKey) else None
  {
    if p.model != StorageTombstone {
      var os := Ordinary(plans);
      var i :| 0 <= i < |os| && os[i] == p;
      RowSideHolds(p, rows, desired);
    } else {
      TombstoneSideHolds(le, plans, rows, desired, p);
    }
  }

  lemma TombstoneSideHolds(le: Collation, plans: seq<Plan>, rows: Rows, desired: bool, p: Plan)
    requires TotalOrder(le) && PlansWellFormed(plans) && ManifestAt(le, plans, rows, desired)
    requires p in plans && p.model == StorageTombstone
    ensures Held(rows, SlotOf(p)) == if desired then Some(p.targetKey) else None
  {
    ManifestPieces(le, plans);
    PairingPartitions(le, plans);
    var pairs := PairTombstones(le, plans).value;
    assert Covered(pairs, p);
    var i :| 0 <= i < |pairs| && Holds(pairs[i], p);
    PairSideHolds(plans, pairs[i], rows, desired, p);
  }

  lemma RowSideHolds(p: Plan, rows: Rows, desired: bool)
    requires WellFormed(p) && p.model != StorageTombstone && Key(p) in rows.ordinary
    requires OrdinaryAt(p, rows.ordinary[Key(p)], desired)
    ensures Held(rows, SlotOf(p)) == if desired then Some(p.targetKey) else None
  {
    TargetIsMigrated(p);
  }

  lemma PairSideHolds(plans: seq<Plan>, pair: Pair, rows: Rows, desired: bool, p: Plan)
    requires WellPaired(pair, plans) && WellFormed(pair.original) && WellFormed(pair.trash) && Holds(pair, p)
    requires PairKey(pair) in rows.tombstones && PairIsAt(pair, rows.tombstones[PairKey(pair)], desired)
    ensures Held(rows, SlotOf(p)) == if desired then Some(p.targetKey) else None
  {
    MovedPairHolds(pair, rows.tombstones[PairKey(pair)], desired, plans);
  }

  /** Plans made from inventoried references always change their row. */
  lemma WellFormedIsProper(plans: seq<Plan>)
    requires PlansWellFormed(plans)
    ensures ProperPlans(plans)
  {
    forall i | 0 <= i < |plans| ensures Proper(plans[i]) {
      if plans[i].model != StorageTombstone { assert plans[i].targetReference[..9] == "supabase:"; }
    }
  }
}
