/**
 The all-or-nothing reference swap of a migration manifest
 (apps/api/maintenance/legacy/direct-provider.ts).

 A transaction runs alone: either all its updates are kept or the rows are as before. Identifier columns
 are UUIDs, so rows are found whatever the letter case of a plan's identifier, and the tombstone table has a
 unique index on provider and trash key. `rest` stands for the columns no statement of the swap names.
 */
module LegacySwap {
  import opened Outcomes
  import opened Sorting
  import opened Text
  import opened Traversal
  import opened LegacyPlans
  import opened LegacyPairs

  type RowKey = (Model, string)

  datatype OrdinaryRow = OrdinaryRow(value: Option<string>, status: string, rest: string)

  datatype TombstoneRow =
    TombstoneRow(originalKey: string, trashKey: string, provider: string, status: string, rest: string)

  type OrdinaryRows = map<RowKey, OrdinaryRow>

  type TombstoneRows = map<string, TombstoneRow>

  datatype Rows = Rows(ordinary: OrdinaryRows, tombstones: TombstoneRows)

  function Key(p: Plan): RowKey { (p.model, Lower(p.recordId)) }

  function PairKey(pair: Pair): string { Lower(pair.original.recordId) }

  predicate FieldAllowed(p: Plan) {
    match p.model
    case ReportExport => p.field == FilePath
    case StorageTombstone => p.field == OriginalKey || p.field == TrashKey
    case _ => p.field == StoredFilePath
  }

  // ---- The two sides of a swap ----------------------------------------------------------------

  function ValueAt(p: Plan, desired: bool): string { if desired then p.targetReference else p.oldValue }

  function ProviderAt(pair: Pair, desired: bool): string {
    if desired then "supabase" else if pair.original.oldProvider.Some? then pair.original.oldProvider.value else ""
  }

  predicate OrdinaryAt(p: Plan, row: OrdinaryRow, desired: bool) {
    row.value == Some(ValueAt(p, desired)) && row.status == p.oldStatus
  }

  predicate PairIsAt(pair: Pair, row: TombstoneRow, desired: bool) {
    && row.originalKey == ValueAt(pair.original, desired) && row.trashKey == ValueAt(pair.trash, desired)
    && row.provider == ProviderAt(pair, desired) && row.status == pair.original.oldStatus
  }

  function OrdinaryTo(p: Plan, row: OrdinaryRow, desired: bool): OrdinaryRow {
    row.(value := Some(ValueAt(p, desired)))
  }

  function PairTo(pair: Pair, row: TombstoneRow, desired: bool): TombstoneRow {
    row.(originalKey := ValueAt(pair.original, desired), trashKey := ValueAt(pair.trash, desired),
         provider := ProviderAt(pair, desired), status := pair.original.oldStatus)
  }

  /** The columns of the unique index. */
  function TrashIndex(row: TombstoneRow): (string, string) { (row.provider, row.trashKey) }

  predicate UniqueTrash(rows: TombstoneRows) {
    forall x, y :: x in rows && y in rows && x != y ==> TrashIndex(rows[x]) != TrashIndex(rows[y])
  }

  // ---- Reading a manifest ---------------------------------------------------------------------

  function Ordinary(plans: seq<Plan>): (os: seq<Plan>)
    ensures forall p :: p in os <==> p in plans && p.model != StorageTombstone
  {
    if plans == [] then []
    else (if plans[0].model != StorageTombstone then [plans[0]] else []) + Ordinary(plans[1..])
  }

  function ReadOrdinary(rows: OrdinaryRows): Plan -> Result<OrdinaryRow> {
    (p: Plan) =>
      if !FieldAllowed(p) then Failure("LEGACY_REFERENCE_MODEL_FIELD_NOT_ALLOWED")
      else if Key(p) !in rows then Failure("LEGACY_REFERENCE_ROW_MISSING")
      else Success(rows[Key(p)])
  }

  function ReadPair(rows: TombstoneRows): Pair -> Result<TombstoneRow> {
    (pair: Pair) =>
      if PairKey(pair) !in rows then Failure("LEGACY_REFERENCE_ROW_MISSING")
      else Success(rows[PairKey(pair)])
  }

  datatype Snapshot = Snapshot(ordinary: seq<OrdinaryRow>, tombstones: seq<TombstoneRow>)

  function ReadManifest(rows: Rows, os: seq<Plan>, pairs: seq<Pair>): (r: Result<Snapshot>)
    ensures r.Success? ==> |r.value.ordinary| == |os| && |r.value.tombstones| == |pairs|
  {
    var ordinary := Traverse(ReadOrdinary(rows.ordinary), os);
    if ordinary.Failure? then Failure(ordinary.code)
    else
      var tombstones := Traverse(ReadPair(rows.tombstones), pairs);
      if tombstones.Failure? then Failure(tombstones.code)
      else Success(Snapshot(ordinary.value, tombstones.value))
  }

  predicate SnapshotMatches(os: seq<Plan>, pairs: seq<Pair>, s: Snapshot, desired: bool)
    requires |s.ordinary| == |os| && |s.tombstones| == |pairs|
  {
    && (forall i :: 0 <= i < |os| ==> OrdinaryAt(os[i], s.ordinary[i], desired))
    && (forall i :: 0 <= i < |pairs| ==> PairIsAt(pairs[i], s.tombstones[i], desired))
  }

  function Identity(p: Plan): (Model, string, Field) { (p.model, p.recordId, p.field) }

  predicate IdentitiesDistinct(plans: seq<Plan>) {
    forall i, j :: 0 <= i < j < |plans| ==> Identity(plans[i]) != Identity(plans[j])
  }

  // ---- The updates ----------------------------------------------------------------------------

  function UpdateOne(rows: OrdinaryRows, p: Plan, back: bool): Result<OrdinaryRows> {
    if !FieldAllowed(p) then Failure("LEGACY_REFERENCE_MODEL_FIELD_NOT_ALLOWED")
    else if p.model == StorageTombstone then Failure("LEGACY_TOMBSTONE_PAIR_REQUIRED")
    else if Key(p) !in rows || !OrdinaryAt(p, rows[Key(p)], back) then Failure("LEGACY_MIGRATION_CAS_MISS")
    else Success(rows[Key(p) := OrdinaryTo(p, rows[Key(p)], !back)])
  }

  /** Another row than the given one already has these index columns. */
  predicate Taken(rows: TombstoneRows, id: string, row: TombstoneRow) {
    exists other :: other in rows && other != id && TrashIndex(rows[other]) == TrashIndex(row)
  }

  function UpdatePair(rows: TombstoneRows, pair: Pair, back: bool): Result<TombstoneRows> {
    var id := PairKey(pair);
    if id !in rows || !PairIsAt(pair, rows[id], back) then Failure("LEGACY_MIGRATION_CAS_MISS")
    else if Taken(rows, id, PairTo(pair, rows[id], !back)) then Failure("UNIQUE_CONSTRAINT")
    else Success(rows[id := PairTo(pair, rows[id], !back)])
  }

  /** All updates in manifest order, up to the first that fails. */
  function UpdateAll(rows: OrdinaryRows, os: seq<Plan>, back: bool): Result<OrdinaryRows> {
    if os == [] then Success(rows)
    else
      var earlier := UpdateAll(rows, os[..|os| - 1], back);
      if earlier.Failure? then earlier else UpdateOne(earlier.value, os[|os| - 1], back)
  }

  function UpdateAllPairs(rows: TombstoneRows, pairs: seq<Pair>, back: bool): Result<TombstoneRows> {
    if pairs == [] then Success(rows)
    else
      var earlier := UpdateAllPairs(rows, pairs[..|pairs| - 1], back);
      if earlier.Failure? then earlier else UpdatePair(earlier.value, pairs[|pairs| - 1], back)
  }

  // ---- What a swap returns and leaves ---------------------------------------------------------

  /** The part of the transaction that writes, with its closing check. */
  function SwapResult(rows: Rows, os: seq<Plan>, pairs: seq<Pair>, back: bool): Result<string> {
    var ordinary := UpdateAll(rows.ordinary, os, back);
    if ordinary.Failure? then Failure(ordinary.code)
    else
      var tombstones := UpdateAllPairs(rows.tombstones, pairs, back);
      if tombstones.Failure? then Failure(tombstones.code)
      else
        var after := ReadManifest(Rows(ordinary.value, tombstones.value), os, pairs);
        if after.Failure? then Failure(after.code)
        else if !SnapshotMatches(os, pairs, after.value, !back) then Failure("LEGACY_MANIFEST_DB_VERIFY_FAILED")
        else Success("UPDATED")
  }

  function TransactionResult(rows: Rows, os: seq<Plan>, pairs: seq<Pair>, back: bool): Result<string> {
    var before := ReadManifest(rows, os, pairs);
    if before.Failure? then Failure(before.code)
    else if SnapshotMatches(os, pairs, before.value, !back) then
      Success(if back then "ALREADY_ORIGINAL" else "ALREADY_DESIRED")
    else if !SnapshotMatches(os, pairs, before.value, back) then Failure("LEGACY_MANIFEST_DB_MIXED_STATE")
    else SwapResult(rows, os, pairs, back)
  }

  function CasResult(le: Collation, plans: seq<Plan>, back: bool, rows: Rows): Result<string> {
    if plans == [] then Failure("LEGACY_MIGRATION_PLANS_REQUIRED")
    else if !IdentitiesDistinct(plans) then Failure("LEGACY_MIGRATION_PLAN_DUPLICATE")
    else
      var pairs := PairTombstones(le, plans);
      if pairs.Failure? then Failure(pairs.code)
      else TransactionResult(rows, Ordinary(plans), pairs.value, back)
  }

  predicate UntouchedRow(os: seq<Plan>, k: RowKey) { forall i :: 0 <= i < |os| ==> Key(os[i]) != k }

  predicate UntouchedTombstone(pairs: seq<Pair>, id: string) {
    forall i :: 0 <= i < |pairs| ==> PairKey(pairs[i]) != id
  }

  predicate OrdinaryMoved(a: OrdinaryRows, b: OrdinaryRows, os: seq<Plan>, desired: bool) {
    && b.Keys == a.Keys
    && (forall i :: 0 <= i < |os| ==> Key(os[i]) in a && b[Key(os[i])] == OrdinaryTo(os[i], a[Key(os[i])], desired))
    && (forall k :: k in a && UntouchedRow(os, k) ==> b[k] == a[k])
  }

  predicate TombstonesMoved(a: TombstoneRows, b: TombstoneRows, pairs: seq<Pair>, desired: bool) {
    && b.Keys == a.Keys
    && (forall i :: 0 <= i < |pairs| ==>
          && PairKey(pairs[i]) in a
          && b[PairKey(pairs[i])] == PairTo(pairs[i], a[PairKey(pairs[i])], desired))
    && (forall id :: id in a && UntouchedTombstone(pairs, id) ==> b[id] == a[id])
  }

  /** Exactly the manifest's rows change, exactly in the planned fields. */
  predicate Moved(a: Rows, b: Rows, os: seq<Plan>, pairs: seq<Pair>, desired: bool) {
    OrdinaryMoved(a.ordinary, b.ordinary, os, desired) && TombstonesMoved(a.tombstones, b.tombstones, pairs, desired)
  }

  /** One whole swap, seen from outside its transaction. */
  predicate CasStep(le: Collation, plans: seq<Plan>, back: bool, a: Rows, r: Result<string>, b: Rows) {
    && r == CasResult(le, plans, back, a)
    && (if r == Success("UPDATED") then
          PairTombstones(le, plans).Success? && Moved(a, b, Ordinary(plans), PairTombstones(le, plans).value, !back)
        else b == a)
  }

  // ---- Facts about readings -------------------------------------------------------------------

  predicate ReadableOrdinary(rows: OrdinaryRows, os: seq<Plan>) {
    forall i :: 0 <= i < |os| ==> FieldAllowed(os[i]) && Key(os[i]) in rows
  }

  predicate ReadablePairs(rows: TombstoneRows, pairs: seq<Pair>) {
    forall i :: 0 <= i < |pairs| ==> PairKey(pairs[i]) in rows
  }

  predicate Readable(rows: Rows, os: seq<Plan>, pairs: seq<Pair>) {
    ReadableOrdinary(rows.ordinary, os) && ReadablePairs(rows.tombstones, pairs)
  }

  /** Every reference of the manifest is on the given side. */
  predicate AllAt(rows: Rows, os: seq<Plan>, pairs: seq<Pair>, desired: bool)
    requires Readable(rows, os, pairs)
  {
    && (forall i :: 0 <= i < |os| ==> OrdinaryAt(os[i], rows.ordinary[Key(os[i])], desired))
    && (forall i :: 0 <= i < |pairs| ==> PairIsAt(pairs[i], rows.tombstones[PairKey(pairs[i])], desired))
  }

  lemma ReadOrdinarySpec(rows: OrdinaryRows, os: seq<Plan>)
    ensures Traverse(ReadOrdinary(rows), os).Success? <==> ReadableOrdinary(rows, os)
    ensures Traverse(ReadOrdinary(rows), os).Success? ==>
      forall i :: 0 <= i < |os| ==> Traverse(ReadOrdinary(rows), os).value[i] == rows[Key(os[i])]
  {
    TraverseSpec(ReadOrdinary(rows), os);
  }

  lemma ReadPairSpec(rows: TombstoneRows, pairs: seq<Pair>)
    ensures Traverse(ReadPair(rows), pairs).Success? <==> ReadablePairs(rows, pairs)
    ensures Traverse(ReadPair(rows), pairs).Success? ==>
      forall i :: 0 <= i < |pairs| ==> Traverse(ReadPair(rows), pairs).value[i] == rows[PairKey(pairs[i])]
  {
    TraverseSpec(ReadPair(rows), pairs);
  }

  /** A snapshot succeeds exactly when all rows are there, and matches exactly when all rows do. */
  lemma SnapshotSpec(rows: Rows, os: seq<Plan>, pairs: seq<Pair>)
    ensures ReadManifest(rows, os, pairs).Success? <==> Readable(rows, os, pairs)
    ensures Readable(rows, os, pairs) ==> forall desired ::
      SnapshotMatches(os, pairs, ReadManifest(rows, os, pairs).value, desired) <==> AllAt(rows, os, pairs, desired)
  {
    ReadOrdinarySpec(rows.ordinary, os);
    ReadPairSpec(rows.tombstones, pairs);
  }

  // ---- The transaction ------------------------------------------------------------------------

  lemma {:induction false} UpdateFailureStays(rows: OrdinaryRows, os: seq<Plan>, n: nat, back: bool)
    requires n <= |os| && UpdateAll(rows, os[..n], back).Failure?
    ensures UpdateAll(rows, os, back) == UpdateAll(rows, os[..n], back)
  {
    if n < |os| {
      assert os[..|os| - 1][..n] == os[..n];
      UpdateFailureStays(rows, os[..|os| - 1], n, back);
    } else {
      assert os[..n] == os;
    }
  }

  lemma {:induction false} PairFailureStays(rows: TombstoneRows, pairs: seq<Pair>, n: nat, back: bool)
    requires n <= |pairs| && UpdateAllPairs(rows, pairs[..n], back).Failure?
    ensures UpdateAllPairs(rows, pairs, back) == UpdateAllPairs(rows, pairs[..n], back)
  {
    if n < |pairs| {
      assert pairs[..|pairs| - 1][..n] == pairs[..n];
      PairFailureStays(rows, pairs[..|pairs| - 1], n, back);
    } else {
      assert pairs[..n] == pairs;
    }
  }

  /** Updates change values of the manifest's rows and nothing else. */
  lemma {:induction false} UpdatesFrame(a: OrdinaryRows, os: seq<Plan>, back: bool)
    requires UpdateAll(a, os, back).Success?
    ensures var b := UpdateAll(a, os, back).value;
      && b.Keys == a.Keys && (forall k :: k in a ==> b[k] == a[k].(value := b[k].value))
      && forall k :: k in a && UntouchedRow(os, k) ==> b[k] == a[k]
  {
    if os != [] {
      var earlier := os[..|os| - 1];
      UpdatesFrame(a, earlier, back);
      forall k | k in a && UntouchedRow(os, k) ensures UntouchedRow(earlier, k) && Key(os[|os| - 1]) != k {
        assert forall i :: 0 <= i < |earlier| ==> earlier[i] == os[i];
      }
    }
  }

  lemma {:induction false} PairUpdatesFrame(a: TombstoneRows, pairs: seq<Pair>, back: bool)
    requires UpdateAllPairs(a, pairs, back).Success?
    ensures var b := UpdateAllPairs(a, pairs, back).value;
      && b.Keys == a.Keys && (forall id :: id in a ==> b[id].rest == a[id].rest)
      && forall id :: id in a && UntouchedTombstone(pairs, id) ==> b[id] == a[id]
  {
    if pairs != [] {
      var earlier := pairs[..|pairs| - 1];
      PairUpdatesFrame(a, earlier, back);
      forall id | id in a && UntouchedTombstone(pairs, id)
        ensures UntouchedTombstone(earlier, id) && PairKey(pairs[|pairs| - 1]) != id
      {
        assert forall i :: 0 <= i < |earlier| ==> earlier[i] == pairs[i];
      }
    }
  }

  /** With the closing check passed, the updates have moved exactly the manifest. */
  lemma UpdatedIsMoved(a: Rows, b: Rows, os: seq<Plan>, pairs: seq<Pair>, back: bool)
    requires Readable(a, os, pairs) && Readable(b, os, pairs) && AllAt(b, os, pairs, !back)
    requires UpdateAll(a.ordinary, os, back) == Success(b.ordinary)
    requires UpdateAllPairs(a.tombstones, pairs, back) == Success(b.tombstones)
    ensures Moved(a, b, os, pairs, !back)
  {
    UpdatesFrame(a.ordinary, os, back);
    PairUpdatesFrame(a.tombstones, pairs, back);
  }

  class Database {
    var ordinary: OrdinaryRows
    var tombstones: TombstoneRows

    constructor (rows: Rows)
      ensures View() == rows
    {
      ordinary, tombstones := rows.ordinary, rows.tombstones;
    }

    function View(): Rows
      reads this
    {
      Rows(ordinary, tombstones)
    }

    /** Guarded single-row update: true when exactly one row matched. */
    method UpdateRegularReference(p: Plan, back: bool) returns (r: Result<bool>)
      modifies this`ordinary
      ensures r.Failure? <==> !FieldAllowed(p) || p.model == StorageTombstone
      ensures r == Success(true) <==>
        && FieldAllowed(p) && p.model != StorageTombstone
        && Key(p) in old(ordinary) && OrdinaryAt(p, old(ordinary)[Key(p)], back)
      ensures r.Failure? ==> UpdateOne(old(ordinary), p, back) == Failure(r.code)
      ensures ordinary ==
        if r == Success(true) then old(ordinary)[Key(p) := OrdinaryTo(p, old(ordinary)[Key(p)], !back)]
        else old(ordinary)
    {
      if !FieldAllowed(p) { return Failure("LEGACY_REFERENCE_MODEL_FIELD_NOT_ALLOWED"); }
      if p.model == StorageTombstone { return Failure("LEGACY_TOMBSTONE_PAIR_REQUIRED"); }
      var expected, next := ValueAt(p, back), ValueAt(p, !back);
      var k := Key(p);
      if k !in ordinary || ordinary[k].value != Some(expected) || ordinary[k].status != p.oldStatus {
        return Success(false);
      }
      ordinary := ordinary[k := ordinary[k].(value := Some(next))];
      r := Success(true);
    }

    /** Guarded update of a whole pair, which the unique index may refuse. */
    method UpdateTombstonePair(pair: Pair, back: bool) returns (r: Result<bool>)
      modifies this`tombstones
      ensures
        var id := PairKey(pair);
        var matches := id in old(tombstones) && PairIsAt(pair, old(tombstones)[id], back);
        var taken := matches && Taken(old(tombstones), id, PairTo(pair, old(tombstones)[id], !back));
        && (r.Failure? <==> taken) && (r == Success(true) <==> matches && !taken)
        && (r.Failure? ==> r.code == "UNIQUE_CONSTRAINT")
        && tombstones ==
             if r == Success(true) then old(tombstones)[id := PairTo(pair, old(tombstones)[id], !back)]
             else old(tombstones)
    {
      var id := PairKey(pair);
      if id !in tombstones || !PairIsAt(pair, tombstones[id], back) { return Success(false); }
      var next := PairTo(pair, tombstones[id], !back);
      if Taken(tombstones, id, next) { return Failure("UNIQUE_CONSTRAINT"); }
      tombstones := tombstones[id := next];
      r := Success(true);
    }

    method ReadManifestSnapshot(os: seq<Plan>, pairs: seq<Pair>) returns (r: Result<Snapshot>)
      ensures r == ReadManifest(View(), os, pairs)
    {
      var ordinaryRows := Collect(ReadOrdinary(ordinary), os);
      if ordinaryRows.Failure? { return Failure(ordinaryRows.code); }
      var tombstoneRows := Collect(ReadPair(tombstones), pairs);
      if tombstoneRows.Failure? { return Failure(tombstoneRows.code); }
      r := Success(Snapshot(ordinaryRows.value, tombstoneRows.value));
    }

    method UpdateOrdinary(os: seq<Plan>, back: bool) returns (failed: Option<string>)
      modifies this`ordinary
      ensures failed.None? ==> UpdateAll(old(ordinary), os, back) == Success(ordinary)
      ensures failed.Some? ==> UpdateAll(old(ordinary), os, back) == Failure(failed.value)
    {
      for n := 0 to |os|
        invariant UpdateAll(old(ordinary), os[..n], back) == Success(ordinary)
      {
        assert os[..n + 1][..n] == os[..n];
        ghost var before := ordinary;
        var updated := UpdateRegularReference(os[n], back);
        if updated != Success(true) {
          failed := Some(if updated.Failure? then updated.code else "LEGACY_MIGRATION_CAS_MISS");
          assert UpdateAll(old(ordinary), os[..n + 1], back) == UpdateOne(before, os[n], back);
          UpdateFailureStays(old(ordinary), os, n + 1, back);
          return;
        }
      }
      assert os[..|os|] == os;
      failed := None;
    }

    method UpdatePairs(pairs: seq<Pair>, back: bool) returns (failed: Option<string>)
      modifies this`tombstones
      ensures failed.None? ==> UpdateAllPairs(old(tombstones), pairs, back) == Success(tombstones)
      ensures failed.Some? ==> UpdateAllPairs(old(tombstones), pairs, back) == Failure(failed.value)
    {
      for n := 0 to |pairs|
        invariant UpdateAllPairs(old(tombstones), pairs[..n], back) == Success(tombstones)
      {
        assert pairs[..n + 1][..n] == pairs[..n];
        ghost var before := tombstones;
        var updated := UpdateTombstonePair(pairs[n], back);
        if updated != Success(true) {
          failed := Some(if updated.Failure? then updated.code else "LEGACY_MIGRATION_CAS_MISS");
          assert UpdateAllPairs(old(tombstones), pairs[..n + 1], back) == UpdatePair(before, pairs[n], back);
          PairFailureStays(old(tombstones), pairs, n + 1, back);
          return;
        }
      }
      assert pairs[..|pairs|] == pairs;
      failed := None;
    }

    /** The part that writes: update, read again, check. */
    method Swap(os: seq<Plan>, pairs: seq<Pair>, back: bool) returns (r: Result<string>)
      requires Readable(View(), os, pairs)
      modifies this
      ensures r == SwapResult(old(View()), os, pairs, back)
      ensures r == Success("UPDATED") ==> Moved(old(View()), View(), os, pairs, !back)
      ensures r.Success? ==> r == Success("UPDATED")
    {
      var failed := UpdateOrdinary(os, back);
      if failed.Some? { return Failure(failed.value); }
      failed := UpdatePairs(pairs, back);
      if failed.Some? { return Failure(failed.value); }
      var verified := ReadManifestSnapshot(os, pairs);
      if verified.Failure? { return Failure(verified.code); }
      if !SnapshotMatches(os, pairs, verified.value, !back) { return Failure("LEGACY_MANIFEST_DB_VERIFY_FAILED"); }
      SnapshotSpec(View(), os, pairs);
      UpdatedIsMoved(old(View()), View(), os, pairs, back);
      r := Success("UPDATED");
    }

    /** The body of the transaction; a failure leaves half-done work for the caller to undo. */
    method Transact(os: seq<Plan>, pairs: seq<Pair>, back: bool) returns (r: Result<string>)
      modifies this
      ensures r == TransactionResult(old(View()), os, pairs, back)
      ensures r == Success("UPDATED") ==> Moved(old(View()), View(), os, pairs, !back)
      ensures r.Success? && r != Success("UPDATED") ==> View() == old(View())
    {
      var before := ReadManifestSnapshot(os, pairs);
      if before.Failure? { return Failure(before.code); }
      SnapshotSpec(View(), os, pairs);
      var allDesired := SnapshotMatches(os, pairs, before.value, true);
      var allOriginal := SnapshotMatches(os, pairs, before.value, false);
      if back {
        if allOriginal { return Success("ALREADY_ORIGINAL"); }
        if !allDesired { return Failure("LEGACY_MANIFEST_DB_MIXED_STATE"); }
      } else {
        if allDesired { return Success("ALREADY_DESIRED"); }
        if !allOriginal { return Failure("LEGACY_MANIFEST_DB_MIXED_STATE"); }
      }
      r := Swap(os, pairs, back);
    }

    method CasManifest(le: Collation, plans: seq<Plan>, back: bool) returns (r: Result<string>)
      requires TotalOrder(le)
      modifies this
      ensures CasStep(le, plans, back, old(View()), r, View())
    {
      if |plans| < 1 { return Failure("LEGACY_MIGRATION_PLANS_REQUIRED"); }
      if !IdentitiesDistinct(plans) { return Failure("LEGACY_MIGRATION_PLAN_DUPLICATE"); }
      var pairs := PairLegacyTombstonePlans(le, plans);
      if pairs.Failure? { return Failure(pairs.code); }
      var savedOrdinary, savedTombstones := ordinary, tombstones;
      r := Transact(Ordinary(plans), pairs.value, back);
      if r.Failure? { ordinary, tombstones := savedOrdinary, savedTombstones; }
    }
  }
}
