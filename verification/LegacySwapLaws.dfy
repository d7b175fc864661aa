/**
 What a manifest swap guarantees: all or nothing, there and back, and exactly when it goes through
 (apps/api/maintenance/legacy/direct-provider.ts).
 */
module LegacySwapLaws {
  import opened Outcomes
  import opened Sorting
  import opened Text
  import opened Traversal
  import opened LegacyPlans
  import opened LegacyPairs
  import opened LegacySwap

  // ---- What stands in the way of the updates --------------------------------------------------

  predicate RowKeysDistinct(os: seq<Plan>) { forall i, j :: 0 <= i < j < |os| ==> Key(os[i]) != Key(os[j]) }

  predicate PairKeysDistinct(pairs: seq<Pair>) {
    forall i, j :: 0 <= i < j < |pairs| ==> PairKey(pairs[i]) != PairKey(pairs[j])
  }

  /** The index columns a pair's row is to have. */
  function IndexAt(pair: Pair, desired: bool): (string, string) {
    (ProviderAt(pair, desired), ValueAt(pair.trash, desired))
  }

  predicate TakenOutside(rows: TombstoneRows, pairs: seq<Pair>, desired: bool, i: nat)
    requires i < |pairs|
  {
    exists id :: id in rows && UntouchedTombstone(pairs, id) && TrashIndex(rows[id]) == IndexAt(pairs[i], desired)
  }

  predicate TakenInside(pairs: seq<Pair>, desired: bool, i: nat)
    requires i < |pairs|
  {
    exists j :: 0 <= j < i && IndexAt(pairs[j], desired) == IndexAt(pairs[i], desired)
  }

  predicate ClashAt(rows: TombstoneRows, pairs: seq<Pair>, desired: bool, i: nat)
    requires i < |pairs|
  {
    TakenOutside(rows, pairs, desired, i) || TakenInside(pairs, desired, i)
  }

  predicate NoClash(rows: TombstoneRows, pairs: seq<Pair>, desired: bool, n: nat)
    requires n <= |pairs|
  {
    forall i :: 0 <= i < n ==> !ClashAt(rows, pairs, desired, i)
  }

  /** A plan that changes its row: the two sides of the swap differ. */
  predicate Proper(p: Plan) {
    if p.model == StorageTombstone then p.oldProvider != Some("supabase") else p.oldValue != p.targetReference
  }

  predicate ProperPlans(plans: seq<Plan>) { forall i :: 0 <= i < |plans| ==> Proper(plans[i]) }

  predicate ProperPairs(pairs: seq<Pair>) {
    forall i :: 0 <= i < |pairs| ==> ProviderAt(pairs[i], false) != "supabase"
  }

  /** No two plans mean the same row, and the unique index has room for the new side. */
  predicate Unobstructed(rows: Rows, os: seq<Plan>, pairs: seq<Pair>, desired: bool) {
    RowKeysDistinct(os) && PairKeysDistinct(pairs) && NoClash(rows.tombstones, pairs, desired, |pairs|)
  }

  // ---- Ordinary rows --------------------------------------------------------------------------

  predicate AllOrdinaryAt(rows: OrdinaryRows, os: seq<Plan>, desired: bool) {
    forall i :: 0 <= i < |os| ==> Key(os[i]) in rows && OrdinaryAt(os[i], rows[Key(os[i])], desired)
  }

  predicate OrdinaryProper(os: seq<Plan>) {
    forall i :: 0 <= i < |os| ==> os[i].model != StorageTombstone && FieldAllowed(os[i]) && Proper(os[i])
  }

  lemma OrdinaryMovedOneMore(a: OrdinaryRows, m: OrdinaryRows, b: OrdinaryRows, os: seq<Plan>, n: nat, desired: bool)
    requires n < |os| && OrdinaryMoved(a, m, os[..n], desired) && UntouchedRow(os[..n], Key(os[n]))
    requires Key(os[n]) in m && b == m[Key(os[n]) := OrdinaryTo(os[n], m[Key(os[n])], desired)]
    ensures OrdinaryMoved(a, b, os[..n + 1], desired)
  {
    forall i | 0 <= i < n + 1
      ensures Key(os[i]) in a && b[Key(os[i])] == OrdinaryTo(os[i], a[Key(os[i])], desired)
    {
      if i < n { assert os[..n][i] == os[i]; }
    }
    forall k | k in a && UntouchedRow(os[..n + 1], k) ensures b[k] == a[k] {
      assert forall i :: 0 <= i < n ==> os[..n][i] == os[..n + 1][i];
      assert UntouchedRow(os[..n], k);
      assert os[..n + 1][n] == os[n];
    }
  }

  /** The next update finds its row as expected exactly when no earlier plan means the same row. */
  lemma NextRowWaits(a: OrdinaryRows, m: OrdinaryRows, os: seq<Plan>, n: nat, back: bool)
    requires n < |os| && OrdinaryMoved(a, m, os[..n], !back) && AllOrdinaryAt(a, os, back) && OrdinaryProper(os)
    ensures Key(os[n]) in m
    ensures OrdinaryAt(os[n], m[Key(os[n])], back) <==> UntouchedRow(os[..n], Key(os[n]))
  {
    if !UntouchedRow(os[..n], Key(os[n])) {
      var j :| 0 <= j < n && Key(os[..n][j]) == Key(os[n]);
      assert os[..n][j] == os[j];
      assert OrdinaryAt(os[j], a[Key(os[j])], back) && OrdinaryAt(os[n], a[Key(os[n])], back);
    }
  }

  lemma {:induction false} UpdatesExactly(a: OrdinaryRows, os: seq<Plan>, n: nat, back: bool)
    requires n <= |os| && AllOrdinaryAt(a, os, back) && OrdinaryProper(os)
    ensures UpdateAll(a, os[..n], back).Success? <==> RowKeysDistinct(os[..n])
    ensures UpdateAll(a, os[..n], back).Success? ==> OrdinaryMoved(a, UpdateAll(a, os[..n], back).value, os[..n], !back)
    ensures UpdateAll(a, os[..n], back).Failure? ==> UpdateAll(a, os[..n], back).code == "LEGACY_MIGRATION_CAS_MISS"
  {
    if n > 0 {
      UpdatesExactly(a, os, n - 1, back);
      assert os[..n][..n - 1] == os[..n - 1] && os[..n][n - 1] == os[n - 1];
      var earlier := UpdateAll(a, os[..n - 1], back);
      DistinctOneMore(os, n - 1);
      if earlier.Success? {
        NextRowWaits(a, earlier.value, os, n - 1, back);
        if UntouchedRow(os[..n - 1], Key(os[n - 1])) {
          OrdinaryMovedOneMore(a, earlier.value, UpdateAll(a, os[..n], back).value, os, n - 1, !back);
        }
      }
    }
  }

  lemma DistinctOneMore(os: seq<Plan>, n: nat)
    requires n < |os|
    ensures RowKeysDistinct(os[..n + 1]) <==> RowKeysDistinct(os[..n]) && UntouchedRow(os[..n], Key(os[n]))
  {
    var more, less := os[..n + 1], os[..n];
    assert forall i :: 0 <= i < n ==> more[i] == less[i];
    assert more[n] == os[n];
    if RowKeysDistinct(more) {
      forall i | 0 <= i < |less| ensures Key(less[i]) != Key(os[n]) { assert Key(more[i]) != Key(more[n]); }
    }
  }

  // ---- Tombstone rows -------------------------------------------------------------------------

  predicate AllPairsAt(rows: TombstoneRows, pairs: seq<Pair>, desired: bool) {
    forall i :: 0 <= i < |pairs| ==> PairKey(pairs[i]) in rows && PairIsAt(pairs[i], rows[PairKey(pairs[i])], desired)
  }

  lemma TombstonesMovedOneMore(
      a: TombstoneRows, m: TombstoneRows, b: TombstoneRows, pairs: seq<Pair>, n: nat, desired: bool)
    requires n < |pairs| && TombstonesMoved(a, m, pairs[..n], desired)
    requires UntouchedTombstone(pairs[..n], PairKey(pairs[n]))
    requires PairKey(pairs[n]) in m && b == m[PairKey(pairs[n]) := PairTo(pairs[n], m[PairKey(pairs[n])], desired)]
    ensures TombstonesMoved(a, b, pairs[..n + 1], desired)
  {
    forall i | 0 <= i < n + 1
      ensures PairKey(pairs[i]) in a && b[PairKey(pairs[i])] == PairTo(pairs[i], a[PairKey(pairs[i])], desired)
    {
      if i < n { assert pairs[..n][i] == pairs[i]; }
    }
    forall id | id in a && UntouchedTombstone(pairs[..n + 1], id) ensures b[id] == a[id] {
      assert forall i :: 0 <= i < n ==> pairs[..n][i] == pairs[..n + 1][i];
      assert UntouchedTombstone(pairs[..n], id);
      assert pairs[..n + 1][n] == pairs[n];
    }
  }

  lemma NextPairWaits(a: TombstoneRows, m: TombstoneRows, pairs: seq<Pair>, n: nat, back: bool)
    requires n < |pairs| && TombstonesMoved(a, m, pairs[..n], !back) && AllPairsAt(a, pairs, back) && ProperPairs(pairs)
    ensures PairKey(pairs[n]) in m
    ensures PairIsAt(pairs[n], m[PairKey(pairs[n])], back) <==> UntouchedTombstone(pairs[..n], PairKey(pairs[n]))
  {
    if !UntouchedTombstone(pairs[..n], PairKey(pairs[n])) {
      var j :| 0 <= j < n && PairKey(pairs[..n][j]) == PairKey(pairs[n]);
      assert pairs[..n][j] == pairs[j];
      assert m[PairKey(pairs[n])].provider == ProviderAt(pairs[j], !back);
    }
  }

  /** The rows moved so far, those still to move, and those outside the manifest. */
  lemma IndexDuring(a: TombstoneRows, m: TombstoneRows, pairs: seq<Pair>, n: nat, back: bool, id: string)
    requires n <= |pairs| && TombstonesMoved(a, m, pairs[..n], !back) && AllPairsAt(a, pairs, back) && id in m
    ensures
      || (UntouchedTombstone(pairs, id) && m[id] == a[id])
      || (exists j :: 0 <= j < n && PairKey(pairs[j]) == id && TrashIndex(m[id]) == IndexAt(pairs[j], !back))
      || (exists j :: n <= j < |pairs| && PairKey(pairs[j]) == id && TrashIndex(m[id]) == IndexAt(pairs[j], back))
  {
    if !UntouchedTombstone(pairs[..n], id) {
      var j :| 0 <= j < n && PairKey(pairs[..n][j]) == id;
      assert pairs[..n][j] == pairs[j];
    } else if !UntouchedTombstone(pairs, id) {
      var j := LaterPair(pairs, n, id);
      assert PairIsAt(pairs[j], a[id], back);
    }
  }

  lemma LaterPair(pairs: seq<Pair>, n: nat, id: string) returns (j: nat)
    requires n <= |pairs| && UntouchedTombstone(pairs[..n], id) && !UntouchedTombstone(pairs, id)
    ensures n <= j < |pairs| && PairKey(pairs[j]) == id
  {
    assert forall i :: 0 <= i < n ==> pairs[..n][i] == pairs[i];
    j :| 0 <= j < |pairs| && PairKey(pairs[j]) == id;
  }

  /** The unique index refuses the next update exactly when a row outside or an earlier pair has its columns. */
  lemma NextIndexFree(a: TombstoneRows, m: TombstoneRows, pairs: seq<Pair>, n: nat, back: bool)
    requires n < |pairs| && TombstonesMoved(a, m, pairs[..n], !back) && AllPairsAt(a, pairs, back) && ProperPairs(pairs)
    requires UntouchedTombstone(pairs[..n], PairKey(pairs[n])) && PairKey(pairs[n]) in m
    ensures Taken(m, PairKey(pairs[n]), PairTo(pairs[n], m[PairKey(pairs[n])], !back)) <==> ClashAt(a, pairs, !back, n)
  {
    var id, next := PairKey(pairs[n]), PairTo(pairs[n], m[PairKey(pairs[n])], !back);
    assert TrashIndex(next) == IndexAt(pairs[n], !back);
    if Taken(m, id, next) {
      var other :| other in m && other != id && TrashIndex(m[other]) == TrashIndex(next);
      TakenMeansClash(a, m, pairs, n, back, other);
    }
    if TakenOutside(a, pairs, !back, n) {
      var other :| other in a && UntouchedTombstone(pairs, other) && TrashIndex(a[other]) == IndexAt(pairs[n], !back);
      assert forall i :: 0 <= i < n ==> pairs[..n][i] == pairs[i];
      assert UntouchedTombstone(pairs[..n], other) && m[other] == a[other];
    }
    if TakenInside(pairs, !back, n) {
      var j :| 0 <= j < n && IndexAt(pairs[j], !back) == IndexAt(pairs[n], !back);
      assert pairs[..n][j] == pairs[j];
      assert PairKey(pairs[j]) in m && PairKey(pairs[j]) != id && TrashIndex(m[PairKey(pairs[j])]) == TrashIndex(next);
    }
  }

  lemma TakenMeansClash(a: TombstoneRows, m: TombstoneRows, pairs: seq<Pair>, n: nat, back: bool, other: string)
    requires n < |pairs| && TombstonesMoved(a, m, pairs[..n], !back) && AllPairsAt(a, pairs, back) && ProperPairs(pairs)
    requires other in m && TrashIndex(m[other]) == IndexAt(pairs[n], !back)
    ensures ClashAt(a, pairs, !back, n)
  {
    IndexDuring(a, m, pairs, n, back, other);
    if UntouchedTombstone(pairs, other) && m[other] == a[other] {
      assert TakenOutside(a, pairs, !back, n);
    } else if j :| 0 <= j < n && PairKey(pairs[j]) == other && TrashIndex(m[other]) == IndexAt(pairs[j], !back) {
      assert TakenInside(pairs, !back, n);
    }
  }

  lemma PairsDistinctOneMore(pairs: seq<Pair>, n: nat)
    requires n < |pairs|
    ensures PairKeysDistinct(pairs[..n + 1]) <==>
      PairKeysDistinct(pairs[..n]) && UntouchedTombstone(pairs[..n], PairKey(pairs[n]))
  {
    var more, less := pairs[..n + 1], pairs[..n];
    assert forall i :: 0 <= i < n ==> more[i] == less[i];
    assert more[n] == pairs[n];
    if PairKeysDistinct(more) {
      forall i | 0 <= i < |less|
        ensures PairKey(less[i]) != PairKey(pairs[n])
      {
        assert PairKey(more[i]) != PairKey(more[n]);
      }
    }
  }

  predicate Refusal(code: string) { code == "LEGACY_MIGRATION_CAS_MISS" || code == "UNIQUE_CONSTRAINT" }

  lemma {:induction false} PairUpdatesExactly(a: TombstoneRows, pairs: seq<Pair>, n: nat, back: bool)
    requires n <= |pairs| && AllPairsAt(a, pairs, back) && ProperPairs(pairs)
    ensures UpdateAllPairs(a, pairs[..n], back).Success? <==>
      PairKeysDistinct(pairs[..n]) && NoClash(a, pairs, !back, n)
    ensures UpdateAllPairs(a, pairs[..n], back).Success? ==>
      TombstonesMoved(a, UpdateAllPairs(a, pairs[..n], back).value, pairs[..n], !back)
    ensures UpdateAllPairs(a, pairs[..n], back).Failure? ==> Refusal(UpdateAllPairs(a, pairs[..n], back).code)
  {
    if n > 0 {
      PairUpdatesExactly(a, pairs, n - 1, back);
      PairsDistinctOneMore(pairs, n - 1);
      NoClashOneMore(a, pairs, !back, n - 1);
      var earlier := UpdateAllPairs(a, pairs[..n - 1], back);
      UpdateAllPairsStep(a, pairs, n - 1, back);
      if earlier.Success? { PairUpdateStep(a, earlier.value, pairs, n - 1, back); }
    }
  }

  lemma UpdateAllPairsStep(a: TombstoneRows, pairs: seq<Pair>, n: nat, back: bool)
    requires n < |pairs|
    ensures
      var earlier := UpdateAllPairs(a, pairs[..n], back);
      UpdateAllPairs(a, pairs[..n + 1], back) ==
        if earlier.Failure? then earlier else UpdatePair(earlier.value, pairs[n], back)
  {
    assert pairs[..n + 1][..n] == pairs[..n] && pairs[..n + 1][n] == pairs[n];
  }

  lemma NoClashOneMore(rows: TombstoneRows, pairs: seq<Pair>, desired: bool, n: nat)
    requires n < |pairs|
    ensures NoClash(rows, pairs, desired, n + 1) <==>
      NoClash(rows, pairs, desired, n) && !ClashAt(rows, pairs, desired, n)
  {
  }

  lemma PairUpdateStep(a: TombstoneRows, m: TombstoneRows, pairs: seq<Pair>, n: nat, back: bool)
    requires n < |pairs| && TombstonesMoved(a, m, pairs[..n], !back) && AllPairsAt(a, pairs, back) && ProperPairs(pairs)
    ensures UpdatePair(m, pairs[n], back).Success? <==>
      UntouchedTombstone(pairs[..n], PairKey(pairs[n])) && !ClashAt(a, pairs, !back, n)
    ensures UpdatePair(m, pairs[n], back).Success? ==>
      TombstonesMoved(a, UpdatePair(m, pairs[n], back).value, pairs[..n + 1], !back)
    ensures UpdatePair(m, pairs[n], back).Failure? ==> Refusal(UpdatePair(m, pairs[n], back).code)
  {
    NextPairWaits(a, m, pairs, n, back);
    if UntouchedTombstone(pairs[..n], PairKey(pairs[n])) {
      NextIndexFree(a, m, pairs, n, back);
      if UpdatePair(m, pairs[n], back).Success? {
        TombstonesMovedOneMore(a, m, UpdatePair(m, pairs[n], back).value, pairs, n, !back);
      }
    }
  }

  // ---- The transaction ------------------------------------------------------------------------

  /** After a move every reference is on the new side. */
  lemma MovedIsAt(a: Rows, b: Rows, os: seq<Plan>, pairs: seq<Pair>, back: bool)
    requires Readable(a, os, pairs) && AllAt(a, os, pairs, back) && Moved(a, b, os, pairs, !back)
    ensures Readable(b, os, pairs) && AllAt(b, os, pairs, !back)
  {
  }

  /** The updates of proper plans go through exactly when nothing obstructs them; the closing check never fails. */
  lemma SwapExactly(rows: Rows, os: seq<Plan>, pairs: seq<Pair>, back: bool)
    requires Readable(rows, os, pairs) && AllAt(rows, os, pairs, back) && OrdinaryProper(os) && ProperPairs(pairs)
    ensures SwapResult(rows, os, pairs, back) == Success("UPDATED") <==> Unobstructed(rows, os, pairs, !back)
    ensures SwapResult(rows, os, pairs, back) != Success("UPDATED") ==>
      SwapResult(rows, os, pairs, back).Failure? && Refusal(SwapResult(rows, os, pairs, back).code)
  {
    assert os[..|os|] == os && pairs[..|pairs|] == pairs;
    UpdatesExactly(rows.ordinary, os, |os|, back);
    PairUpdatesExactly(rows.tombstones, pairs, |pairs|, back);
    var ordinary, tombstones := UpdateAll(rows.ordinary, os, back), UpdateAllPairs(rows.tombstones, pairs, back);
    if ordinary.Success? && tombstones.Success? {
      var after := Rows(ordinary.value, tombstones.value);
      MovedIsAt(rows, after, os, pairs, back);
      SnapshotSpec(after, os, pairs);
    }
  }

  lemma SwapSuccess(rows: Rows, os: seq<Plan>, pairs: seq<Pair>, back: bool)
    ensures SwapResult(rows, os, pairs, back).Success? ==> SwapResult(rows, os, pairs, back) == Success("UPDATED")
  {
  }

  predicate Accepted(le: Collation, plans: seq<Plan>) {
    plans != [] && IdentitiesDistinct(plans) && PairTombstones(le, plans).Success?
  }

  predicate Present(le: Collation, plans: seq<Plan>, rows: Rows) {
    Accepted(le, plans) && Readable(rows, Ordinary(plans), PairTombstones(le, plans).value)
  }

  /** Every reference the manifest names is present and on the given side. */
  predicate ManifestAt(le: Collation, plans: seq<Plan>, rows: Rows, desired: bool) {
    Present(le, plans, rows) && AllAt(rows, Ordinary(plans), PairTombstones(le, plans).value, desired)
  }

  predicate Passable(le: Collation, plans: seq<Plan>, rows: Rows, desired: bool) {
    Accepted(le, plans) && Unobstructed(rows, Ordinary(plans), PairTombstones(le, plans).value, desired)
  }

  lemma ProperPieces(le: Collation, plans: seq<Plan>, rows: Rows)
    requires TotalOrder(le) && ProperPlans(plans) && Present(le, plans, rows)
    ensures OrdinaryProper(Ordinary(plans)) && ProperPairs(PairTombstones(le, plans).value)
  {
    PairingPartitions(le, plans);
    var os, pairs := Ordinary(plans), PairTombstones(le, plans).value;
    forall i | 0 <= i < |os| ensures os[i].model != StorageTombstone && Proper(os[i]) {
      assert os[i] in os;
      var j :| 0 <= j < |plans| && plans[j] == os[i];
    }
    forall i | 0 <= i < |pairs| ensures ProviderAt(pairs[i], false) != "supabase" {
      assert WellPaired(pairs[i], plans);
      var j :| 0 <= j < |plans| && plans[j] == pairs[i].original;
    }
  }

  /**
   The result is decided by which side the whole manifest is on, and on the starting side by whether two plans
   mean one row (identifiers that differ in letter case only) or the unique index is taken.
   */
  lemma CasResultExact(le: Collation, plans: seq<Plan>, back: bool, rows: Rows)
    requires TotalOrder(le) && ProperPlans(plans)
    ensures var r := CasResult(le, plans, back, rows);
      && (r == Success("UPDATED") <==>
            && ManifestAt(le, plans, rows, back) && !ManifestAt(le, plans, rows, !back)
            && Passable(le, plans, rows, !back))
      && (r.Success? <==>
            || ManifestAt(le, plans, rows, !back)
            || (ManifestAt(le, plans, rows, back) && Passable(le, plans, rows, !back)))
      && (r == Failure("LEGACY_MANIFEST_DB_MIXED_STATE") <==>
            Present(le, plans, rows) && !ManifestAt(le, plans, rows, true) && !ManifestAt(le, plans, rows, false))
      && ((r.Failure? && Refusal(r.code)) <==>
            && ManifestAt(le, plans, rows, back) && !ManifestAt(le, plans, rows, !back)
            && !Passable(le, plans, rows, !back))
      && r != Failure("LEGACY_MANIFEST_DB_VERIFY_FAILED")
  {
    if Accepted(le, plans) {
      var os, pairs := Ordinary(plans), PairTombstones(le, plans).value;
      if Present(le, plans, rows) { ProperPieces(le, plans, rows); }
      TransactionExact(rows, os, pairs, back);
    } else if plans != [] && IdentitiesDistinct(plans) {
      PairingFailureCodes(le, plans);
    }
  }

  lemma TransactionExact(rows: Rows, os: seq<Plan>, pairs: seq<Pair>, back: bool)
    requires Readable(rows, os, pairs) ==> OrdinaryProper(os) && ProperPairs(pairs)
    ensures
      var r, there := TransactionResult(rows, os, pairs, back), Readable(rows, os, pairs);
      && (r == Success("UPDATED") <==>
            && there && AllAt(rows, os, pairs, back) && !AllAt(rows, os, pairs, !back)
            && Unobstructed(rows, os, pairs, !back))
      && (r.Success? && r != Success("UPDATED") <==> there && AllAt(rows, os, pairs, !back))
      && (r == Failure("LEGACY_MANIFEST_DB_MIXED_STATE") <==>
            there && !AllAt(rows, os, pairs, back) && !AllAt(rows, os, pairs, !back))
      && ((r.Failure? && Refusal(r.code)) <==>
            && there && AllAt(rows, os, pairs, back) && !AllAt(rows, os, pairs, !back)
            && !Unobstructed(rows, os, pairs, !back))
      && r != Failure("LEGACY_MANIFEST_DB_VERIFY_FAILED")
  {
    SnapshotSpec(rows, os, pairs);
    if Readable(rows, os, pairs) {
      SwapSuccess(rows, os, pairs, back);
      if AllAt(rows, os, pairs, back) { SwapExactly(rows, os, pairs, back); }
      var s := ReadManifest(rows, os, pairs).value;
      assert SnapshotMatches(os, pairs, s, back) <==> AllAt(rows, os, pairs, back);
      assert SnapshotMatches(os, pairs, s, !back) <==> AllAt(rows, os, pairs, !back);
    } else {
      ReadFailureCodes(rows, os, pairs);
    }
  }

  lemma PairingFailureCodes(le: Collation, plans: seq<Plan>)
    requires PairTombstones(le, plans).Failure?
    ensures PairTombstones(le, plans).code in {"LEGACY_TOMBSTONE_PAIR_INCOMPLETE", "LEGACY_TOMBSTONE_PAIR_INVALID"}
  {
    var records := Sort(le, Records(plans));
    var i := TraverseFailure(PairFor(plans), records);
    GroupFailureCodes(Group(plans, records[i]));
  }

  lemma GroupFailureCodes(group: seq<Plan>)
    ensures PairOf(group).Failure? ==>
      PairOf(group).code in {"LEGACY_TOMBSTONE_PAIR_INCOMPLETE", "LEGACY_TOMBSTONE_PAIR_INVALID"}
  {
  }

  lemma ReadFailureCodes(rows: Rows, os: seq<Plan>, pairs: seq<Pair>)
    requires ReadManifest(rows, os, pairs).Failure?
    ensures ReadManifest(rows, os, pairs).code in
      {"LEGACY_REFERENCE_MODEL_FIELD_NOT_ALLOWED", "LEGACY_REFERENCE_ROW_MISSING"}
  {
    if Traverse(ReadOrdinary(rows.ordinary), os).Failure? {
      var i := TraverseFailure(ReadOrdinary(rows.ordinary), os);
    } else {
      var i := TraverseFailure(ReadPair(rows.tombstones), pairs);
    }
  }

  // ---- Over whole swaps -----------------------------------------------------------------------

  lemma SuccessSides(rows: Rows, os: seq<Plan>, pairs: seq<Pair>, back: bool)
    requires TransactionResult(rows, os, pairs, back).Success?
    ensures Readable(rows, os, pairs)
    ensures
      if TransactionResult(rows, os, pairs, back) == Success("UPDATED") then
        AllAt(rows, os, pairs, back) && !AllAt(rows, os, pairs, !back)
      else
        && AllAt(rows, os, pairs, !back)
        && TransactionResult(rows, os, pairs, back) == Success(if back then "ALREADY_ORIGINAL" else "ALREADY_DESIRED")
  {
    SnapshotSpec(rows, os, pairs);
    SwapSuccess(rows, os, pairs, back);
    var s := ReadManifest(rows, os, pairs).value;
    assert SnapshotMatches(os, pairs, s, back) <==> AllAt(rows, os, pairs, back);
    assert SnapshotMatches(os, pairs, s, !back) <==> AllAt(rows, os, pairs, !back);
  }

  /** A swap of any plans is all or nothing, and after success the whole manifest is on the new side. */
  lemma SwapAllOrNothing(le: Collation, plans: seq<Plan>, back: bool, a: Rows, r: Result<string>, b: Rows)
    requires CasStep(le, plans, back, a, r, b)
    ensures r.Failure? ==> b == a
    ensures r.Success? ==> ManifestAt(le, plans, b, !back)
    ensures r == Success("UPDATED") ==> ManifestAt(le, plans, a, back) && !ManifestAt(le, plans, a, !back)
    ensures a.ordinary.Keys == b.ordinary.Keys && a.tombstones.Keys == b.tombstones.Keys
  {
    if r.Success? {
      var os, pairs := Ordinary(plans), PairTombstones(le, plans).value;
      assert r == TransactionResult(a, os, pairs, back);
      SuccessSides(a, os, pairs, back);
      if r == Success("UPDATED") { MovedIsAt(a, b, os, pairs, back); }
    }
  }

  lemma OrdinaryThereAndBack(a: OrdinaryRows, b: OrdinaryRows, c: OrdinaryRows, os: seq<Plan>, desired: bool)
    requires OrdinaryMoved(a, b, os, desired) && OrdinaryMoved(b, c, os, !desired) && AllOrdinaryAt(a, os, !desired)
    ensures c == a
  {
    forall k | k in a ensures c[k] == a[k] {
      if !UntouchedRow(os, k) {
        var i :| 0 <= i < |os| && Key(os[i]) == k;
        assert OrdinaryAt(os[i], a[k], !desired);
      }
    }
  }

  lemma TombstonesThereAndBack(a: TombstoneRows, b: TombstoneRows, c: TombstoneRows, pairs: seq<Pair>, desired: bool)
    requires TombstonesMoved(a, b, pairs, desired) && TombstonesMoved(b, c, pairs, !desired)
    requires AllPairsAt(a, pairs, !desired)
    ensures c == a
  {
    forall id | id in a ensures c[id] == a[id] {
      if !UntouchedTombstone(pairs, id) {
        var i :| 0 <= i < |pairs| && PairKey(pairs[i]) == id;
        assert PairIsAt(pairs[i], a[id], !desired);
      }
    }
  }

  /** The index columns a pair came from are still free for it. */
  lemma WayBackIsFree(a: TombstoneRows, b: TombstoneRows, pairs: seq<Pair>, back: bool)
    requires UniqueTrash(a) && AllPairsAt(a, pairs, back) && TombstonesMoved(a, b, pairs, !back)
    requires PairKeysDistinct(pairs)
    ensures NoClash(b, pairs, back, |pairs|)
  {
    forall i | 0 <= i < |pairs| ensures !ClashAt(b, pairs, back, i) {
      assert TrashIndex(a[PairKey(pairs[i])]) == IndexAt(pairs[i], back);
      forall id | id in b && UntouchedTombstone(pairs, id) ensures TrashIndex(b[id]) != IndexAt(pairs[i], back) {
        assert b[id] == a[id] && id != PairKey(pairs[i]);
      }
      forall j | 0 <= j < i ensures IndexAt(pairs[j], back) != IndexAt(pairs[i], back) {
        assert TrashIndex(a[PairKey(pairs[j])]) == IndexAt(pairs[j], back) && PairKey(pairs[j]) != PairKey(pairs[i]);
      }
    }
  }

  /** The unique index still holds after a move without a clash. */
  lemma MoveKeepsUnique(a: TombstoneRows, b: TombstoneRows, pairs: seq<Pair>, desired: bool)
    requires UniqueTrash(a) && TombstonesMoved(a, b, pairs, desired) && NoClash(a, pairs, desired, |pairs|)
    ensures UniqueTrash(b)
  {
    forall x, y | x in b && y in b && x != y ensures TrashIndex(b[x]) != TrashIndex(b[y]) {
      if !UntouchedTombstone(pairs, x) {
        var i :| 0 <= i < |pairs| && PairKey(pairs[i]) == x;
        assert !ClashAt(a, pairs, desired, i) && TrashIndex(b[x]) == IndexAt(pairs[i], desired);
        if !UntouchedTombstone(pairs, y) {
          var j :| 0 <= j < |pairs| && PairKey(pairs[j]) == y;
          assert !ClashAt(a, pairs, desired, j) && TrashIndex(b[y]) == IndexAt(pairs[j], desired);
        } else {
          assert y in a && b[y] == a[y];
        }
      } else if !UntouchedTombstone(pairs, y) {
        var j :| 0 <= j < |pairs| && PairKey(pairs[j]) == y;
        assert !ClashAt(a, pairs, desired, j) && TrashIndex(b[y]) == IndexAt(pairs[j], desired);
        assert x in a && b[x] == a[x];
      }
    }
  }

  lemma SwapKeepsUnique(le: Collation, plans: seq<Plan>, back: bool, a: Rows, r: Result<string>, b: Rows)
    requires TotalOrder(le) && ProperPlans(plans) && CasStep(le, plans, back, a, r, b) && UniqueTrash(a.tombstones)
    ensures UniqueTrash(b.tombstones)
  {
    if r == Success("UPDATED") {
      CasResultExact(le, plans, back, a);
      MoveKeepsUnique(a.tombstones, b.tombstones, PairTombstones(le, plans).value, !back);
    }
  }

  /** After a swap that changed rows, the way back is open. */
  lemma WayBackIsOpen(le: Collation, plans: seq<Plan>, back: bool, a: Rows, r: Result<string>, b: Rows)
    requires TotalOrder(le) && ProperPlans(plans) && UniqueTrash(a.tombstones)
    requires CasStep(le, plans, back, a, r, b) && r == Success("UPDATED")
    ensures CasResult(le, plans, !back, b) == Success("UPDATED")
  {
    var os, pairs := Ordinary(plans), PairTombstones(le, plans).value;
    CasResultExact(le, plans, back, a);
    SwapAllOrNothing(le, plans, back, a, r, b);
    WayBackIsFree(a.tombstones, b.tombstones, pairs, back);
    NotBothSides(os, pairs, back, a, b);
    CasResultExact(le, plans, !back, b);
  }

  /** Swapping one way and then the other restores every row, in either order. */
  lemma ThereAndBack(
      le: Collation, plans: seq<Plan>, back: bool, a: Rows, r: Result<string>, b: Rows, s: Result<string>, c: Rows)
    requires TotalOrder(le) && ProperPlans(plans) && UniqueTrash(a.tombstones)
    requires CasStep(le, plans, back, a, r, b) && r == Success("UPDATED") && CasStep(le, plans, !back, b, s, c)
    ensures s == Success("UPDATED") && c == a
  {
    var os, pairs := Ordinary(plans), PairTombstones(le, plans).value;
    SwapAllOrNothing(le, plans, back, a, r, b);
    WayBackIsOpen(le, plans, back, a, r, b);
    OrdinaryThereAndBack(a.ordinary, b.ordinary, c.ordinary, os, !back);
    TombstonesThereAndBack(a.tombstones, b.tombstones, c.tombstones, pairs, !back);
  }

  /** A manifest that reads differently on the two sides of one state does so in every state. */
  lemma NotBothSides(os: seq<Plan>, pairs: seq<Pair>, back: bool, a: Rows, b: Rows)
    requires Readable(a, os, pairs) && AllAt(a, os, pairs, back) && !AllAt(a, os, pairs, !back)
    requires Readable(b, os, pairs) && AllAt(b, os, pairs, !back)
    ensures !AllAt(b, os, pairs, back)
  {
    if i :| 0 <= i < |os| && !OrdinaryAt(os[i], a.ordinary[Key(os[i])], !back) {
      OrdinarySides(os[i], a.ordinary[Key(os[i])], b.ordinary[Key(os[i])], back);
    } else {
      var i :| 0 <= i < |pairs| && !PairIsAt(pairs[i], a.tombstones[PairKey(pairs[i])], !back);
      var id := PairKey(pairs[i]);
      PairSides(pairs[i], a.tombstones[id], b.tombstones[id], back);
    }
  }

  lemma OrdinarySides(p: Plan, x: OrdinaryRow, y: OrdinaryRow, back: bool)
    requires OrdinaryAt(p, x, back) && !OrdinaryAt(p, x, !back) && OrdinaryAt(p, y, !back)
    ensures !OrdinaryAt(p, y, back)
  {
  }

  lemma PairSides(pair: Pair, x: TombstoneRow, y: TombstoneRow, back: bool)
    requires PairIsAt(pair, x, back) && !PairIsAt(pair, x, !back) && PairIsAt(pair, y, !back)
    ensures !PairIsAt(pair, y, back)
  {
  }

  /** Repeating a successful swap of any plans finds it done and changes nothing. */
  lemma RepeatIsIdle(
      le: Collation, plans: seq<Plan>, back: bool, a: Rows, r: Result<string>, b: Rows, s: Result<string>, c: Rows)
    requires CasStep(le, plans, back, a, r, b) && r.Success? && CasStep(le, plans, back, b, s, c)
    ensures s == Success(if back then "ALREADY_ORIGINAL" else "ALREADY_DESIRED") && c == b
  {
    SwapAllOrNothing(le, plans, back, a, r, b);
    SnapshotSpec(b, Ordinary(plans), PairTombstones(le, plans).value);
  }

  // ---- Letter case ----------------------------------------------------------------------------

  /** Two plans for one row whose identifiers differ in letter case only are not duplicates, and always miss. */
  lemma CaseVariantsMiss(le: Collation, p: Plan, q: Plan, rows: Rows)
    requires TotalOrder(le) && p.recordId != q.recordId && Key(p) == Key(q) && Proper(p) && Proper(q)
    requires p.model != StorageTombstone && Key(p) in rows.ordinary
    requires p.field == q.field == (if p.model == ReportExport then FilePath else StoredFilePath)
    requires OrdinaryAt(p, rows.ordinary[Key(p)], false) && OrdinaryAt(q, rows.ordinary[Key(p)], false)
    ensures CasResult(le, [p, q], false, rows) == Failure("LEGACY_MIGRATION_CAS_MISS")
  {
    var plans := [p, q];
    NoTombstones(le, p, q);
    assert Ordinary(plans[1..]) == [q] && Ordinary(plans) == plans by { assert plans[1..] == [q] && [q][1..] == []; }
    assert plans[..1] == [p] && [p][..0] == [];
    assert Present(le, plans, rows) && ManifestAt(le, plans, rows, false);
    var first := UpdateOne(rows.ordinary, p, false).value;
    assert UpdateAll(rows.ordinary, [p], false) == Success(first);
    assert !OrdinaryAt(q, first[Key(q)], false);
    SnapshotSpec(rows, plans, []);
    assert !OrdinaryAt(p, rows.ordinary[Key(p)], true);
  }

  lemma NoTombstones(le: Collation, p: Plan, q: Plan)
    requires p.model != StorageTombstone && q.model != StorageTombstone
    ensures PairTombstones(le, [p, q]) == Success([])
  {
    var plans := [p, q];
    assert [p][..0] == [] && Records([p]) == [];
    assert plans[..|plans| - 1] == [p] && plans[|plans| - 1] == q;
    assert Records(plans) == Records([p]);
  }

  predicate LowerCase(plans: seq<Plan>) {
    forall i :: 0 <= i < |plans| ==> Lower(plans[i].recordId) == plans[i].recordId
  }

  lemma {:induction false} OrdinaryDistinct(plans: seq<Plan>)
    requires IdentitiesDistinct(plans)
    ensures IdentitiesDistinct(Ordinary(plans))
  {
    if plans != [] {
      var rest := plans[1..];
      assert forall i :: 0 <= i < |rest| ==> rest[i] == plans[i + 1];
      OrdinaryDistinct(rest);
      var os := Ordinary(rest);
      forall i | 0 <= i < |os| ensures Identity(os[i]) != Identity(plans[0]) {
        assert os[i] in rest;
      }
    }
  }

  /** With identifiers as the database writes them, no two plans of an accepted manifest mean the same row. */
  lemma LowerCaseKeepsRowsApart(le: Collation, plans: seq<Plan>, rows: Rows)
    requires TotalOrder(le) && LowerCase(plans) && Present(le, plans, rows)
    ensures RowKeysDistinct(Ordinary(plans)) && PairKeysDistinct(PairTombstones(le, plans).value)
  {
    PairingPartitions(le, plans);
    OrdinaryDistinct(plans);
    OrdinaryLower(plans, rows.ordinary);
    PairsLower(plans, PairTombstones(le, plans).value);
  }

  lemma OrdinaryLower(plans: seq<Plan>, rows: OrdinaryRows)
    requires LowerCase(plans) && IdentitiesDistinct(Ordinary(plans)) && ReadableOrdinary(rows, Ordinary(plans))
    ensures RowKeysDistinct(Ordinary(plans))
  {
    var os := Ordinary(plans);
    forall i | 0 <= i < |os| ensures Lower(os[i].recordId) == os[i].recordId && os[i].model != StorageTombstone {
      assert os[i] in os;
      PlanLower(plans, os[i]);
    }
    forall i, j | 0 <= i < j < |os| ensures Key(os[i]) != Key(os[j]) {
      assert Identity(os[i]) != Identity(os[j]);
    }
  }

  lemma PairsLower(plans: seq<Plan>, pairs: seq<Pair>)
    requires LowerCase(plans) && RecordsDistinct(pairs) && forall i :: 0 <= i < |pairs| ==> pairs[i].original in plans
    ensures PairKeysDistinct(pairs)
  {
    forall i | 0 <= i < |pairs|
      ensures PairKey(pairs[i]) == pairs[i].original.recordId
    {
      PlanLower(plans, pairs[i].original);
    }
  }

  lemma PlanLower(plans: seq<Plan>, p: Plan)
    requires LowerCase(plans) && p in plans
    ensures Lower(p.recordId) == p.recordId
  {
    var k :| 0 <= k < |plans| && plans[k] == p;
  }
}
