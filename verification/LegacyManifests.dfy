/**
 What a manifest swap needs and does, in the columns of the database
 (apps/api/maintenance/legacy/direct-provider.ts, apps/api/maintenance/legacy/reference-inventory.ts).
 */
module LegacyManifests {
  import opened Outcomes
  import opened Sorting
  import opened Text
  import opened Traversal
  import opened LegacyPlans
  import opened LegacyPairs
  import opened LegacySwap
  import opened LegacySwapLaws

  // ---- Pairs ----------------------------------------------------------------------------------

  /** The two plans of one tombstone row: its original key and its trash key, moving from one provider together. */
  predicate Partners(p: Plan, q: Plan) {
    && q.model == StorageTombstone && q.recordId == p.recordId
    && ((p.field == OriginalKey && q.field == TrashKey) || (p.field == TrashKey && q.field == OriginalKey))
    && q.oldStatus == p.oldStatus && q.oldProvider == p.oldProvider && p.oldProvider.Some? && p.oldProvider.value != ""
    && q.oldValue != p.oldValue && q.targetKey != p.targetKey
    && p.targetReference == p.targetKey && q.targetReference == q.targetKey
    && p.size <= 24 * 1024 * 1024 && q.size <= 24 * 1024 * 1024
  }

  predicate HasPartner(plans: seq<Plan>, p: Plan) { exists q :: q in plans && Partners(p, q) }

  lemma {:induction false} GroupKeepsIdentities(plans: seq<Plan>, id: string)
    requires IdentitiesDistinct(plans)
    ensures IdentitiesDistinct(Group(plans, id))
  {
    if plans != [] {
      var earlier, last := plans[..|plans| - 1], plans[|plans| - 1];
      GroupKeepsIdentities(earlier, id);
      forall p | p in Group(earlier, id) ensures Identity(p) != Identity(last) {
        var i :| 0 <= i < |earlier| && earlier[i] == p;
        assert plans[i] == p;
      }
    }
  }

  lemma GroupOfTwo(group: seq<Plan>, o: Plan, t: Plan)
    requires IdentitiesDistinct(group) && o in group && t in group && o.field == OriginalKey && t.field == TrashKey
    requires forall p :: p in group ==> p == o || p == t
    ensures |group| == 2 && Find(group, OriginalKey) == Some(o) && Find(group, TrashKey) == Some(t)
  {
    var i :| 0 <= i < |group| && group[i] == o;
    var j :| 0 <= j < |group| && group[j] == t;
    if |group| > 2 {
      ThirdMember(group, i, j);
      assert false;
    }
  }

  lemma ThirdMember(group: seq<Plan>, i: nat, j: nat)
    requires IdentitiesDistinct(group) && |group| > 2 && i < |group| && j < |group|
    ensures exists p :: p in group && p != group[i] && p != group[j]
  {
    var k := if i != 0 && j != 0 then 0 else if i != 1 && j != 1 then 1 else 2;
    assert group[k] in group;
    assert Identity(group[k]) != Identity(group[i]) && Identity(group[k]) != Identity(group[j]);
  }

  lemma SameIdentity(plans: seq<Plan>, p: Plan, q: Plan)
    requires IdentitiesDistinct(plans) && p in plans && q in plans && Identity(p) == Identity(q)
    ensures p == q
  {
    var i :| 0 <= i < |plans| && plans[i] == p;
    var j :| 0 <= j < |plans| && plans[j] == q;
  }

  predicate AllPartnered(plans: seq<Plan>) {
    forall p {:trigger HasPartner(plans, p)} :: p in plans && p.model == StorageTombstone ==> HasPartner(plans, p)
  }

  lemma GroupIsPartners(plans: seq<Plan>, group: seq<Plan>, o: Plan, t: Plan)
    requires IdentitiesDistinct(plans) && o in plans && t in plans && o.field == OriginalKey && t.field == TrashKey
    requires o.recordId == t.recordId && o.model == StorageTombstone && t.model == StorageTombstone
    requires forall r :: r in group ==>
      r in plans && r.model == o.model && r.recordId == o.recordId && (r.field == OriginalKey || r.field == TrashKey)
    ensures forall r :: r in group ==> r == o || r == t
  {
    forall r | r in group ensures r == o || r == t {
      SameIdentity(plans, r, if r.field == OriginalKey then o else t);
    }
  }

  lemma FieldOfPartnered(plans: seq<Plan>, p: Plan)
    requires AllPartnered(plans) && p in plans && p.model == StorageTombstone
    ensures p.field == OriginalKey || p.field == TrashKey
  {
    assert HasPartner(plans, p);
  }

  lemma PartnersPair(group: seq<Plan>, o: Plan, t: Plan)
    requires |group| == 2 && Find(group, OriginalKey) == Some(o) && Find(group, TrashKey) == Some(t) && Partners(o, t)
    ensures PairOf(group).Success?
  {
  }

  lemma Ordered(plans: seq<Plan>, p: Plan) returns (o: Plan, t: Plan)
    requires p in plans && p.model == StorageTombstone && HasPartner(plans, p)
    ensures o in plans && t in plans && Partners(o, t) && o.model == StorageTombstone && o.recordId == p.recordId
    ensures o.field == OriginalKey && t.field == TrashKey
  {
    var q :| q in plans && Partners(p, q);
    o, t := if p.field == OriginalKey then p else q, if p.field == OriginalKey then q else p;
  }

  lemma PartneredRecord(plans: seq<Plan>, p: Plan)
    requires IdentitiesDistinct(plans) && AllPartnered(plans) && p in plans && p.model == StorageTombstone
    ensures PairOf(Group(plans, p.recordId)).Success?
  {
    var o, t := Ordered(plans, p);
    var group := Group(plans, p.recordId);
    GroupFields(plans, p.recordId);
    GroupKeepsIdentities(plans, p.recordId);
    PartneredGroup(plans, group, o, t);
  }

  lemma GroupFields(plans: seq<Plan>, id: string)
    requires AllPartnered(plans)
    ensures forall r :: r in Group(plans, id) ==> r.field == OriginalKey || r.field == TrashKey
  {
    forall r | r in Group(plans, id) ensures r.field == OriginalKey || r.field == TrashKey {
      FieldOfPartnered(plans, r);
    }
  }

  lemma PartneredGroup(plans: seq<Plan>, group: seq<Plan>, o: Plan, t: Plan)
    requires IdentitiesDistinct(plans) && IdentitiesDistinct(group) && o in group && t in group && Partners(o, t)
    requires o.model == StorageTombstone && o.field == OriginalKey && t.field == TrashKey
    requires forall r :: r in group ==>
      r in plans && r.model == o.model && r.recordId == o.recordId && (r.field == OriginalKey || r.field == TrashKey)
    ensures PairOf(group).Success?
  {
    GroupIsPartners(plans, group, o, t);
    GroupOfTwo(group, o, t);
    PartnersPair(group, o, t);
  }

  lemma PairIsPartners(pair: Pair, plans: seq<Plan>, p: Plan)
    requires WellPaired(pair, plans) && Holds(pair, p)
    ensures HasPartner(plans, p)
  {
    assert Partners(p, if p == pair.original then pair.trash else pair.original);
  }

  lemma RecordIsPartnered(plans: seq<Plan>, p: Plan)
    requires p in plans && p.model == StorageTombstone && PairOf(Group(plans, p.recordId)).Success?
    ensures HasPartner(plans, p)
  {
    PairOfRecord(plans, p.recordId);
    PairIsPartners(PairOf(Group(plans, p.recordId)).value, plans, p);
  }

  /** The plans of a manifest pair up exactly when every tombstone plan has its partner. */
  lemma PairingExactly(le: Collation, plans: seq<Plan>)
    requires TotalOrder(le) && IdentitiesDistinct(plans)
    ensures PairTombstones(le, plans).Success? <==> AllPartnered(plans)
  {
    PairingFailsExactly(le, plans);
    if AllPartnered(plans) {
      forall p | p in plans ensures !Unpaired(plans, p) { PartneredIsPaired(plans, p); }
    } else {
      var p := PartnerlessPlan(plans);
    }
  }

  lemma PartneredIsPaired(plans: seq<Plan>, p: Plan)
    requires IdentitiesDistinct(plans) && AllPartnered(plans) && p in plans
    ensures !Unpaired(plans, p)
  {
    if p.model == StorageTombstone { PartneredRecord(plans, p); }
  }

  lemma PartnerlessPlan(plans: seq<Plan>) returns (p: Plan)
    requires !AllPartnered(plans)
    ensures p in plans && Unpaired(plans, p)
  {
    p :| p in plans && p.model == StorageTombstone && !HasPartner(plans, p);
    if PairOf(Group(plans, p.recordId)).Success? { RecordIsPartnered(plans, p); }
  }

  // ---- What a plan expects of its row ---------------------------------------------------------

  /** The reference of a plan stands at the value it moves to (or from), with the status and provider it expects. */
  predicate StandsAt(p: Plan, rows: Rows, desired: bool) {
    var value := if desired then p.targetReference else p.oldValue;
    if p.model == StorageTombstone then
      && Lower(p.recordId) in rows.tombstones
      && var row := rows.tombstones[Lower(p.recordId)];
      && (if p.field == OriginalKey then row.originalKey else row.trashKey) == value && row.status == p.oldStatus
      && Some(row.provider) == (if desired then Some("supabase") else p.oldProvider)
    else
      && p.field == (if p.model == ReportExport then FilePath else StoredFilePath)
      && (p.model, Lower(p.recordId)) in rows.ordinary
      && var row := rows.ordinary[(p.model, Lower(p.recordId))]; row.value == Some(value) && row.status == p.oldStatus
  }

  predicate AllStandAt(plans: seq<Plan>, rows: Rows, desired: bool) {
    forall p :: p in plans ==> StandsAt(p, rows, desired)
  }

  predicate OrdinaryReady(p: Plan, rows: Rows, desired: bool) {
    FieldAllowed(p) && Key(p) in rows.ordinary && OrdinaryAt(p, rows.ordinary[Key(p)], desired)
  }

  predicate PairReady(pair: Pair, rows: Rows, desired: bool) {
    PairKey(pair) in rows.tombstones && PairIsAt(pair, rows.tombstones[PairKey(pair)], desired)
  }

  lemma OrdinaryStandsExactly(p: Plan, rows: Rows, desired: bool)
    requires p.model != StorageTombstone
    ensures StandsAt(p, rows, desired) <==> OrdinaryReady(p, rows, desired)
  {
  }

  lemma PairStandsExactly(pair: Pair, plans: seq<Plan>, rows: Rows, desired: bool)
    requires WellPaired(pair, plans)
    ensures StandsAt(pair.original, rows, desired) && StandsAt(pair.trash, rows, desired) <==>
      PairReady(pair, rows, desired)
  {
  }

  predicate AllReady(os: seq<Plan>, pairs: seq<Pair>, rows: Rows, desired: bool) {
    && (forall i :: 0 <= i < |os| ==> OrdinaryReady(os[i], rows, desired))
    && (forall i :: 0 <= i < |pairs| ==> PairReady(pairs[i], rows, desired))
  }

  lemma ReadyExactly(os: seq<Plan>, pairs: seq<Pair>, rows: Rows, desired: bool)
    ensures AllReady(os, pairs, rows, desired) <==> Readable(rows, os, pairs) && AllAt(rows, os, pairs, desired)
  {
  }

  lemma OrdinaryReadyStands(os: seq<Plan>, rows: Rows, desired: bool, p: Plan)
    requires forall i :: 0 <= i < |os| ==> OrdinaryReady(os[i], rows, desired)
    requires p in os && p.model != StorageTombstone
    ensures StandsAt(p, rows, desired)
  {
    var i :| 0 <= i < |os| && os[i] == p;
    OrdinaryStandsExactly(p, rows, desired);
  }

  lemma PairReadyStands(pairs: seq<Pair>, plans: seq<Plan>, rows: Rows, desired: bool, p: Plan)
    requires forall i :: 0 <= i < |pairs| ==> WellPaired(pairs[i], plans) && PairReady(pairs[i], rows, desired)
    requires Covered(pairs, p)
    ensures StandsAt(p, rows, desired)
  {
    var i :| 0 <= i < |pairs| && Holds(pairs[i], p);
    PairStandsExactly(pairs[i], plans, rows, desired);
  }

  lemma StandReady(os: seq<Plan>, pairs: seq<Pair>, plans: seq<Plan>, rows: Rows, desired: bool)
    requires os == Ordinary(plans) && Partition(pairs, plans) && AllStandAt(plans, rows, desired)
    ensures AllReady(os, pairs, rows, desired)
  {
    forall i | 0 <= i < |os| ensures OrdinaryReady(os[i], rows, desired) {
      assert os[i] in os;
      OrdinaryStandsExactly(os[i], rows, desired);
    }
    forall i | 0 <= i < |pairs| ensures PairReady(pairs[i], rows, desired) {
      assert WellPaired(pairs[i], plans);
      PairStandsExactly(pairs[i], plans, rows, desired);
    }
  }

  /** A manifest is on a side exactly when each of its plans finds its own columns there. */
  lemma ManifestAtExactly(le: Collation, plans: seq<Plan>, rows: Rows, desired: bool)
    requires TotalOrder(le) && Accepted(le, plans)
    ensures ManifestAt(le, plans, rows, desired) <==> AllStandAt(plans, rows, desired)
  {
    var os, pairs := Ordinary(plans), PairTombstones(le, plans).value;
    PairingPartitions(le, plans);
    ReadyExactly(os, pairs, rows, desired);
    if AllReady(os, pairs, rows, desired) {
      forall p | p in plans ensures StandsAt(p, rows, desired) {
        if p.model != StorageTombstone { OrdinaryReadyStands(os, rows, desired, p); }
        else { PairReadyStands(pairs, plans, rows, desired, p); }
      }
    }
    if AllStandAt(plans, rows, desired) { StandReady(os, pairs, plans, rows, desired); }
  }

  lemma ProperMeansOneSide(plans: seq<Plan>, rows: Rows, desired: bool)
    requires plans != [] && ProperPlans(plans) && AllStandAt(plans, rows, desired)
    ensures !AllStandAt(plans, rows, !desired)
  {
    assert plans[0] in plans;
    assert StandsAt(plans[0], rows, desired);
  }

  // ---- When a swap goes through ---------------------------------------------------------------

  /**
   A swap of proper plans goes through if and only if no plan is given twice, every tombstone plan has its
   partner, each plan finds its own columns on the starting side, and nothing obstructs the updates.
   */
  lemma SwapGoesThroughExactly(le: Collation, plans: seq<Plan>, back: bool, rows: Rows)
    requires TotalOrder(le) && ProperPlans(plans)
    ensures CasResult(le, plans, back, rows) == Success("UPDATED") <==>
      && plans != [] && IdentitiesDistinct(plans)
      && AllPartnered(plans) && AllStandAt(plans, rows, back) && Passable(le, plans, rows, !back)
  {
    CasResultExact(le, plans, back, rows);
    if plans != [] && IdentitiesDistinct(plans) {
      PairingExactly(le, plans);
      if Accepted(le, plans) {
        ManifestAtExactly(le, plans, rows, back);
        ManifestAtExactly(le, plans, rows, !back);
        if AllStandAt(plans, rows, back) { ProperMeansOneSide(plans, rows, back); }
      }
    }
  }

  predicate AllOrdinary(plans: seq<Plan>) { forall p :: p in plans ==> p.model != StorageTombstone }

  lemma {:induction false} OrdinaryIsAll(plans: seq<Plan>)
    requires AllOrdinary(plans)
    ensures Ordinary(plans) == plans
  {
    if plans != [] {
      assert forall p :: p in plans[1..] ==> p in plans;
      OrdinaryIsAll(plans[1..]);
    }
  }

  lemma NothingToPair(le: Collation, plans: seq<Plan>)
    requires TotalOrder(le) && AllOrdinary(plans)
    ensures PairTombstones(le, plans) == Success([])
  {
    NoMembers(Records(plans));
    SortMembers(le, Records(plans));
    NoMembers(Sort(le, Records(plans)));
  }

  lemma NoMembers(xs: seq<string>)
    ensures (forall x :: x !in xs) ==> xs == []
  {
    if xs != [] { assert xs[0] in xs; }
  }

  /** No two plans mean one row, whatever the letter case of their identifiers. */
  predicate RowsApart(plans: seq<Plan>) {
    forall i, j :: 0 <= i < j < |plans| ==>
      plans[i].model != plans[j].model || Lower(plans[i].recordId) != Lower(plans[j].recordId)
  }

  /** Without tombstones the only obstacle left is that two plans mean one row. */
  lemma OrdinarySwapExactly(le: Collation, plans: seq<Plan>, back: bool, rows: Rows)
    requires TotalOrder(le) && ProperPlans(plans) && AllOrdinary(plans)
    ensures CasResult(le, plans, back, rows) == Success("UPDATED") <==>
      plans != [] && AllStandAt(plans, rows, back) && RowsApart(plans)
  {
    SwapGoesThroughExactly(le, plans, back, rows);
    OrdinaryPassable(le, plans, rows, !back);
    assert AllPartnered(plans);
  }

  lemma OrdinaryPassable(le: Collation, plans: seq<Plan>, rows: Rows, desired: bool)
    requires TotalOrder(le) && AllOrdinary(plans)
    ensures plans != [] && IdentitiesDistinct(plans) && Passable(le, plans, rows, desired) <==>
      plans != [] && RowsApart(plans)
  {
    OrdinaryIsAll(plans);
    NothingToPair(le, plans);
    assert RowsApart(plans) <==> RowKeysDistinct(plans);
    if RowKeysDistinct(plans) { RowsApartMeansDistinct(plans); }
  }

  lemma RowsApartMeansDistinct(plans: seq<Plan>)
    requires RowKeysDistinct(plans)
    ensures IdentitiesDistinct(plans)
  {
    forall i, j | 0 <= i < j < |plans| ensures Identity(plans[i]) != Identity(plans[j]) {
      assert Key(plans[i]) != Key(plans[j]);
    }
  }

  predicate WrongField(p: Plan) { p.field != (if p.model == ReportExport then FilePath else StoredFilePath) }

  /** The first ordinary plan that cannot be read names a field its model does not have. */
  predicate StopsAtField(os: seq<Plan>, rows: Rows, i: nat) {
    i < |os| && WrongField(os[i]) && forall j :: 0 <= j < i ==> !WrongField(os[j]) && Key(os[j]) in rows.ordinary
  }

  /** And a manifest is refused for its fields exactly when reading it stops at a wrong one. */
  lemma FieldRefusedExactly(le: Collation, plans: seq<Plan>, back: bool, rows: Rows)
    requires TotalOrder(le) && ProperPlans(plans)
    ensures CasResult(le, plans, back, rows) == Failure("LEGACY_REFERENCE_MODEL_FIELD_NOT_ALLOWED") <==>
      Accepted(le, plans) && exists i: nat :: StopsAtField(Ordinary(plans), rows, i)
  {
    if Accepted(le, plans) {
      AcceptedStops(le, plans, back, rows);
      AcceptedIsTransaction(le, plans, back, rows);
    } else {
      NotAccepted(le, plans, back, rows);
    }
  }

  lemma AcceptedIsTransaction(le: Collation, plans: seq<Plan>, back: bool, rows: Rows)
    requires Accepted(le, plans)
    ensures CasResult(le, plans, back, rows) ==
      TransactionResult(rows, Ordinary(plans), PairTombstones(le, plans).value, back)
  {
  }

  lemma AcceptedStops(le: Collation, plans: seq<Plan>, back: bool, rows: Rows)
    requires TotalOrder(le) && ProperPlans(plans) && Accepted(le, plans)
    ensures var r := TransactionResult(rows, Ordinary(plans), PairTombstones(le, plans).value, back);
      r == Failure("LEGACY_REFERENCE_MODEL_FIELD_NOT_ALLOWED") <==>
        exists i: nat :: StopsAtField(Ordinary(plans), rows, i)
  {
    var os, pairs := Ordinary(plans), PairTombstones(le, plans).value;
    forall i | 0 <= i < |os| ensures os[i].model != StorageTombstone { assert os[i] in os; }
    if Readable(rows, os, pairs) { ProperPieces(le, plans, rows); }
    TransactionStops(rows, os, pairs, back);
  }

  lemma NotAccepted(le: Collation, plans: seq<Plan>, back: bool, rows: Rows)
    requires !Accepted(le, plans)
    ensures CasResult(le, plans, back, rows) != Failure("LEGACY_REFERENCE_MODEL_FIELD_NOT_ALLOWED")
  {
    if plans != [] && IdentitiesDistinct(plans) { PairingFailureCodes(le, plans); }
  }

  lemma TransactionStops(rows: Rows, os: seq<Plan>, pairs: seq<Pair>, back: bool)
    requires Readable(rows, os, pairs) ==> OrdinaryProper(os) && ProperPairs(pairs)
    requires forall i :: 0 <= i < |os| ==> os[i].model != StorageTombstone
    ensures TransactionResult(rows, os, pairs, back) == Failure("LEGACY_REFERENCE_MODEL_FIELD_NOT_ALLOWED") <==>
      exists i: nat :: StopsAtField(os, rows, i)
  {
    ReadingStops(rows, os, pairs);
    SnapshotSpec(rows, os, pairs);
    if Readable(rows, os, pairs) { TransactionCodes(rows, os, pairs, back); }
  }

  lemma TransactionCodes(rows: Rows, os: seq<Plan>, pairs: seq<Pair>, back: bool)
    requires Readable(rows, os, pairs) && OrdinaryProper(os) && ProperPairs(pairs)
    ensures TransactionResult(rows, os, pairs, back) != Failure("LEGACY_REFERENCE_MODEL_FIELD_NOT_ALLOWED")
  {
    SnapshotSpec(rows, os, pairs);
    if AllAt(rows, os, pairs, back) { SwapExactly(rows, os, pairs, back); }
    var s := ReadManifest(rows, os, pairs).value;
    assert SnapshotMatches(os, pairs, s, back) <==> AllAt(rows, os, pairs, back);
  }

  lemma ReadingStops(rows: Rows, os: seq<Plan>, pairs: seq<Pair>)
    requires forall i :: 0 <= i < |os| ==> os[i].model != StorageTombstone
    ensures ReadManifest(rows, os, pairs) == Failure("LEGACY_REFERENCE_MODEL_FIELD_NOT_ALLOWED") <==>
      exists i: nat :: StopsAtField(os, rows, i)
  {
    var f := ReadOrdinary(rows.ordinary);
    TraverseSpec(f, os);
    if Traverse(f, os).Failure? {
      var i := TraverseFailure(f, os);
      FirstFailureStops(os, rows, i);
    } else if Traverse(ReadPair(rows.tombstones), pairs).Failure? {
      var i := TraverseFailure(ReadPair(rows.tombstones), pairs);
    }
  }

  lemma FirstFailureStops(os: seq<Plan>, rows: Rows, i: nat)
    requires i < |os| && forall j :: 0 <= j < |os| ==> os[j].model != StorageTombstone
    requires ReadOrdinary(rows.ordinary)(os[i]).Failure?
    requires forall j :: 0 <= j < i ==> ReadOrdinary(rows.ordinary)(os[j]).Success?
    ensures ReadOrdinary(rows.ordinary)(os[i]).code == "LEGACY_REFERENCE_MODEL_FIELD_NOT_ALLOWED" <==>
      exists k: nat :: StopsAtField(os, rows, k)
  {
    if WrongField(os[i]) { assert StopsAtField(os, rows, i); }
    forall k: nat | StopsAtField(os, rows, k) ensures WrongField(os[i]) {
      if k < i { assert ReadOrdinary(rows.ordinary)(os[k]).Success?; }
    }
  }

  // ---- What a swap does -----------------------------------------------------------------------

  /** After a swap that changed rows, each plan's own column has moved, and the columns no plan names are kept. */
  lemma SwapWritesExactly(le: Collation, plans: seq<Plan>, back: bool, a: Rows, b: Rows, p: Plan)
    requires TotalOrder(le) && CasStep(le, plans, back, a, Success("UPDATED"), b) && p in plans
    ensures StandsAt(p, a, back) && StandsAt(p, b, !back) && RestKept(p, a, b)
  {
    SwapAllOrNothing(le, plans, back, a, Success("UPDATED"), b);
    ManifestAtExactly(le, plans, a, back);
    ManifestAtExactly(le, plans, b, !back);
    PairingPartitions(le, plans);
    if p.model != StorageTombstone {
      OrdinaryRestKept(Ordinary(plans), a, b, back, p);
    } else {
      PairRestKept(PairTombstones(le, plans).value, plans, a, b, back, p);
    }
  }

  predicate RestKept(p: Plan, a: Rows, b: Rows) {
    if p.model != StorageTombstone then
      var k := (p.model, Lower(p.recordId));
      k in a.ordinary && k in b.ordinary && b.ordinary[k] == a.ordinary[k].(value := b.ordinary[k].value)
    else
      var id := Lower(p.recordId);
      id in a.tombstones && id in b.tombstones && b.tombstones[id].rest == a.tombstones[id].rest
  }

  lemma OrdinaryRestKept(os: seq<Plan>, a: Rows, b: Rows, back: bool, p: Plan)
    requires OrdinaryMoved(a.ordinary, b.ordinary, os, !back) && p in os && p.model != StorageTombstone
    ensures RestKept(p, a, b)
  {
    var i :| 0 <= i < |os| && os[i] == p;
  }

  lemma PairRestKept(pairs: seq<Pair>, plans: seq<Plan>, a: Rows, b: Rows, back: bool, p: Plan)
    requires TombstonesMoved(a.tombstones, b.tombstones, pairs, !back) && Covered(pairs, p)
    requires p.model == StorageTombstone && forall i :: 0 <= i < |pairs| ==> WellPaired(pairs[i], plans)
    ensures RestKept(p, a, b)
  {
    var i :| 0 <= i < |pairs| && Holds(pairs[i], p);
    assert PairKey(pairs[i]) == Lower(p.recordId);
  }

  predicate NamesRow(plans: seq<Plan>, k: RowKey) { exists p :: p in plans && k == (p.model, Lower(p.recordId)) }

  predicate NamesTombstone(plans: seq<Plan>, id: string) {
    exists p :: p in plans && p.model == StorageTombstone && id == Lower(p.recordId)
  }

  /** And a row no plan names is as before. */
  lemma SwapLeavesOthers(le: Collation, plans: seq<Plan>, back: bool, a: Rows, b: Rows, k: RowKey, id: string)
    requires TotalOrder(le) && CasStep(le, plans, back, a, Success("UPDATED"), b)
    ensures k in a.ordinary && !NamesRow(plans, k) ==> k in b.ordinary && b.ordinary[k] == a.ordinary[k]
    ensures id in a.tombstones && !NamesTombstone(plans, id) ==>
      id in b.tombstones && b.tombstones[id] == a.tombstones[id]
  {
    PairingPartitions(le, plans);
    if !NamesRow(plans, k) { UnnamedRow(plans, k); }
    if !NamesTombstone(plans, id) { UnnamedTombstone(PairTombstones(le, plans).value, plans, id); }
  }

  lemma UnnamedRow(plans: seq<Plan>, k: RowKey)
    requires !NamesRow(plans, k)
    ensures UntouchedRow(Ordinary(plans), k)
  {
    var os := Ordinary(plans);
    forall i | 0 <= i < |os| ensures Key(os[i]) != k { assert os[i] in os; }
  }

  lemma UnnamedTombstone(pairs: seq<Pair>, plans: seq<Plan>, id: string)
    requires !NamesTombstone(plans, id) && forall i :: 0 <= i < |pairs| ==> WellPaired(pairs[i], plans)
    ensures UntouchedTombstone(pairs, id)
  {
    forall i | 0 <= i < |pairs| ensures PairKey(pairs[i]) != id { assert WellPaired(pairs[i], plans); }
  }
}
