/**
 One undisturbed apply or rollback of a migration manifest, and exactly when it passes
 (apps/api/maintenance/legacy/reference-inventory.ts).
 */
module LegacyApply {
  import opened Outcomes
  import opened Sorting
  import opened LegacyPlans
  import opened LegacyPairs
  import opened LegacySwap
  import opened LegacySwapLaws
  import opened LegacyReferences
  import opened LegacyMigration

  /** The plan stays inside the approved roots and the store's key space. */
  predicate Bound(roots: set<string>, p: Plan) {
    p.sourceRoot in roots && SafeRelativeKey(p.sourceKey) && SafeRelativeKey(p.targetKey) && p.size <= MAX_SOURCE_BYTES
  }

  predicate BoundUpTo(roots: set<string>, plans: seq<Plan>, n: nat)
    requires n <= |plans|
  {
    forall i :: 0 <= i < n ==> Bound(roots, plans[i])
  }

  predicate AllBound(roots: set<string>, plans: seq<Plan>) { BoundUpTo(roots, plans, |plans|) }

  /** The source lies in an approved root. */
  predicate ReadableSource(roots: set<string>, p: Plan) { p.sourceRoot in roots && SafeRelativeKey(p.sourceKey) }

  predicate AllReadable(roots: set<string>, plans: seq<Plan>) {
    forall i :: 0 <= i < |plans| ==> ReadableSource(roots, plans[i])
  }

  predicate SourceMatches(digest: Digest, sources: map<SourceId, Body>, p: Plan) {
    SourceOf(p) in sources && Matches(digest, p, sources[SourceOf(p)])
  }

  predicate AllSourcesMatch(digest: Digest, sources: map<SourceId, Body>, plans: seq<Plan>) {
    forall i :: 0 <= i < |plans| ==> SourceMatches(digest, sources, plans[i])
  }

  lemma PutExactlyObtainable(
      digest: Digest, sources: map<SourceId, Body>, targets: map<string, Body>, plans: seq<Plan>, n: nat)
    requires KeysApart(plans) && n < |plans|
    requires plans[n].targetKey !in targets && SourceMatches(digest, sources, plans[n])
    ensures AllObtainable(digest, sources, targets, plans) <==>
      AllObtainable(digest, sources, targets[plans[n].targetKey := sources[SourceOf(plans[n])]], plans)
  {
    var after := targets[plans[n].targetKey := sources[SourceOf(plans[n])]];
    forall i | 0 <= i < |plans|
      ensures Obtainable(digest, sources, targets, plans[i]) <==> Obtainable(digest, sources, after, plans[i])
    {
      assert i != n ==> plans[i].targetKey != plans[n].targetKey;
    }
  }

  class Stores {
    var sources: map<SourceId, Body>
    var targets: map<string, Body>

    method CopyNoOverwrite(digest: Digest, roots: set<string>, p: Plan) returns (r: Result<Body>)
      modifies this`targets
      ensures r.Success? <==> Bound(roots, p) && SourceMatches(digest, sources, p) && p.targetKey !in old(targets)
      ensures r.Success? ==> r.value == sources[SourceOf(p)] && targets == old(targets)[p.targetKey := r.value]
      ensures r.Failure? ==> targets == old(targets)
    {
      if !Bound(roots, p) { return Failure("LEGACY_MIGRATION_PLAN_SCOPE_INVALID"); }
      if SourceOf(p) !in sources { return Failure("LEGACY_SOURCE_FILE_MISSING"); }
      var source := sources[SourceOf(p)];
      if |source| > MAX_SOURCE_BYTES { return Failure("LEGACY_MIGRATION_BODY_INVALID"); }
      if !Matches(digest, p, source) { return Failure("LEGACY_MIGRATION_TARGET_COLLISION"); }
      if p.targetKey in targets { return Failure("LEGACY_MIGRATION_TARGET_COLLISION"); }
      targets := targets[p.targetKey := source];
      r := Success(targets[p.targetKey]);
    }

    /** Bring one target to the verified state, copying only if it is missing. */
    method EnsureTarget(digest: Digest, roots: set<string>, p: Plan) returns (r: Result<()>)
      modifies this`targets
      ensures r.Success? <==> Bound(roots, p) && Obtainable(digest, sources, old(targets), p)
      ensures r.Success? ==> Verified(digest, targets, p)
      ensures targets ==
        if r.Success? && p.targetKey !in old(targets) then old(targets)[p.targetKey := sources[SourceOf(p)]]
        else old(targets)
    {
      if !Bound(roots, p) { return Failure("LEGACY_MIGRATION_PLAN_SCOPE_INVALID"); }
      if p.targetKey !in targets {
        var copied := CopyNoOverwrite(digest, roots, p);
        if copied.Failure? { return Failure(copied.code); }
      } else if |targets[p.targetKey]| > MAX_SOURCE_BYTES {
        return Failure("LEGACY_STORAGE_BODY_TOO_LARGE");
      }
      if !Matches(digest, p, targets[p.targetKey]) { return Failure("LEGACY_MIGRATION_TARGET_COLLISION"); }
      r := Success(());
    }

    /** All targets, in manifest order, stopping at the first that cannot be verified. */
    method EnsureTargets(digest: Digest, roots: set<string>, plans: seq<Plan>) returns (r: Result<()>)
      modifies this`targets
      ensures Extends(old(targets), targets)
      ensures forall k :: k in targets && k !in old(targets) ==> exists p :: p in plans && p.targetKey == k
      ensures r.Success? ==> VerifiedUpTo(digest, targets, plans, |plans|)
      ensures KeysApart(plans) ==>
        (r.Success? <==> AllBound(roots, plans) && AllObtainable(digest, sources, old(targets), plans))
    {
      for n := 0 to |plans|
        invariant Extends(old(targets), targets)
        invariant forall k :: k in targets && k !in old(targets) ==> exists p :: p in plans && p.targetKey == k
        invariant VerifiedUpTo(digest, targets, plans, n) && BoundUpTo(roots, plans, n)
        invariant KeysApart(plans) ==>
          (AllObtainable(digest, sources, old(targets), plans) <==> AllObtainable(digest, sources, targets, plans))
      {
        ghost var before := targets;
        assert plans[n] in plans;
        if KeysApart(plans) && plans[n].targetKey !in targets && SourceMatches(digest, sources, plans[n]) {
          PutExactlyObtainable(digest, sources, targets, plans, n);
        }
        var done := EnsureTarget(digest, roots, plans[n]);
        if done.Failure? { return done; }
        VerifiedStays(digest, before, targets, plans, n);
      }
      assert forall i :: 0 <= i < |plans| ==> Obtainable(digest, sources, targets, plans[i]);
      r := Success(());
    }

    /**
     The whole apply. It passes exactly when the manifest is accepted and in scope, each target is
     right or can be copied, and the rows are all on one side; otherwise no row changes.
     */
    method ApplyManifest(setting: Setting, roots: set<string>, plans: seq<Plan>, database: Database)
      returns (r: Result<string>)
      requires TotalOrder(setting.le)
      modifies this`targets, database
      ensures Extends(old(targets), targets)
      ensures forall k :: k in targets && k !in old(targets) ==> exists p :: p in plans && p.targetKey == k
      ensures r.Failure? ==> database.View() == old(database.View())
      ensures r.Success? ==>
        && VerifiedUpTo(setting.digest, targets, plans, |plans|)
        && CasStep(setting.le, plans, false, old(database.View()), r, database.View())
        && ManifestAt(setting.le, plans, database.View(), true)
      ensures PlansWellFormed(plans) ==>
        (r.Success? <==>
          && PlanSetAccepted(setting.le, plans) && AllBound(roots, plans)
          && AllObtainable(setting.digest, sources, old(targets), plans)
          && CasResult(setting.le, plans, false, old(database.View())).Success?)
    {
      var accepted := AssertManifestPlanSet(setting.le, plans);
      if accepted.Failure? { return Failure(accepted.code); }
      if PlansWellFormed(plans) { PlansHaveOwnKeys(plans); }
      var ensured := EnsureTargets(setting.digest, roots, plans);
      if ensured.Failure? { return Failure(ensured.code); }
      r := database.CasManifest(setting.le, plans, false);
      SwapAllOrNothing(setting.le, plans, false, old(database.View()), r, database.View());
    }

    /** Every source is looked for inside the approved roots, in manifest order. */
    method CheckSources(digest: Digest, roots: set<string>, plans: seq<Plan>) returns (failed: Option<string>)
      ensures failed.None? <==> AllReadable(roots, plans) && AllSourcesMatch(digest, sources, plans)
    {
      for n := 0 to |plans|
        invariant forall i :: 0 <= i < n ==> ReadableSource(roots, plans[i]) && SourceMatches(digest, sources, plans[i])
      {
        if !ReadableSource(roots, plans[n]) { return Some("LEGACY_SOURCE_PLAN_SCOPE_INVALID"); }
        if !SourceMatches(digest, sources, plans[n]) { return Some("LEGACY_MIGRATION_SOURCE_MISMATCH"); }
      }
      failed := None;
    }

    /** The whole rollback: sources are checked, objects are left alone, and the rows go back. */
    method RollbackManifest(setting: Setting, roots: set<string>, plans: seq<Plan>, database: Database)
      returns (r: Result<string>)
      requires TotalOrder(setting.le)
      modifies database
      ensures r.Failure? ==> database.View() == old(database.View())
      ensures r.Success? ==>
        && CasStep(setting.le, plans, true, old(database.View()), r, database.View())
        && ManifestAt(setting.le, plans, database.View(), false)
      ensures r.Success? <==>
        && PlanSetAccepted(setting.le, plans)
        && AllReadable(roots, plans) && AllSourcesMatch(setting.digest, sources, plans)
        && CasResult(setting.le, plans, true, old(database.View())).Success?
    {
      var accepted := AssertManifestPlanSet(setting.le, plans);
      if accepted.Failure? { return Failure(accepted.code); }
      var failed := CheckSources(setting.digest, roots, plans);
      if failed.Some? { return Failure(failed.value); }
      r := database.CasManifest(setting.le, plans, true);
      SwapAllOrNothing(setting.le, plans, true, old(database.View()), r, database.View());
    }
  }

  lemma VerifiedStays(digest: Digest, before: map<string, Body>, after: map<string, Body>, plans: seq<Plan>, n: nat)
    requires n < |plans| && VerifiedUpTo(digest, before, plans, n) && Extends(before, after)
    requires Verified(digest, after, plans[n])
    ensures VerifiedUpTo(digest, after, plans, n + 1)
  {
  }

  method AssertManifestPlanSet(le: Collation, plans: seq<Plan>) returns (r: Result<()>)
    requires TotalOrder(le)
    ensures r.Success? <==> PlanSetAccepted(le, plans)
  {
    if |plans| < 1 || |plans| > MAX_PLANS { return Failure("LEGACY_MIGRATION_PLANS_REQUIRED"); }
    var identities: set<(Model, string, Field)> := {};
    for n := 0 to |plans|
      invariant forall i :: 0 <= i < n ==> Identity(plans[i]) in identities && plans[i].size <= MAX_SOURCE_BYTES
      invariant forall id :: id in identities ==> exists i :: 0 <= i < n && Identity(plans[i]) == id
      invariant forall i, j :: 0 <= i < j < n ==> Identity(plans[i]) != Identity(plans[j])
    {
      if Identity(plans[n]) in identities { return Failure("LEGACY_MIGRATION_PLAN_DUPLICATE"); }
      identities := identities + {Identity(plans[n])};
      if plans[n].size > MAX_SOURCE_BYTES { return Failure("LEGACY_MIGRATION_SOURCE_SIZE_INVALID"); }
      assert Identity(plans[n]) in identities;
    }
    var pairs := PairLegacyTombstonePlans(le, plans);
    r := if pairs.Failure? then Failure(pairs.code) else Success(());
  }
}
