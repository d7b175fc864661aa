/**
 When an undisturbed apply or rollback of a manifest passes, in the contents of the stores and the columns of
 the database (apps/api/maintenance/legacy/reference-inventory.ts, apps/api/maintenance/legacy/direct-provider.ts).
 */
module LegacyOutcomes {
  import opened Outcomes
  import opened Sorting
  import opened LegacyPlans
  import opened LegacyPairs
  import opened LegacySwap
  import opened LegacySwapLaws
  import opened LegacyReferences
  import opened LegacyMigration
  import opened LegacyApply
  import opened LegacyManifests

  /** A manifest of one to a million different plans, paired and within the size limit. */
  predicate Admissible(plans: seq<Plan>) {
    && 1 <= |plans| <= 1_000_000 && IdentitiesDistinct(plans) && AllPartnered(plans)
    && forall p :: p in plans ==> p.size <= 24 * 1024 * 1024
  }

  predicate HasContent(digest: Digest, p: Plan, body: Body) { digest(body) == p.hash && |body| == p.size }

  /** The target holds the planned content, or it is free and the source holds it. */
  predicate Copyable(digest: Digest, sources: map<SourceId, Body>, targets: map<string, Body>, p: Plan) {
    || (p.targetKey in targets && HasContent(digest, p, targets[p.targetKey]))
    || (&& p.targetKey !in targets && (p.sourceRoot, p.sourceKey) in sources
        && HasContent(digest, p, sources[(p.sourceRoot, p.sourceKey)]))
  }

  predicate InScope(roots: set<string>, p: Plan) {
    p.sourceRoot in roots && SafeRelativeKey(p.sourceKey) && SafeRelativeKey(p.targetKey)
  }

  /** The rows are on the new side already, or on the old side with nothing in the way. */
  predicate Swappable(le: Collation, plans: seq<Plan>, rows: Rows, back: bool) {
    AllStandAt(plans, rows, !back) || (AllStandAt(plans, rows, back) && Passable(le, plans, rows, !back))
  }

  lemma AdmissibleExactly(le: Collation, plans: seq<Plan>)
    requires TotalOrder(le)
    ensures PlanSetAccepted(le, plans) <==> Admissible(plans)
  {
    if IdentitiesDistinct(plans) { PairingExactly(le, plans); }
    assert forall i :: 0 <= i < |plans| ==> plans[i] in plans;
  }

  lemma SwappableExactly(le: Collation, plans: seq<Plan>, rows: Rows, back: bool)
    requires TotalOrder(le) && PlansWellFormed(plans) && Accepted(le, plans)
    ensures CasResult(le, plans, back, rows).Success? <==> Swappable(le, plans, rows, back)
  {
    WellFormedIsProper(plans);
    CasResultExact(le, plans, back, rows);
    ManifestAtExactly(le, plans, rows, back);
    ManifestAtExactly(le, plans, rows, !back);
  }

  /** What an apply asks of the stores, plan by plan. */
  lemma CopyableExactly(
      digest: Digest, roots: set<string>, sources: map<SourceId, Body>, targets: map<string, Body>, plans: seq<Plan>)
    requires forall p :: p in plans ==> p.size <= 24 * 1024 * 1024
    ensures AllBound(roots, plans) && AllObtainable(digest, sources, targets, plans) <==>
      forall p :: p in plans ==> InScope(roots, p) && Copyable(digest, sources, targets, p)
  {
    forall i | 0 <= i < |plans|
      ensures Bound(roots, plans[i]) <==> InScope(roots, plans[i])
      ensures Obtainable(digest, sources, targets, plans[i]) <==> Copyable(digest, sources, targets, plans[i])
    {
      assert plans[i] in plans;
    }
    if forall p :: p in plans ==> InScope(roots, p) && Copyable(digest, sources, targets, p) {
      forall i | 0 <= i < |plans| ensures Bound(roots, plans[i]) && Obtainable(digest, sources, targets, plans[i]) {
        assert plans[i] in plans;
      }
    }
  }

  /**
   An undisturbed apply of well-formed plans passes if and only if the manifest is admissible, every plan is in scope
   with its content at the target or free to be copied, and the rows can be swapped.
   */
  lemma ApplyPassesExactly(
      setting: Setting, roots: set<string>, sources: map<SourceId, Body>, targets: map<string, Body>,
      plans: seq<Plan>, rows: Rows)
    requires TotalOrder(setting.le) && PlansWellFormed(plans)
    ensures
      (&& PlanSetAccepted(setting.le, plans) && AllBound(roots, plans)
       && AllObtainable(setting.digest, sources, targets, plans) && CasResult(setting.le, plans, false, rows).Success?)
      <==>
      (&& Admissible(plans)
       && (forall p :: p in plans ==> InScope(roots, p) && Copyable(setting.digest, sources, targets, p))
       && Swappable(setting.le, plans, rows, false))
  {
    AdmissibleExactly(setting.le, plans);
    if Admissible(plans) {
      CopyableExactly(setting.digest, roots, sources, targets, plans);
      SwappableExactly(setting.le, plans, rows, false);
    }
  }

  /** The source is in scope and holds the planned content. */
  predicate SourceUnchanged(digest: Digest, roots: set<string>, sources: map<SourceId, Body>, p: Plan) {
    && p.sourceRoot in roots && SafeRelativeKey(p.sourceKey)
    && (p.sourceRoot, p.sourceKey) in sources && HasContent(digest, p, sources[(p.sourceRoot, p.sourceKey)])
  }

  lemma SourcesExactly(digest: Digest, roots: set<string>, sources: map<SourceId, Body>, plans: seq<Plan>)
    ensures AllReadable(roots, plans) && AllSourcesMatch(digest, sources, plans) <==>
      forall p :: p in plans ==> SourceUnchanged(digest, roots, sources, p)
  {
    forall i | 0 <= i < |plans|
      ensures ReadableSource(roots, plans[i]) && SourceMatches(digest, sources, plans[i]) <==>
        SourceUnchanged(digest, roots, sources, plans[i])
    {
    }
    if forall p :: p in plans ==> SourceUnchanged(digest, roots, sources, p) {
      forall i | 0 <= i < |plans| ensures ReadableSource(roots, plans[i]) && SourceMatches(digest, sources, plans[i]) {
        assert plans[i] in plans;
      }
    }
  }

  /** And a rollback exactly if it is admissible, every source is in scope and unchanged, and the rows can go back. */
  lemma RollbackPassesExactly(
      setting: Setting, roots: set<string>, sources: map<SourceId, Body>, plans: seq<Plan>, rows: Rows)
    requires TotalOrder(setting.le) && PlansWellFormed(plans)
    ensures
      (&& PlanSetAccepted(setting.le, plans) && AllReadable(roots, plans)
       && AllSourcesMatch(setting.digest, sources, plans) && CasResult(setting.le, plans, true, rows).Success?)
      <==>
      (&& Admissible(plans) && (forall p :: p in plans ==> SourceUnchanged(setting.digest, roots, sources, p))
       && Swappable(setting.le, plans, rows, true))
  {
    AdmissibleExactly(setting.le, plans);
    SourcesExactly(setting.digest, roots, sources, plans);
    if Admissible(plans) { SwappableExactly(setting.le, plans, rows, true); }
  }
}
