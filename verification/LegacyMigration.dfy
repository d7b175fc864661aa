/**
 The copy-then-swap protocol of the legacy storage migration, with any number of concurrent apply and
 rollback attempts (apps/api/maintenance/legacy/reference-inventory.ts).

 Each request to a store is one step, and an attempt may stop for good after any step. Assumptions on
 the environment: the object store refuses to overwrite, nobody deletes an object, and other writers
 of the database respect its unique index and never create a reference into the `legacy/` namespace.
 Source files may change at any time. Manifests come from `exactMigrationPlan`
 (apps/api/maintenance/legacy/legacy.cli.ts), so their plans are well formed.
 */
module LegacyMigration {
  import opened Outcomes
  import opened Octets
  import opened Sorting
  import opened LegacyPlans
  import opened LegacyPairs
  import opened LegacySwap
  import opened LegacySwapLaws
  import opened LegacyReferences

  type Body = Bytes

  type Digest = Body -> string

  type SourceId = (string, string)

  function SourceOf(p: Plan): SourceId { (p.sourceRoot, p.sourceKey) }

  predicate Matches(digest: Digest, p: Plan, body: Body) { digest(body) == p.hash && |body| == p.size }

  predicate Verified(digest: Digest, targets: map<string, Body>, p: Plan) {
    p.targetKey in targets && Matches(digest, p, targets[p.targetKey])
  }

  const MAX_PLANS := 1_000_000

  predicate PlanSetAccepted(le: Collation, plans: seq<Plan>) {
    |plans| <= MAX_PLANS && Accepted(le, plans) && forall i :: 0 <= i < |plans| ==> plans[i].size <= MAX_SOURCE_BYTES
  }

  // ---- Attempts -------------------------------------------------------------------------------

  /** Where an attempt stands; `n` counts the plans it is done with. */
  datatype Phase =
    | Inspecting(n: nat)
    | ReadingSource(n: nat)
    | Rechecking(n: nat, body: Body)
    | Putting(n: nat, body: Body)
    | ReadingBack(n: nat)
    | Reinspecting(n: nat)
    | CheckingSource(n: nat)

  datatype Attempt = Attempt(plans: seq<Plan>, phase: Phase)

  datatype World = World(
    sources: map<SourceId, Body>, targets: map<string, Body>, rows: Rows, attempts: map<nat, Attempt>,
    swapped: set<Plan>)

  datatype Event =
    | StartApply(id: nat, plans: seq<Plan>)
    | StartRollback(id: nat, plans: seq<Plan>)
    | Advance(id: nat)
    | SwapForward(id: nat, result: Result<string>, rows: Rows)
    | SwapBack(id: nat, result: Result<string>, rows: Rows)
    | Crash(id: nat)
    | SourcesChange(sources: map<SourceId, Body>)
    | ForeignPut(key: string, body: Body)
    | ForeignWrite(rows: Rows)

  datatype Setting = Setting(digest: Digest, le: Collation)

  function Stopped(w: World, id: nat): World { w.(attempts := w.attempts - {id}) }

  function Moving(w: World, id: nat, phase: Phase): World
    requires id in w.attempts
  {
    w.(attempts := w.attempts[id := w.attempts[id].(phase := phase)])
  }

  predicate AtPlan(a: Attempt) { a.phase.n < |a.plans| }

  /** One request of an attempt: read the source, read the target, or put the target. */
  function AdvanceAttempt(setting: Setting, w: World, id: nat): World
    requires id in w.attempts && AtPlan(w.attempts[id])
  {
    var a := w.attempts[id];
    var n := a.phase.n;
    var p := a.plans[n];
    var target := if p.targetKey in w.targets then Some(w.targets[p.targetKey]) else None;
    var source := if SourceOf(p) in w.sources then Some(w.sources[SourceOf(p)]) else None;
    match a.phase
    case Inspecting(_) =>
      if target.None? then Moving(w, id, ReadingSource(n))
      else if Matches(setting.digest, p, target.value) then Moving(w, id, Inspecting(n + 1)) else Stopped(w, id)
    case ReadingSource(_) =>
      if source.Some? && Matches(setting.digest, p, source.value) then Moving(w, id, Rechecking(n, source.value))
      else Stopped(w, id)
    case Rechecking(_, body) => if target.None? then Moving(w, id, Putting(n, body)) else Stopped(w, id)
    case Putting(_, body) =>
      if target.None? then Moving(w, id, ReadingBack(n)).(targets := w.targets[p.targetKey := body])
      else Stopped(w, id)
    case ReadingBack(_) =>
      if target.Some? && Matches(setting.digest, p, target.value) then Moving(w, id, Reinspecting(n))
      else Stopped(w, id)
    case Reinspecting(_) =>
      if target.Some? && Matches(setting.digest, p, target.value) then Moving(w, id, Inspecting(n + 1))
      else Stopped(w, id)
    case CheckingSource(_) =>
      if source.Some? && Matches(setting.digest, p, source.value) then Moving(w, id, CheckingSource(n + 1))
      else Stopped(w, id)
  }

  predicate NoNewReference(a: Rows, b: Rows, slot: Slot) { Held(b, slot).Some? ==> Held(b, slot) == Held(a, slot) }

  ghost predicate Enabled(setting: Setting, w: World, e: Event) {
    match e
    case StartApply(id, plans) => id !in w.attempts && PlanSetAccepted(setting.le, plans) && PlansWellFormed(plans)
    case StartRollback(id, plans) => id !in w.attempts && PlanSetAccepted(setting.le, plans) && PlansWellFormed(plans)
    case Advance(id) => id in w.attempts && AtPlan(w.attempts[id])
    case SwapForward(id, result, rows) =>
      && id in w.attempts && w.attempts[id].phase == Inspecting(|w.attempts[id].plans|)
      && CasStep(setting.le, w.attempts[id].plans, false, w.rows, result, rows)
    case SwapBack(id, result, rows) =>
      && id in w.attempts && w.attempts[id].phase == CheckingSource(|w.attempts[id].plans|)
      && CasStep(setting.le, w.attempts[id].plans, true, w.rows, result, rows)
    case Crash(id) => id in w.attempts
    case SourcesChange(_) => true
    case ForeignPut(key, _) => key !in w.targets
    case ForeignWrite(rows) => UniqueTrash(rows.tombstones) && forall slot :: NoNewReference(w.rows, rows, slot)
  }

  /** The plans a forward swap has put in place. */
  function SwappedBy(plans: seq<Plan>, result: Result<string>): set<Plan> {
    if result == Success("UPDATED") then set p | p in plans else {}
  }

  function Step(setting: Setting, w: World, e: Event): World
    requires Enabled(setting, w, e)
  {
    match e
    case StartApply(id, plans) => w.(attempts := w.attempts[id := Attempt(plans, Inspecting(0))])
    case StartRollback(id, plans) => w.(attempts := w.attempts[id := Attempt(plans, CheckingSource(0))])
    case Advance(id) => AdvanceAttempt(setting, w, id)
    case SwapForward(id, result, rows) =>
      Stopped(w, id).(rows := rows, swapped := w.swapped + SwappedBy(w.attempts[id].plans, result))
    case SwapBack(id, _, rows) => Stopped(w, id).(rows := rows)
    case Crash(id) => Stopped(w, id)
    case SourcesChange(sources) => w.(sources := sources)
    case ForeignPut(key, body) => w.(targets := w.targets[key := body])
    case ForeignWrite(rows) => w.(rows := rows)
  }

  ghost predicate Execution(setting: Setting, w: World, events: seq<Event>, last: World)
    decreases |events|
  {
    if events == [] then w == last
    else Enabled(setting, w, events[0]) && Execution(setting, Step(setting, w, events[0]), events[1..], last)
  }

  // ---- The invariant --------------------------------------------------------------------------

  predicate VerifiedUpTo(digest: Digest, targets: map<string, Body>, plans: seq<Plan>, n: nat) {
    n <= |plans| && forall i :: 0 <= i < n ==> Verified(digest, targets, plans[i])
  }

  predicate AttemptSound(setting: Setting, targets: map<string, Body>, a: Attempt) {
    && PlansWellFormed(a.plans)
    && (!a.phase.CheckingSource? ==> VerifiedUpTo(setting.digest, targets, a.plans, a.phase.n))
    && (a.phase.Rechecking? || a.phase.Putting? ==>
          a.phase.n < |a.plans| && Matches(setting.digest, a.plans[a.phase.n], a.phase.body))
  }

  predicate AttemptsSound(setting: Setting, w: World) {
    forall id :: id in w.attempts ==> AttemptSound(setting, w.targets, w.attempts[id])
  }

  predicate SwappedSound(digest: Digest, targets: map<string, Body>, swapped: set<Plan>) {
    forall p :: p in swapped ==> WellFormed(p) && Verified(digest, targets, p)
  }

  predicate Backed(swapped: set<Plan>, slot: Slot, key: string) {
    exists p :: p in swapped && SlotOf(p) == slot && p.targetKey == key
  }

  ghost predicate RowsBacked(rows: Rows, swapped: set<Plan>) {
    forall slot :: Held(rows, slot).Some? ==> Backed(swapped, slot, Held(rows, slot).value)
  }

  ghost predicate Inv(setting: Setting, w: World) {
    && AttemptsSound(setting, w) && SwappedSound(setting.digest, w.targets, w.swapped) && RowsBacked(w.rows, w.swapped)
    && UniqueTrash(w.rows.tombstones)
  }

  predicate Extends(a: map<string, Body>, b: map<string, Body>) { forall k :: k in a ==> k in b && b[k] == a[k] }

  lemma AttemptKept(setting: Setting, a: map<string, Body>, b: map<string, Body>, attempt: Attempt)
    requires Extends(a, b) && AttemptSound(setting, a, attempt)
    ensures AttemptSound(setting, b, attempt)
  {
  }

  lemma OtherAttemptsKept(setting: Setting, w: World, v: World, id: nat)
    requires AttemptsSound(setting, w) && Extends(w.targets, v.targets)
    requires forall k :: k in v.attempts && k != id ==> k in w.attempts && v.attempts[k] == w.attempts[k]
    requires id in v.attempts ==> AttemptSound(setting, v.targets, v.attempts[id])
    ensures AttemptsSound(setting, v)
  {
    forall k | k in v.attempts ensures AttemptSound(setting, v.targets, v.attempts[k]) {
      if k != id { AttemptKept(setting, w.targets, v.targets, w.attempts[k]); }
    }
  }

  lemma OneMoreVerified(digest: Digest, targets: map<string, Body>, plans: seq<Plan>, n: nat)
    requires n < |plans| && VerifiedUpTo(digest, targets, plans, n) && Verified(digest, targets, plans[n])
    ensures VerifiedUpTo(digest, targets, plans, n + 1)
  {
  }

  lemma AdvanceFrame(setting: Setting, w: World, id: nat)
    requires id in w.attempts && AtPlan(w.attempts[id])
    ensures var v := AdvanceAttempt(setting, w, id);
      && Extends(w.targets, v.targets) && v.rows == w.rows && v.swapped == w.swapped && v.sources == w.sources
      && (forall k :: k in v.attempts && k != id ==> k in w.attempts && v.attempts[k] == w.attempts[k])
      && (id in v.attempts ==> v.attempts[id].plans == w.attempts[id].plans)
  {
  }

  lemma AdvanceKeepsAttempt(setting: Setting, w: World, id: nat)
    requires id in w.attempts && AtPlan(w.attempts[id]) && AttemptSound(setting, w.targets, w.attempts[id])
    ensures var v := AdvanceAttempt(setting, w, id);
      id in v.attempts ==> AttemptSound(setting, v.targets, v.attempts[id])
  {
    var a := w.attempts[id];
    var v := AdvanceAttempt(setting, w, id);
    AdvanceFrame(setting, w, id);
    AttemptKept(setting, w.targets, v.targets, a);
    if Verified(setting.digest, w.targets, a.plans[a.phase.n]) && !a.phase.CheckingSource? {
      OneMoreVerified(setting.digest, w.targets, a.plans, a.phase.n);
    }
  }

  lemma SwapKeepsBacking(
      setting: Setting, plans: seq<Plan>, back: bool, a: Rows, r: Result<string>, b: Rows, swapped: set<Plan>)
    requires TotalOrder(setting.le) && PlansWellFormed(plans) && CasStep(setting.le, plans, back, a, r, b)
    requires RowsBacked(a, swapped)
    ensures RowsBacked(b, if back then swapped else swapped + SwappedBy(plans, r))
  {
    var after := if back then swapped else swapped + SwappedBy(plans, r);
    forall slot | Held(b, slot).Some? ensures Backed(after, slot, Held(b, slot).value) {
      SwapEffect(setting.le, plans, back, a, r, b, slot);
      if !back && r == Success("UPDATED") && Introduces(plans, slot, Held(b, slot).value) {
        var p :| p in plans && SlotOf(p) == slot && p.targetKey == Held(b, slot).value;
        assert p in after;
      } else {
        var p :| p in swapped && SlotOf(p) == slot && p.targetKey == Held(a, slot).value;
        assert p in after;
      }
    }
  }

  lemma AttemptEnds(setting: Setting, w: World, id: nat)
    requires AttemptsSound(setting, w)
    ensures AttemptsSound(setting, Stopped(w, id))
  {
    OtherAttemptsKept(setting, w, Stopped(w, id), id);
  }

  lemma AttemptStarts(setting: Setting, w: World, id: nat, a: Attempt)
    requires AttemptsSound(setting, w) && AttemptSound(setting, w.targets, a)
    ensures AttemptsSound(setting, w.(attempts := w.attempts[id := a]))
  {
    OtherAttemptsKept(setting, w, w.(attempts := w.attempts[id := a]), id);
  }

  lemma AttemptAdvances(setting: Setting, w: World, id: nat)
    requires AttemptsSound(setting, w) && id in w.attempts && AtPlan(w.attempts[id])
    ensures AttemptsSound(setting, AdvanceAttempt(setting, w, id))
    ensures Extends(w.targets, AdvanceAttempt(setting, w, id).targets)
  {
    AdvanceFrame(setting, w, id);
    AdvanceKeepsAttempt(setting, w, id);
    OtherAttemptsKept(setting, w, AdvanceAttempt(setting, w, id), id);
  }

  lemma ForeignPutKeepsAttempts(setting: Setting, w: World, key: string, body: Body)
    requires AttemptsSound(setting, w) && key !in w.targets
    ensures AttemptsSound(setting, w.(targets := w.targets[key := body])) && Extends(w.targets, w.targets[key := body])
  {
    var targets := w.targets[key := body];
    forall id | id in w.attempts ensures AttemptSound(setting, targets, w.attempts[id]) {
      AttemptKept(setting, w.targets, targets, w.attempts[id]);
    }
  }

  lemma StepKeepsAttempts(setting: Setting, w: World, e: Event)
    requires AttemptsSound(setting, w) && Enabled(setting, w, e)
    ensures AttemptsSound(setting, Step(setting, w, e))
    ensures Extends(w.targets, Step(setting, w, e).targets)
  {
    match e
    case StartApply(id, plans) => AttemptStarts(setting, w, id, Attempt(plans, Inspecting(0)));
    case StartRollback(id, plans) => AttemptStarts(setting, w, id, Attempt(plans, CheckingSource(0)));
    case Advance(id) => AttemptAdvances(setting, w, id);
    case SwapForward(id, _, _) => AttemptEnds(setting, w, id);
    case SwapBack(id, _, _) => AttemptEnds(setting, w, id);
    case Crash(id) => AttemptEnds(setting, w, id);
    case ForeignPut(key, body) => ForeignPutKeepsAttempts(setting, w, key, body);
    case _ =>
  }

  lemma StepKeepsSwapped(setting: Setting, w: World, e: Event)
    requires AttemptsSound(setting, w) && SwappedSound(setting.digest, w.targets, w.swapped) && Enabled(setting, w, e)
    ensures SwappedSound(setting.digest, Step(setting, w, e).targets, Step(setting, w, e).swapped)
  {
    var v := Step(setting, w, e);
    StepKeepsAttempts(setting, w, e);
    SwappedKept(setting.digest, w.targets, v.targets, w.swapped);
    if e.SwapForward? {
      forall p | p in v.swapped ensures WellFormed(p) && Verified(setting.digest, v.targets, p) {
        if p !in w.swapped { SwapIsVerified(setting, w, e, p); }
      }
    } else if e.Advance? {
      AdvanceFrame(setting, w, e.id);
    }
  }

  lemma SwappedKept(digest: Digest, a: map<string, Body>, b: map<string, Body>, swapped: set<Plan>)
    requires Extends(a, b) && SwappedSound(digest, a, swapped)
    ensures SwappedSound(digest, b, swapped)
  {
  }

  /** Whoever reaches the swap has seen every target of its manifest, and they are all still there. */
  lemma SwapIsVerified(setting: Setting, w: World, e: Event, p: Plan)
    requires AttemptsSound(setting, w) && e.SwapForward? && Enabled(setting, w, e) && p in w.attempts[e.id].plans
    ensures WellFormed(p) && Verified(setting.digest, w.targets, p)
  {
    var plans := w.attempts[e.id].plans;
    var i :| 0 <= i < |plans| && plans[i] == p;
    assert AttemptSound(setting, w.targets, w.attempts[e.id]);
  }

  lemma StepKeepsBacking(setting: Setting, w: World, e: Event)
    requires TotalOrder(setting.le) && AttemptsSound(setting, w) && RowsBacked(w.rows, w.swapped)
    requires Enabled(setting, w, e)
    ensures RowsBacked(Step(setting, w, e).rows, Step(setting, w, e).swapped)
  {
    match e
    case SwapForward(id, result, rows) =>
      SwapKeepsBacking(setting, w.attempts[id].plans, false, w.rows, result, rows, w.swapped);
    case SwapBack(id, result, rows) =>
      SwapKeepsBacking(setting, w.attempts[id].plans, true, w.rows, result, rows, w.swapped);
    case ForeignWrite(rows) =>
      forall slot | Held(rows, slot).Some? ensures Backed(w.swapped, slot, Held(rows, slot).value) {
        assert NoNewReference(w.rows, rows, slot);
      }
    case Advance(id) => AdvanceFrame(setting, w, id);
    case _ =>
  }

  /** Every step keeps the invariant and never changes an object that is already there. */
  lemma StepKeepsInv(setting: Setting, w: World, e: Event)
    requires TotalOrder(setting.le) && Inv(setting, w) && Enabled(setting, w, e)
    ensures Inv(setting, Step(setting, w, e))
    ensures Extends(w.targets, Step(setting, w, e).targets)
  {
    StepKeepsAttempts(setting, w, e);
    StepKeepsSwapped(setting, w, e);
    StepKeepsBacking(setting, w, e);
    StepKeepsIndex(setting, w, e);
  }

  lemma StepKeepsIndex(setting: Setting, w: World, e: Event)
    requires TotalOrder(setting.le) && AttemptsSound(setting, w) && UniqueTrash(w.rows.tombstones)
    requires Enabled(setting, w, e)
    ensures UniqueTrash(Step(setting, w, e).rows.tombstones)
  {
    match e
    case SwapForward(id, result, rows) => PlansSwapUnique(setting, w, w.attempts[id], false, result, rows);
    case SwapBack(id, result, rows) => PlansSwapUnique(setting, w, w.attempts[id], true, result, rows);
    case Advance(id) => AdvanceChangesOneTarget(setting, w, id);
    case _ =>
  }

  lemma PlansSwapUnique(setting: Setting, w: World, a: Attempt, back: bool, result: Result<string>, rows: Rows)
    requires TotalOrder(setting.le) && AttemptSound(setting, w.targets, a) && UniqueTrash(w.rows.tombstones)
    requires CasStep(setting.le, a.plans, back, w.rows, result, rows)
    ensures UniqueTrash(rows.tombstones)
  {
    WellFormedIsProper(a.plans);
    SwapKeepsUnique(setting.le, a.plans, back, w.rows, result, rows);
  }

  // ---- Safety over whole executions -----------------------------------------------------------

  /** A database in which no reference has been migrated yet, and no attempt is under way. */
  ghost predicate Initial(w: World) {
    && w.attempts == map[] && w.swapped == {} && UniqueTrash(w.rows.tombstones)
    && forall slot :: Held(w.rows, slot) == None
  }

  lemma {:induction false} ExecutionKeepsInv(setting: Setting, w: World, events: seq<Event>, last: World)
    requires TotalOrder(setting.le) && Inv(setting, w) && Execution(setting, w, events, last)
    ensures Inv(setting, last) && Extends(w.targets, last.targets)
    decreases |events|
  {
    if events != [] {
      StepKeepsInv(setting, w, events[0]);
      ExecutionKeepsInv(setting, Step(setting, w, events[0]), events[1..], last);
    }
  }

  ghost predicate Reachable(setting: Setting, first: World, w: World) {
    Initial(first) && exists events :: Execution(setting, first, events, w)
  }

  lemma ReachableInv(setting: Setting, first: World, w: World)
    requires TotalOrder(setting.le) && Reachable(setting, first, w)
    ensures Inv(setting, w) && Extends(first.targets, w.targets)
  {
    var events :| Execution(setting, first, events, w);
    ExecutionKeepsInv(setting, first, events, w);
  }

  /** In every reachable state each migrated reference names an object that matches the plan that put it there. */
  lemma ReferencesAlwaysBacked(setting: Setting, first: World, w: World, slot: Slot)
    requires TotalOrder(setting.le) && Reachable(setting, first, w) && Held(w.rows, slot).Some?
    ensures var key := Held(w.rows, slot).value;
      && key in w.targets
      && exists p :: (
           && p in w.swapped && SlotOf(p) == slot && p.targetKey == key
           && setting.digest(w.targets[key]) == p.hash && |w.targets[key]| == p.size)
  {
    ReachableInv(setting, first, w);
    assert Backed(w.swapped, slot, Held(w.rows, slot).value);
  }

  ghost predicate Injective(digest: Digest) { forall a, b :: digest(a) == digest(b) ==> a == b }

  /**
   The same for any plan at all, swapped by this attempt, another one or none: where its migrated value
   stands, the object has the planned digest, and the planned size if that is the size of the planned content.
   */
  lemma MigratedValueNamesItsContent(setting: Setting, first: World, w: World, p: Plan, content: Body)
    requires TotalOrder(setting.le) && Reachable(setting, first, w) && WellFormed(p)
    requires Held(w.rows, SlotOf(p)) == Some(p.targetKey)
    requires Injective(setting.digest) && Matches(setting.digest, p, content)
    ensures p.targetKey in w.targets && w.targets[p.targetKey] == content
  {
    ReferencesAlwaysBacked(setting, first, w, SlotOf(p));
    var q :|
      && q in w.swapped && SlotOf(q) == SlotOf(p) && q.targetKey == p.targetKey
      && Verified(setting.digest, w.targets, q);
    ReachableInv(setting, first, w);
    TargetKeysDistinct(p, q);
  }

  /** A reference is migrated only by a forward swap that changed rows and whose targets are all verified. */
  lemma OnlyVerifiedSwapsMigrate(setting: Setting, w: World, e: Event, slot: Slot)
    requires TotalOrder(setting.le) && Inv(setting, w) && Enabled(setting, w, e)
    requires Held(Step(setting, w, e).rows, slot).Some? && Held(Step(setting, w, e).rows, slot) != Held(w.rows, slot)
    ensures e.SwapForward? && e.result == Success("UPDATED")
    ensures forall p :: p in w.attempts[e.id].plans ==> Verified(setting.digest, w.targets, p)
  {
    if e.SwapForward? {
      forall p | p in w.attempts[e.id].plans ensures Verified(setting.digest, w.targets, p) {
        SwapIsVerified(setting, w, e, p);
      }
    } else if e.SwapBack? {
      SwapEffect(setting.le, w.attempts[e.id].plans, true, w.rows, e.result, e.rows, slot);
    } else if e.Advance? {
      AdvanceFrame(setting, w, e.id);
    } else if e.ForeignWrite? {
      ForeignWriteAddsNothing(setting, w, e, slot);
    }
  }

  lemma ForeignWriteAddsNothing(setting: Setting, w: World, e: Event, slot: Slot)
    requires e.ForeignWrite? && Enabled(setting, w, e)
    ensures NoNewReference(w.rows, e.rows, slot)
  {
  }

  /** A forward swap that reports success leaves every plan's reference on a verified object. */
  lemma SuccessMigratesAll(setting: Setting, w: World, e: Event, p: Plan)
    requires TotalOrder(setting.le) && Inv(setting, w) && Enabled(setting, w, e)
    requires e.SwapForward? && e.result.Success? && p in w.attempts[e.id].plans
    ensures Held(Step(setting, w, e).rows, SlotOf(p)) == Some(p.targetKey)
    ensures Verified(setting.digest, Step(setting, w, e).targets, p)
  {
    var plans := w.attempts[e.id].plans;
    assert AttemptSound(setting, w.targets, w.attempts[e.id]);
    SwapIsVerified(setting, w, e, p);
    SwapAllOrNothing(setting.le, plans, false, w.rows, e.result, e.rows);
    SideHolds(setting.le, plans, e.rows, true, p);
  }

  // ---- Retrying -------------------------------------------------------------------------------

  predicate Obtainable(digest: Digest, sources: map<SourceId, Body>, targets: map<string, Body>, p: Plan) {
    if p.targetKey in targets then Matches(digest, p, targets[p.targetKey])
    else SourceOf(p) in sources && Matches(digest, p, sources[SourceOf(p)])
  }

  predicate AllObtainable(digest: Digest, sources: map<SourceId, Body>, targets: map<string, Body>, plans: seq<Plan>) {
    forall i :: 0 <= i < |plans| ==> Obtainable(digest, sources, targets, plans[i])
  }

  /** Nothing stands in the way of applying the manifest. */
  predicate Ready(setting: Setting, w: World, plans: seq<Plan>) {
    && PlanSetAccepted(setting.le, plans)
    && AllObtainable(setting.digest, w.sources, w.targets, plans)
    && CasResult(setting.le, plans, false, w.rows).Success?
  }

  /** The event belongs to an attempt, forward or back, at this manifest. */
  predicate OwnEvent(w: World, e: Event, plans: seq<Plan>) {
    match e
    case StartApply(_, ps) => ps == plans
    case StartRollback(_, ps) => ps == plans
    case Advance(id) => id in w.attempts && w.attempts[id].plans == plans
    case SwapForward(id, _, _) => id in w.attempts && w.attempts[id].plans == plans
    case SwapBack(id, _, _) => id in w.attempts && w.attempts[id].plans == plans
    case Crash(_) => true
    case _ => false
  }

  predicate KeysApart(plans: seq<Plan>) {
    forall i, j :: 0 <= i < j < |plans| ==> plans[i].targetKey != plans[j].targetKey
  }

  lemma PlansHaveOwnKeys(plans: seq<Plan>)
    requires IdentitiesDistinct(plans) && PlansWellFormed(plans)
    ensures KeysApart(plans)
  {
    forall i, j | 0 <= i < j < |plans| ensures plans[i].targetKey != plans[j].targetKey {
      if plans[i].targetKey == plans[j].targetKey { TargetKeysDistinct(plans[i], plans[j]); }
    }
  }

  lemma PutKeepsObtainable(
      digest: Digest, sources: map<SourceId, Body>, targets: map<string, Body>, plans: seq<Plan>, n: nat, body: Body)
    requires KeysApart(plans) && n < |plans| && Matches(digest, plans[n], body)
    requires AllObtainable(digest, sources, targets, plans)
    ensures AllObtainable(digest, sources, targets[plans[n].targetKey := body], plans)
  {
    forall i | 0 <= i < |plans| ensures Obtainable(digest, sources, targets[plans[n].targetKey := body], plans[i]) {
      assert i != n ==> plans[i].targetKey != plans[n].targetKey;
    }
  }

  lemma SwapKeepsSides(le: Collation, plans: seq<Plan>, back: bool, a: Rows, r: Result<string>, b: Rows)
    requires TotalOrder(le) && PlansWellFormed(plans) && UniqueTrash(a.tombstones)
    requires CasStep(le, plans, back, a, r, b) && CasResult(le, plans, false, a).Success?
    ensures CasResult(le, plans, false, b).Success?
  {
    WellFormedIsProper(plans);
    SwapAllOrNothing(le, plans, back, a, r, b);
    if r == Success("UPDATED") {
      if back { WayBackIsOpen(le, plans, back, a, r, b); } else { CasResultExact(le, plans, false, b); }
    }
  }

  lemma AdvanceChangesOneTarget(setting: Setting, w: World, id: nat)
    requires id in w.attempts && AtPlan(w.attempts[id])
    ensures var v, a := AdvanceAttempt(setting, w, id), w.attempts[id];
      && v.rows == w.rows && v.sources == w.sources
      && (|| v.targets == w.targets
          || (a.phase.Putting? && v.targets == w.targets[a.plans[a.phase.n].targetKey := a.phase.body]))
  {
  }

  lemma AdvanceKeepsObtainable(setting: Setting, w: World, id: nat)
    requires id in w.attempts && AtPlan(w.attempts[id]) && AttemptSound(setting, w.targets, w.attempts[id])
    requires IdentitiesDistinct(w.attempts[id].plans)
    requires AllObtainable(setting.digest, w.sources, w.targets, w.attempts[id].plans)
    ensures var v := AdvanceAttempt(setting, w, id);
      v.rows == w.rows && AllObtainable(setting.digest, v.sources, v.targets, w.attempts[id].plans)
  {
    var a, v := w.attempts[id], AdvanceAttempt(setting, w, id);
    AdvanceChangesOneTarget(setting, w, id);
    PlansHaveOwnKeys(a.plans);
    if v.targets != w.targets {
      PutKeepsObtainable(setting.digest, w.sources, w.targets, a.plans, a.phase.n, a.phase.body);
    }
  }

  /** A crashed attempt never spoils a retry: whatever attempts at a manifest do, it stays applicable. */
  lemma AttemptsKeepReady(setting: Setting, w: World, e: Event, plans: seq<Plan>)
    requires TotalOrder(setting.le) && AttemptsSound(setting, w) && UniqueTrash(w.rows.tombstones)
    requires Enabled(setting, w, e) && OwnEvent(w, e, plans) && Ready(setting, w, plans)
    ensures Ready(setting, Step(setting, w, e), plans)
  {
    match e
    case Advance(id) => AdvanceKeepsObtainable(setting, w, id);
    case SwapForward(_, r, rows) => SwapKeepsSides(setting.le, plans, false, w.rows, r, rows);
    case SwapBack(_, r, rows) => SwapKeepsSides(setting.le, plans, true, w.rows, r, rows);
    case _ =>
  }

  ghost predicate OwnExecution(setting: Setting, w: World, events: seq<Event>, last: World, plans: seq<Plan>)
    decreases |events|
  {
    if events == [] then w == last
    else
      && Enabled(setting, w, events[0]) && OwnEvent(w, events[0], plans)
      && OwnExecution(setting, Step(setting, w, events[0]), events[1..], last, plans)
  }

  lemma {:induction false} RetryAlwaysPossible(
      setting: Setting, w: World, events: seq<Event>, last: World, plans: seq<Plan>)
    requires TotalOrder(setting.le) && Inv(setting, w) && Ready(setting, w, plans)
    requires OwnExecution(setting, w, events, last, plans)
    ensures Ready(setting, last, plans)
    decreases |events|
  {
    if events != [] {
      StepKeepsInv(setting, w, events[0]);
      AttemptsKeepReady(setting, w, events[0], plans);
      RetryAlwaysPossible(setting, Step(setting, w, events[0]), events[1..], last, plans);
    }
  }
}
