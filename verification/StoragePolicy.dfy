/**
 Row-level policies of the object store: plan, apply, roll back, and the access they give
 (apps/api/maintenance/storage/policy.ts).

 A policy table maps names to policies, as the database keeps names unique. The SQL of a plan is one
 transaction. Inventories do not read whether a policy is permissive or restrictive, so their digest is
 some function of the table without that column. An expression is either a planned object scope or
 some other text, whose meaning is an input, and so is which role has the privileges of which.
 */
module StoragePolicy {
  import opened Outcomes
  import opened Text

  const APP_ROLE := "storage_app"

  datatype Command = Select | Insert | Update | Delete | All

  /** `bucket_id = bucket AND (name LIKE one of the mutable prefixes OR name = readiness)`. */
  datatype Expression = Scope(bucket: string, readiness: Option<string>) | Other(text: string)

  datatype Policy = Policy(
    permissive: bool, command: Command, roles: seq<string>, condition: Option<Expression>, check: Option<Expression>)

  type Policies = map<string, Policy>

  datatype Target = Target(projectRef: string, bucket: string, readinessKey: string)

  // ---- Plans ----------------------------------------------------------------------------------

  predicate InMutableScope(name: string) {
    || StartsWith(name, "uploads/") || StartsWith(name, "reports/")
    || StartsWith(name, "trash/uploads/") || StartsWith(name, "trash/reports/")
  }

  predicate IsPrefixName(name: string) { name in {"uploads", "reports", "trash/uploads", "trash/reports"} }

  predicate TargetAdmitted(t: Target) { !IsPrefixName(t.readinessKey) && !InMutableScope(t.readinessKey) }

  const READ := "storage_app_read_exact_scope_v1"
  const INSERT := "storage_app_insert_exact_scope_v1"
  const DELETE := "storage_app_delete_exact_scope_v1"

  const MANAGED: set<string> := {READ, INSERT, DELETE}

  function Definition(t: Target, name: string): Policy
    requires name in MANAGED
  {
    if name == READ then Policy(true, Select, [APP_ROLE], Some(Scope(t.bucket, Some(t.readinessKey))), None)
    else if name == INSERT then Policy(true, Insert, [APP_ROLE], None, Some(Scope(t.bucket, None)))
    else Policy(true, Delete, [APP_ROLE], Some(Scope(t.bucket, None)), None)
  }

  function Definitions(t: Target): Policies { map name | name in MANAGED :: Definition(t, name) }

  predicate NamesClientRole(p: Policy) { APP_ROLE in p.roles || "anon" in p.roles || "authenticated" in p.roles }

  /** A policy as the inventory shows it. */
  function Shown(p: Policy): Policy { p.(permissive := true) }

  function Inventory(policies: Policies): Policies { map name | name in policies :: Shown(policies[name]) }

  /** No managed policy has drifted and no other policy names one of the client roles. */
  predicate PreconditionsHold(t: Target, policies: Policies) {
    && (forall name :: name in policies && name in MANAGED ==> Shown(policies[name]) == Definition(t, name))
    && (forall name :: name in policies && name !in MANAGED ==> !NamesClientRole(policies[name]))
  }

  function CheckPreconditions(
      t: Target, policies: Policies, digest: Policies -> string, expected: string): (r: Result<()>)
    ensures r.Success? <==> digest(Inventory(policies)) == expected && PreconditionsHold(t, policies)
  {
    if digest(Inventory(policies)) != expected then Failure("STORAGE_POLICY_BEFORE_DIGEST_MISMATCH")
    else if exists name :: name in policies && name in MANAGED && Shown(policies[name]) != Definition(t, name) then
      Failure("STORAGE_POLICY_MANAGED_POLICY_DRIFT")
    else if exists name :: name in policies && name !in MANAGED && NamesClientRole(policies[name]) then
      Failure("STORAGE_POLICY_UNEXPECTED_EXISTING_POLICY")
    else Success(())
  }

  // ---- SQL as steps on the table --------------------------------------------------------------

  datatype Statement = Drop(name: string) | Create(name: string, policy: Policy)

  function Exec(policies: Policies, statement: Statement): Policies {
    match statement
    case Drop(name) => policies - {name}
    case Create(name, policy) => policies[name := policy]
  }

  function ExecAll(policies: Policies, statements: seq<Statement>): Policies
    decreases |statements|
  {
    if statements == [] then policies else ExecAll(Exec(policies, statements[0]), statements[1..])
  }

  function Drops(): seq<Statement> { [Drop(READ), Drop(INSERT), Drop(DELETE)] }

  function CreateOne(t: Target, name: string, wanted: bool): seq<Statement>
    requires name in MANAGED
  {
    if wanted then [Create(name, Definition(t, name))] else []
  }

  function Creates(t: Target, read: bool, insert: bool, delete: bool): seq<Statement> {
    CreateOne(t, READ, read) + (CreateOne(t, INSERT, insert) + CreateOne(t, DELETE, delete))
  }

  /** The plan's SQL: drop the managed policies and create each of them again. */
  function ApplySql(t: Target): seq<Statement> {
    Drops() + Creates(t, true, true, true)
  }

  /** The rollback's SQL: drop the managed policies and create those that were there before. */
  function RollbackSql(t: Target, before: Policies): seq<Statement> {
    Drops() + Creates(t, READ in before, INSERT in before, DELETE in before)
  }

  lemma {:induction false} ExecAppend(policies: Policies, a: seq<Statement>, b: seq<Statement>)
    ensures ExecAll(policies, a + b) == ExecAll(ExecAll(policies, a), b)
    decreases |a|
  {
    if a == [] {
      assert a + b == b;
    } else {
      assert (a + b)[1..] == a[1..] + b;
      ExecAppend(Exec(policies, a[0]), a[1..], b);
    }
  }

  lemma ExecOne(policies: Policies, statement: Statement)
    ensures ExecAll(policies, [statement]) == Exec(policies, statement)
  {
    assert [statement][1..] == [];
  }

  lemma DropsRemoveManaged(policies: Policies)
    ensures ExecAll(policies, Drops()) == policies - MANAGED
  {
    assert Drops() == [Drop(READ)] + ([Drop(INSERT)] + [Drop(DELETE)]);
    ExecAppend(policies, [Drop(READ)], [Drop(INSERT)] + [Drop(DELETE)]);
    ExecOne(policies, Drop(READ));
    ExecAppend(policies - {READ}, [Drop(INSERT)], [Drop(DELETE)]);
    ExecOne(policies - {READ}, Drop(INSERT));
    ExecOne(policies - {READ} - {INSERT}, Drop(DELETE));
    assert policies - {READ} - {INSERT} - {DELETE} == policies - MANAGED;
  }

  function With(t: Target, policies: Policies, name: string, wanted: bool): Policies
    requires name in MANAGED
  {
    if wanted then policies[name := Definition(t, name)] else policies
  }

  lemma CreatesAdd(t: Target, policies: Policies, read: bool, insert: bool, delete: bool)
    ensures ExecAll(policies, Creates(t, read, insert, delete)) ==
      With(t, With(t, With(t, policies, READ, read), INSERT, insert), DELETE, delete)
  {
    var a, b, c := CreateOne(t, READ, read), CreateOne(t, INSERT, insert), CreateOne(t, DELETE, delete);
    var afterRead := With(t, policies, READ, read);
    var afterInsert := With(t, afterRead, INSERT, insert);
    ExecAppend(policies, a, b + c);
    ExecOne(policies, Create(READ, Definition(t, READ)));
    ExecAppend(afterRead, b, c);
    ExecOne(afterRead, Create(INSERT, Definition(t, INSERT)));
    ExecOne(afterInsert, Create(DELETE, Definition(t, DELETE)));
  }

  /** Applying the plan gives exactly the managed policies and leaves the others alone. */
  lemma ApplyIsExact(t: Target, policies: Policies)
    ensures ExecAll(policies, ApplySql(t)) == (policies - MANAGED) + Definitions(t)
  {
    ExecAppend(policies, Drops(), Creates(t, true, true, true));
    DropsRemoveManaged(policies);
    CreatesAdd(t, policies - MANAGED, true, true, true);
  }

  function Restored(t: Target, policies: Policies, before: Policies): Policies {
    (policies - MANAGED) + map name | name in MANAGED && name in before :: Definition(t, name)
  }

  lemma RollbackIs(t: Target, policies: Policies, before: Policies)
    ensures ExecAll(policies, RollbackSql(t, before)) == Restored(t, policies, before)
  {
    var r, i, d := READ in before, INSERT in before, DELETE in before;
    ExecAppend(policies, Drops(), Creates(t, r, i, d));
    DropsRemoveManaged(policies);
    CreatesAdd(t, policies - MANAGED, r, i, d);
  }

  lemma RestoredRows(t: Target, now: Policies, before: Policies)
    requires now - MANAGED == before - MANAGED
    ensures var restored := Restored(t, now, before);
      && restored.Keys == before.Keys
      && forall name :: name in before ==>
           restored[name] == if name in MANAGED then Definition(t, name) else before[name]
  {
    var restored := Restored(t, now, before);
    assert restored.Keys == before.Keys;
    forall name | name in before
      ensures restored[name] == if name in MANAGED then Definition(t, name) else before[name]
    {
      if name !in MANAGED { assert (now - MANAGED)[name] == (before - MANAGED)[name]; }
    }
  }

  /**
   Whether or not the apply took effect, the rollback restores the table exactly when every managed
   policy was as planned.
   */
  lemma RollbackRestores(t: Target, before: Policies, applied: bool)
    ensures
      var now := if applied then ExecAll(before, ApplySql(t)) else before;
      ExecAll(now, RollbackSql(t, before)) == before <==>
        forall name :: name in before && name in MANAGED ==> before[name] == Definition(t, name)
  {
    ApplyIsExact(t, before);
    var now := if applied then ExecAll(before, ApplySql(t)) else before;
    RollbackIs(t, now, before);
    assert now - MANAGED == before - MANAGED;
    RestoredRows(t, now, before);
  }

  /** And it restores what the inventory shows of the table exactly when no managed policy had visibly drifted. */
  lemma RollbackRestoresInventory(t: Target, before: Policies, now: Policies)
    requires now - MANAGED == before - MANAGED
    ensures Inventory(Restored(t, now, before)) == Inventory(before) <==>
      forall name :: name in before && name in MANAGED ==> Shown(before[name]) == Definition(t, name)
  {
    RestoredRows(t, now, before);
    var restored := Restored(t, now, before);
    assert Inventory(restored).Keys == Inventory(before).Keys;
    if Inventory(restored) == Inventory(before) {
      forall name | name in before && name in MANAGED ensures Shown(before[name]) == Definition(t, name) {
        assert Inventory(restored)[name] == Inventory(before)[name];
      }
    }
  }

  // ---- Execution ------------------------------------------------------------------------------

  /** What goes wrong with a writing request: nothing, before it takes effect, or after. */
  datatype Fault = NoFault | Refused | ReplyLost

  function AppliedTable(t: Target, policies: Policies): Policies { (policies - MANAGED) + Definitions(t) }

  class PolicyTable {
    var policies: Policies

    method ApplyExactPlan(t: Target, digest: Policies -> string, expected: string, fault: Fault)
      returns (r: Result<Policies>)
      modifies this
      ensures var ready := digest(Inventory(old(policies))) == expected && PreconditionsHold(t, old(policies));
        && policies == (if ready && !fault.Refused? then AppliedTable(t, old(policies)) else old(policies))
        && (r.Success? <==> ready && fault.NoFault?) && (r.Success? ==> r.value == policies)
    {
      var checked := CheckPreconditions(t, policies, digest, expected);
      if checked.Failure? { return Failure(checked.code); }
      if fault.Refused? { return Failure("STORAGE_POLICY_PROVIDER_STATUS_INVALID"); }
      ApplyIsExact(t, policies);
      policies := ExecAll(policies, ApplySql(t));
      if fault.ReplyLost? { return Failure("STORAGE_POLICY_PROVIDER_RESPONSE_INVALID"); }
      r := Success(policies);
    }

    /** The rollback is a request of its own, which may be refused or lose its reply. */
    method RestoreExactPolicies(t: Target, before: Policies, digest: Policies -> string, fault: Fault)
      returns (r: Result<()>)
      modifies this
      ensures policies ==
        if PreconditionsHold(t, before) && !fault.Refused? then Restored(t, old(policies), before) else old(policies)
      ensures r.Success? <==>
        PreconditionsHold(t, before) && fault.NoFault? && digest(Inventory(policies)) == digest(Inventory(before))
    {
      var checked := CheckPreconditions(t, before, digest, digest(Inventory(before)));
      if checked.Failure? { return Failure(checked.code); }
      if fault.Refused? { return Failure("STORAGE_POLICY_PROVIDER_STATUS_INVALID"); }
      RollbackIs(t, policies, before);
      policies := ExecAll(policies, RollbackSql(t, before));
      if fault.ReplyLost? { return Failure("STORAGE_POLICY_PROVIDER_RESPONSE_INVALID"); }
      if digest(Inventory(policies)) != digest(Inventory(before)) {
        return Failure("STORAGE_POLICY_ROLLBACK_VERIFY_FAILED");
      }
      r := Success(());
    }

    /**
     The whole execution. It passes with the plan in force. Otherwise, where it wrote at all, the plan stays in
     force exactly when the apply took effect and the rollback did not; if the rollback took effect, the
     inventory is as before, and so is the table unless a managed policy had been restrictive.
     */
    method ExecuteStoragePolicyPlan(
        t: Target, digest: Policies -> string, expected: string, dryRun: bool, fault: Fault, rollbackFault: Fault)
      returns (r: Result<string>)
      modifies this
      ensures
        var before := old(policies);
        var writes := !dryRun && digest(Inventory(before)) == expected && PreconditionsHold(t, before);
        && (r == Success("PASS") <==> writes && fault.NoFault?)
        && policies == Outcome(t, before, writes, fault, rollbackFault)
        && (r != Success("PASS") ==>
              && (policies == before <==> Unharmed(before, writes, fault, rollbackFault))
              && (Inventory(policies) == Inventory(before) <==>
                    InventoryUnharmed(before, writes, fault, rollbackFault)))
    {
      var before := policies;
      UnharmedExactly(t, before, fault, rollbackFault);
      var checked := CheckPreconditions(t, before, digest, expected);
      if checked.Failure? { return Failure(checked.code); }
      if dryRun { return Success("NOT_RUN"); }
      ManagedAfterApply(t, before);
      var applied := ApplyExactPlan(t, digest, expected, fault);
      if applied.Success? && ManagedExact(t, applied.value) { return Success("PASS"); }
      var restored := RestoreExactPolicies(t, before, digest, rollbackFault);
      r := Failure(if restored.Success? then "STORAGE_POLICY_APPLY_FAILED_ROLLED_BACK" else restored.code);
    }
  }

  /** The table an execution leaves. */
  function Outcome(t: Target, before: Policies, writes: bool, fault: Fault, rollbackFault: Fault): Policies {
    if !writes then before
    else if fault.NoFault? then AppliedTable(t, before)
    else
      var now := if fault.ReplyLost? then AppliedTable(t, before) else before;
      if rollbackFault.Refused? then now else Restored(t, now, before)
  }

  /** The apply took effect and its rollback did not. */
  predicate LeftInForce(writes: bool, fault: Fault, rollbackFault: Fault) {
    writes && fault.ReplyLost? && rollbackFault.Refused?
  }

  predicate NoneRestrictive(policies: Policies) {
    forall name :: name in policies && name in MANAGED ==> policies[name].permissive
  }

  /** Nothing took effect, or no managed policy was restrictive and the plan was undone, never made or there already. */
  predicate Unharmed(before: Policies, writes: bool, fault: Fault, rollbackFault: Fault) {
    || !writes || (fault.Refused? && rollbackFault.Refused?)
    || (NoneRestrictive(before) && (!LeftInForce(writes, fault, rollbackFault) || MANAGED <= before.Keys))
  }

  /** The plan was not left in force, or all managed policies were there already. */
  predicate InventoryUnharmed(before: Policies, writes: bool, fault: Fault, rollbackFault: Fault) {
    !LeftInForce(writes, fault, rollbackFault) || MANAGED <= before.Keys
  }

  lemma UnharmedExactly(t: Target, before: Policies, fault: Fault, rollbackFault: Fault)
    ensures PreconditionsHold(t, before) && !fault.NoFault? ==>
      var after := Outcome(t, before, true, fault, rollbackFault);
      && (after == before <==> Unharmed(before, true, fault, rollbackFault))
      && (Inventory(after) == Inventory(before) <==> InventoryUnharmed(before, true, fault, rollbackFault))
  {
    var now := if fault.ReplyLost? then AppliedTable(t, before) else before;
    assert now - MANAGED == before - MANAGED;
    if PreconditionsHold(t, before) {
      RestoredExactly(t, before, now);
      AppliedExactly(t, before);
      RollbackRestoresInventory(t, before, now);
    }
  }

  lemma RestoredExactly(t: Target, before: Policies, now: Policies)
    requires PreconditionsHold(t, before) && now - MANAGED == before - MANAGED
    ensures Restored(t, now, before) == before <==> NoneRestrictive(before)
  {
    RestoredRows(t, now, before);
    var restored := Restored(t, now, before);
    if NoneRestrictive(before) {
      forall name | name in before ensures restored[name] == before[name] {
        if name in MANAGED { assert Shown(before[name]) == Definition(t, name); }
      }
    }
  }

  /** Applying the plan changes nothing exactly when all its policies are there and permissive. */
  lemma AppliedExactly(t: Target, before: Policies)
    requires PreconditionsHold(t, before)
    ensures AppliedTable(t, before) == before <==> MANAGED <= before.Keys && NoneRestrictive(before)
    ensures Inventory(AppliedTable(t, before)) == Inventory(before) <==> MANAGED <= before.Keys
  {
    AppliedRows(t, before);
    var after := AppliedTable(t, before);
    assert Inventory(after).Keys == before.Keys + MANAGED && Inventory(before).Keys == before.Keys;
    if MANAGED <= before.Keys {
      forall name | name in before
        ensures name in after && Shown(after[name]) == Shown(before[name])
        ensures NoneRestrictive(before) ==> after[name] == before[name]
      {
        if name in MANAGED { assert Shown(before[name]) == Definition(t, name); }
      }
    }
  }

  /** The check after an apply: all managed policies are there and nothing has drifted. */
  predicate ManagedExact(t: Target, policies: Policies) { MANAGED <= policies.Keys && PreconditionsHold(t, policies) }

  lemma ManagedAfterApply(t: Target, before: Policies)
    requires PreconditionsHold(t, before)
    ensures ManagedExact(t, AppliedTable(t, before))
  {
  }

  // ---- Access ---------------------------------------------------------------------------------

  datatype Request = Request(role: string, command: Command, bucket: string, name: string)

  /** What is known about a database beside its policies: its role memberships and what other expressions mean. */
  datatype World = World(acts: (string, string) -> bool, meaning: (string, string, string) -> bool)

  predicate Admits(w: World, e: Expression, bucket: string, name: string) {
    match e
    case Scope(b, readiness) => bucket == b && (InMutableScope(name) || readiness == Some(name))
    case Other(text) => w.meaning(text, bucket, name)
  }

  predicate ActsAs(w: World, role: string, named: string) { role == named || named == "public" || w.acts(role, named) }

  predicate Applies(w: World, p: Policy, q: Request) {
    (exists i :: 0 <= i < |p.roles| && ActsAs(w, q.role, p.roles[i])) && (p.command == q.command || p.command == All)
  }

  function ExpressionFor(p: Policy, command: Command): Option<Expression> {
    if command == Insert && p.check.Some? then p.check else p.condition
  }

  /** A permissive policy lets a request through. */
  predicate Permits(w: World, p: Policy, q: Request) {
    var e := ExpressionFor(p, q.command);
    p.permissive && Applies(w, p, q) && e.Some? && Admits(w, e.value, q.bucket, q.name)
  }

  /** A restrictive policy stops a request. */
  predicate Forbids(w: World, p: Policy, q: Request) {
    var e := ExpressionFor(p, q.command);
    !p.permissive && Applies(w, p, q) && e.Some? && !Admits(w, e.value, q.bucket, q.name)
  }

  ghost predicate Allowed(w: World, policies: Policies, q: Request) {
    && (exists name :: name in policies && Permits(w, policies[name], q))
    && forall name :: name in policies ==> !Forbids(w, policies[name], q)
  }

  /** What the plan gives to whoever acts as the application role. */
  predicate Intended(w: World, t: Target, q: Request) {
    && ActsAs(w, q.role, APP_ROLE) && q.bucket == t.bucket
    && match q.command
       case Select => InMutableScope(q.name) || q.name == t.readinessKey
       case Insert => InMutableScope(q.name)
       case Delete => InMutableScope(q.name)
       case _ => false
  }

  /** An unmanaged policy lets the request through: for everybody, or for a role the client acts as. */
  ghost predicate OpenedOtherwise(w: World, policies: Policies, q: Request) {
    exists name :: name in policies && name !in MANAGED && Permits(w, policies[name], q)
  }

  ghost predicate Restricted(w: World, policies: Policies, q: Request) {
    exists name :: name in policies && name !in MANAGED && Forbids(w, policies[name], q)
  }

  /**
   With the plan in force a request is allowed exactly if it is intended or an unmanaged policy opens it,
   and no unmanaged restrictive policy stops it.
   */
  lemma AccessExactly(w: World, t: Target, before: Policies, q: Request)
    requires q.command != All
    ensures Allowed(w, AppliedTable(t, before), q) <==>
      (Intended(w, t, q) || OpenedOtherwise(w, before, q)) && !Restricted(w, before, q)
  {
    AppliedRows(t, before);
    PermittedExactly(w, t, before, AppliedTable(t, before), q);
    ForbiddenExactly(w, t, before, AppliedTable(t, before), q);
  }

  predicate HasRows(t: Target, before: Policies, after: Policies) {
    && after.Keys == before.Keys + MANAGED
    && forall name :: name in after ==> after[name] == if name in MANAGED then Definition(t, name) else before[name]
  }

  lemma AppliedRows(t: Target, before: Policies)
    ensures HasRows(t, before, AppliedTable(t, before))
  {
  }

  lemma PermittedExactly(w: World, t: Target, before: Policies, after: Policies, q: Request)
    requires HasRows(t, before, after) && q.command != All
    ensures (exists name :: name in after && Permits(w, after[name], q)) <==>
      Intended(w, t, q) || OpenedOtherwise(w, before, q)
  {
    if Intended(w, t, q) {
      IntendedIsPermitted(w, t, q);
      var name :| name in MANAGED && Permits(w, Definition(t, name), q);
      assert name in after;
    }
    if name :| name in before && name !in MANAGED && Permits(w, before[name], q) { assert name in after; }
    if name :| name in after && Permits(w, after[name], q) {
      if name in MANAGED { ManagedPermitsOnlyIntended(w, t, name, q); }
    }
  }

  lemma ForbiddenExactly(w: World, t: Target, before: Policies, after: Policies, q: Request)
    requires HasRows(t, before, after)
    ensures (exists name :: name in after && Forbids(w, after[name], q)) <==> Restricted(w, before, q)
  {
    if name :| name in before && name !in MANAGED && Forbids(w, before[name], q) { assert name in after; }
  }

  lemma IntendedIsPermitted(w: World, t: Target, q: Request)
    requires Intended(w, t, q)
    ensures exists name :: name in MANAGED && Permits(w, Definition(t, name), q)
  {
    var name := if q.command == Select then READ else if q.command == Insert then INSERT else DELETE;
    assert Definition(t, name).roles[0] == APP_ROLE;
    assert name in MANAGED && Permits(w, Definition(t, name), q);
  }

  lemma ManagedPermitsOnlyIntended(w: World, t: Target, name: string, q: Request)
    requires name in MANAGED && q.command != All && Permits(w, Definition(t, name), q)
    ensures Intended(w, t, q)
  {
  }

  /** The policy is for everybody, or for another role that the given one acts as. */
  predicate ReachesIndirectly(w: World, p: Policy, role: string) {
    exists i :: 0 <= i < |p.roles| && p.roles[i] != role && (p.roles[i] == "public" || w.acts(role, p.roles[i]))
  }

  /**
   So after an apply that met the preconditions, a browser role that does not act as the application role
   gets through exactly by an unmanaged policy that reaches it indirectly, which no precondition looks for.
   */
  lemma BrowserAccessExactly(w: World, t: Target, before: Policies, q: Request)
    requires PreconditionsHold(t, before) && q.role in {"anon", "authenticated"} && q.command != All
    requires !w.acts(q.role, APP_ROLE)
    ensures Allowed(w, AppliedTable(t, before), q) <==>
      && !Restricted(w, before, q)
      && exists name :: (
        && name in before && name !in MANAGED
        && ReachesIndirectly(w, before[name], q.role) && Permits(w, before[name], q))
  {
    AccessExactly(w, t, before, q);
    if OpenedOtherwise(w, before, q) {
      var name :| name in before && name !in MANAGED && Permits(w, before[name], q);
      var i :| 0 <= i < |before[name].roles| && ActsAs(w, q.role, before[name].roles[i]);
      assert before[name].roles[i] in before[name].roles;
      assert ReachesIndirectly(w, before[name], q.role);
    }
  }

  predicate UnderPrefix(name: string) {
    "uploads/" <= name || "reports/" <= name || "trash/uploads/" <= name || "trash/reports/" <= name
  }

  lemma ScopeIsPrefix(name: string)
    ensures InMutableScope(name) <==> UnderPrefix(name)
  {
  }

  /** And the application role gets exactly what the plan gives it, apart from such policies. */
  lemma ApplicationAccessExactly(w: World, t: Target, before: Policies, q: Request)
    requires PreconditionsHold(t, before) && q.role == APP_ROLE && q.command != All
    ensures Allowed(w, AppliedTable(t, before), q) <==>
      && !Restricted(w, before, q)
      && (|| (q.bucket == t.bucket && q.command in {Select, Insert, Delete} && UnderPrefix(q.name))
          || (q.bucket == t.bucket && q.command == Select && q.name == t.readinessKey)
          || exists name :: (
               && name in before && name !in MANAGED
               && ReachesIndirectly(w, before[name], APP_ROLE) && Permits(w, before[name], q)))
  {
    ScopeIsPrefix(q.name);
    AccessExactly(w, t, before, q);
    if OpenedOtherwise(w, before, q) {
      var name :| name in before && name !in MANAGED && Permits(w, before[name], q);
      var i :| 0 <= i < |before[name].roles| && ActsAs(w, q.role, before[name].roles[i]);
      assert before[name].roles[i] in before[name].roles;
      assert ReachesIndirectly(w, before[name], q.role);
    }
  }

  /** The readiness key can be read, and under the managed policies never inserted or deleted. */
  lemma ReadinessIsReadOnly(w: World, t: Target, command: Command)
    requires TargetAdmitted(t) && command != All
    ensures Allowed(w, Definitions(t), Request(APP_ROLE, command, t.bucket, t.readinessKey)) <==> command == Select
  {
    AccessExactly(w, t, map[], Request(APP_ROLE, command, t.bucket, t.readinessKey));
    assert AppliedTable(t, map[]) == Definitions(t);
  }
}
