/**
 Account dispositions: LINK, DISABLE and BOOTSTRAP_SUPER_ADMIN commands against the user table
 (apps/api/maintenance/auth/user-disposition.ts, apps/api/src/auth/bootstrap-super-admin.ts).

 All commands of a project take the same advisory lock first, so their transactions run one after
 another. A transaction that fails leaves the tables as they were. The identity provider's answer
 during a bootstrap is an input. Entries have passed `validateDispositionInput`.
 */
module UserDisposition {
  import opened Outcomes

  datatype Role = SuperAdmin | Admin | Member | Guest

  datatype User = User(
    id: string, email: Option<string>, normalizedEmail: Option<string>, authUserId: Option<string>, role: Role,
    active: bool, deactivated: bool, inviteActive: bool, authzVersion: nat)

  datatype Session = Session(user: string, revoked: bool)

  datatype Tables = Tables(users: seq<User>, sessions: seq<Session>)

  datatype Action = Link | Disable | Bootstrap

  datatype Entry = Entry(
    action: Action, appUserId: Option<string>, normalizedEmail: string, providerUserId: Option<string>,
    expectedLinked: Option<string>, expectedVersion: Option<nat>, desiredRole: Role, desiredActive: bool)

  datatype Outcome = Applied | Unchanged

  /** What the manifest validation guarantees of an entry. */
  predicate ValidEntry(e: Entry) {
    && (!e.action.Bootstrap? ==> e.appUserId.Some?) && (e.appUserId.None? <==> e.expectedVersion.None?)
    && (e.appUserId.None? ==> e.expectedLinked.None?) && e.providerUserId.Some?
    && (e.action.Bootstrap? ==> e.desiredRole == SuperAdmin && e.desiredActive)
    && (e.action.Disable? ==> !e.desiredActive)
  }

  // ---- The user table -------------------------------------------------------------------------

  predicate Clash(a: User, b: User) {
    || a.id == b.id || (a.email.Some? && a.email == b.email)
    || (a.normalizedEmail.Some? && a.normalizedEmail == b.normalizedEmail)
    || (a.authUserId.Some? && a.authUserId == b.authUserId)
  }

  /** The unique indexes of the table. */
  predicate Unique(users: seq<User>) { forall i, j :: 0 <= i < j < |users| ==> !Clash(users[i], users[j]) }

  function Find(users: seq<User>, test: User -> bool): (r: Option<nat>)
    ensures r.Some? ==> r.value < |users| && test(users[r.value])
    ensures r.None? ==> forall i :: 0 <= i < |users| ==> !test(users[i])
  {
    if users == [] then None
    else if test(users[|users| - 1]) then Some(|users| - 1) else Find(users[..|users| - 1], test)
  }

  function WithId(id: string): User -> bool { (u: User) => u.id == id }

  function WithEmail(email: string): User -> bool { (u: User) => u.normalizedEmail == Some(email) }

  function WithSubject(subject: string): User -> bool { (u: User) => u.authUserId == Some(subject) }

  /** The row an entry speaks of, by its identifier or else by its address. */
  function Inspect(users: seq<User>, appUserId: Option<string>, email: string): (r: Result<Option<nat>>)
    ensures r.Success? && r.value.Some? ==>
      && r.value.value < |users| && users[r.value.value].normalizedEmail.Some?
      && (WithEmail(email)(users[r.value.value]) || (appUserId.Some? && WithId(appUserId.value)(users[r.value.value])))
  {
    var byId := if appUserId.Some? then Find(users, WithId(appUserId.value)) else None;
    var byEmail := Find(users, WithEmail(email));
    if byId.Some? && byEmail.Some? && byId != byEmail then Failure("AUTH_DB_IDENTITY_CONFLICT")
    else
      var found := if byId.Some? then byId else byEmail;
      if found.None? then Success(None)
      else if users[found.value].normalizedEmail == None || users[found.value].normalizedEmail == Some("") then
        Failure("AUTH_DB_USER_STATE_INVALID")
      else Success(found)
  }

  predicate IsEnabledSuperAdmin(u: User) { u.role == SuperAdmin && u.active }

  function SuperAdmins(users: seq<User>): nat {
    if users == [] then 0
    else SuperAdmins(users[..|users| - 1]) + if IsEnabledSuperAdmin(users[|users| - 1]) then 1 else 0
  }

  // ---- Commands -------------------------------------------------------------------------------

  predicate MatchesIdentity(users: seq<User>, at: Option<nat>, e: Entry)
    requires at.Some? ==> at.value < |users|
  {
    if e.appUserId.None? then at.None?
    else
      && at.Some? && users[at.value].id == e.appUserId.value
      && users[at.value].normalizedEmail == Some(e.normalizedEmail)
      && Some(users[at.value].authzVersion) == e.expectedVersion && users[at.value].authUserId == e.expectedLinked
  }

  predicate IsDesired(users: seq<User>, at: Option<nat>, e: Entry)
    requires at.Some? ==> at.value < |users|
  {
    && at.Some? && users[at.value].normalizedEmail == Some(e.normalizedEmail)
    && users[at.value].role == e.desiredRole && users[at.value].active == e.desiredActive
    && (if e.action.Disable? then !users[at.value].active else users[at.value].authUserId == e.providerUserId)
  }

  predicate LastSuperAdminSafe(users: seq<User>, u: User, e: Entry) {
    u.role != SuperAdmin || (e.desiredRole == SuperAdmin && e.desiredActive) || SuperAdmins(users) > 1
  }

  function Updated(u: User, e: Entry): User {
    if e.action.Disable? then u.(active := false, deactivated := true, authzVersion := u.authzVersion + 1)
    else
      u.(authUserId := e.providerUserId, email := Some(e.normalizedEmail), normalizedEmail := Some(e.normalizedEmail),
         role := e.desiredRole, active := e.desiredActive, inviteActive := true, deactivated := !e.desiredActive,
         authzVersion := u.authzVersion + 1)
  }

  function RevokeAll(sessions: seq<Session>, user: string): (r: seq<Session>)
    ensures |r| == |sessions|
    ensures forall i :: 0 <= i < |r| ==>
      r[i].user == sessions[i].user && r[i].revoked == (sessions[i].revoked || sessions[i].user == user)
  {
    seq(|sessions|, i requires 0 <= i < |sessions| =>
      if sessions[i].user == user then sessions[i].(revoked := true) else sessions[i])
  }

  datatype Change = Change(outcome: Outcome, tables: Tables)

  function ApplyEntry(t: Tables, e: Entry): Result<Change> {
    if e.action.Bootstrap? then Failure("AUTH_DB_ATOMIC_ACTION_INVALID")
    else
      var found := Inspect(t.users, e.appUserId, e.normalizedEmail);
      if found.Failure? then Failure(found.code)
      else if IsDesired(t.users, found.value, e) then Success(Change(Unchanged, t))
      else if !MatchesIdentity(t.users, found.value, e) || found.value.None? || e.appUserId.None? then
        Failure("AUTH_DB_CAS_MISMATCH")
      else
        var i := found.value.value;
        if !LastSuperAdminSafe(t.users, t.users[i], e) then Failure("AUTH_LAST_SUPER_ADMIN_PROTECTED")
        else
          var users := t.users[i := Updated(t.users[i], e)];
          if !Unique(users) then Failure("UNIQUE_CONSTRAINT")
          else Success(Change(Applied, Tables(users, RevokeAll(t.sessions, t.users[i].id))))
  }

  /** The row a bootstrap speaks of, by provider subject or else by address. */
  function BootstrapTarget(users: seq<User>, subject: string, email: string): (r: Result<Option<nat>>)
    ensures r.Success? && r.value.Some? ==>
      r.value.value < |users| && (WithSubject(subject)(users[r.value.value]) || WithEmail(email)(users[r.value.value]))
    ensures r == Success(None) ==> forall i :: 0 <= i < |users| ==> users[i].authUserId != Some(subject)
  {
    var bySubject, byEmail := Find(users, WithSubject(subject)), Find(users, WithEmail(email));
    if bySubject.Some? && byEmail.Some? && bySubject != byEmail then Failure("BOOTSTRAP_IDENTITY_ALREADY_LINKED")
    else if && bySubject.Some? && users[bySubject.value].normalizedEmail.Some?
            && users[bySubject.value].normalizedEmail.value != email then Failure("BOOTSTRAP_SUBJECT_EMAIL_CONFLICT")
    else if && byEmail.Some? && users[byEmail.value].authUserId.Some?
            && users[byEmail.value].authUserId.value != subject then
      Failure("BOOTSTRAP_EMAIL_SUBJECT_CONFLICT")
    else Success(if bySubject.Some? then bySubject else byEmail)
  }

  function SuperAdminRow(u: User, subject: string, email: string): User {
    u.(authUserId := Some(subject), email := Some(email), normalizedEmail := Some(email),
       role := SuperAdmin, active := true,
       inviteActive := true, deactivated := false, authzVersion := u.authzVersion + 1)
  }

  function NewSuperAdmin(id: string, subject: string, email: string): User {
    User(id, Some(email), Some(email), Some(subject), SuperAdmin, true, false, true, 1)
  }

  predicate IsSuperAdminRow(u: User, subject: string, email: string) {
    && u.authUserId == Some(subject) && u.normalizedEmail == Some(email) && u.email == Some(email)
    && u.role == SuperAdmin && u.active && u.inviteActive && !u.deactivated
  }

  /** The bootstrap service inside the transaction: create, update or leave the row. */
  function BootstrapRows(
      users: seq<User>, subject: string, email: string, freshId: string): Result<(Outcome, seq<User>)> {
    var target := BootstrapTarget(users, subject, email);
    if target.Failure? then Failure(target.code)
    else if target.value.None? then
      var created := users + [NewSuperAdmin(freshId, subject, email)];
      if Unique(created) then Success((Applied, created)) else Failure("UNIQUE_CONSTRAINT")
    else
      var i := target.value.value;
      if IsSuperAdminRow(users[i], subject, email) then Success((Unchanged, users))
      else
        var updated := users[i := SuperAdminRow(users[i], subject, email)];
        if Unique(updated) then Success((Applied, updated)) else Failure("UNIQUE_CONSTRAINT")
  }

  function BootstrapEntry(t: Tables, e: Entry, providerAgrees: bool, freshId: string): Result<Change> {
    if !e.action.Bootstrap? || e.desiredRole != SuperAdmin || !e.desiredActive || e.providerUserId.None? then
      Failure("AUTH_BOOTSTRAP_SUPER_ADMIN_COMMAND_INVALID")
    else
      var found := Inspect(t.users, e.appUserId, e.normalizedEmail);
      if found.Failure? then Failure(found.code)
      else if !MatchesIdentity(t.users, found.value, e) && !IsDesired(t.users, found.value, e) then
        Failure("AUTH_DB_CAS_MISMATCH")
      else if !providerAgrees then Failure("BOOTSTRAP_PROVIDER_IDENTITY_MISMATCH")
      else
        var rows := BootstrapRows(t.users, e.providerUserId.value, e.normalizedEmail, freshId);
        if rows.Failure? then Failure(rows.code)
        else
          var at := Find(rows.value.1, WithSubject(e.providerUserId.value));
          if at.None? || !IsEnabledSuperAdmin(rows.value.1[at.value]) then
            Failure("AUTH_DB_BOOTSTRAP_POSTCONDITION_FAILED")
          else Success(Change(rows.value.0, Tables(rows.value.1, RevokeAll(t.sessions, rows.value.1[at.value].id))))
  }

  /** A command as it reaches the store. */
  datatype Command = Command(entry: Entry, providerAgrees: bool, freshId: string)

  function Execute(t: Tables, c: Command): Result<Change> {
    if c.entry.action.Bootstrap? then BootstrapEntry(t, c.entry, c.providerAgrees, c.freshId)
    else ApplyEntry(t, c.entry)
  }

  function After(t: Tables, c: Command): Tables { if Execute(t, c).Success? then Execute(t, c).value.tables else t }

  function Run(t: Tables, commands: seq<Command>): Tables
    decreases |commands|
  {
    if commands == [] then t else Run(After(t, commands[0]), commands[1..])
  }

  // ---- The store ------------------------------------------------------------------------------

  class DispositionStore {
    var users: seq<User>
    var sessions: seq<Session>

    constructor (t: Tables)
      ensures View() == t
    {
      users, sessions := t.users, t.sessions;
    }

    function View(): Tables
      reads this
    {
      Tables(users, sessions)
    }

    /** LINK and DISABLE, in one transaction. */
    method ApplyAtomic(e: Entry) returns (r: Result<Outcome>)
      modifies this
      ensures r == Mapped(ApplyEntry(old(View()), e))
      ensures View() == if r.Success? then ApplyEntry(old(View()), e).value.tables else old(View())
    {
      if e.action.Bootstrap? { return Failure("AUTH_DB_ATOMIC_ACTION_INVALID"); }
      var found := Inspect(users, e.appUserId, e.normalizedEmail);
      if found.Failure? { return Failure(found.code); }
      if IsDesired(users, found.value, e) { return Success(Unchanged); }
      if !MatchesIdentity(users, found.value, e) || found.value.None? || e.appUserId.None? {
        return Failure("AUTH_DB_CAS_MISMATCH");
      }
      var i := found.value.value;
      var current := users[i];
      if !LastSuperAdminSafe(users, current, e) { return Failure("AUTH_LAST_SUPER_ADMIN_PROTECTED"); }
      var saved := users;
      users := users[i := Updated(current, e)];
      if !Unique(users) {
        users := saved;
        return Failure("UNIQUE_CONSTRAINT");
      }
      RevokeSessions(current.id);
      r := Success(Applied);
    }

    /** BOOTSTRAP_SUPER_ADMIN, in one transaction. */
    method RunBootstrapSuperAdmin(e: Entry, providerAgrees: bool, freshId: string) returns (r: Result<Outcome>)
      modifies this
      ensures r == Mapped(BootstrapEntry(old(View()), e, providerAgrees, freshId))
      ensures View() ==
        if r.Success? then BootstrapEntry(old(View()), e, providerAgrees, freshId).value.tables else old(View())
    {
      if !e.action.Bootstrap? || e.desiredRole != SuperAdmin || !e.desiredActive || e.providerUserId.None? {
        return Failure("AUTH_BOOTSTRAP_SUPER_ADMIN_COMMAND_INVALID");
      }
      var found := Inspect(users, e.appUserId, e.normalizedEmail);
      if found.Failure? { return Failure(found.code); }
      if !MatchesIdentity(users, found.value, e) && !IsDesired(users, found.value, e) {
        return Failure("AUTH_DB_CAS_MISMATCH");
      }
      if !providerAgrees { return Failure("BOOTSTRAP_PROVIDER_IDENTITY_MISMATCH"); }
      var rows := BootstrapRows(users, e.providerUserId.value, e.normalizedEmail, freshId);
      if rows.Failure? { return Failure(rows.code); }
      var at := Find(rows.value.1, WithSubject(e.providerUserId.value));
      if at.None? || !IsEnabledSuperAdmin(rows.value.1[at.value]) {
        return Failure("AUTH_DB_BOOTSTRAP_POSTCONDITION_FAILED");
      }
      users := rows.value.1;
      RevokeSessions(rows.value.1[at.value].id);
      r := Success(rows.value.0);
    }

    /** Close every open session of a user. */
    method RevokeSessions(user: string)
      modifies this`sessions
      ensures sessions == RevokeAll(old(sessions), user)
    {
      for n := 0 to |sessions|
        invariant |sessions| == |old(sessions)|
        invariant forall i :: 0 <= i < n ==> sessions[i] == RevokeAll(old(sessions), user)[i]
        invariant forall i :: n <= i < |sessions| ==> sessions[i] == old(sessions)[i]
      {
        if sessions[n].user == user && !sessions[n].revoked {
          sessions := sessions[n := sessions[n].(revoked := true)];
        }
      }
    }
  }

  function Mapped(r: Result<Change>): Result<Outcome> {
    if r.Success? then Success(r.value.outcome) else Failure(r.code)
  }

  // ---- Counting super admins ------------------------------------------------------------------

  lemma {:induction false} CountAfterUpdate(users: seq<User>, i: nat, u: User)
    requires i < |users|
    ensures SuperAdmins(users[i := u]) == SuperAdmins(users)
      - (if IsEnabledSuperAdmin(users[i]) then 1 else 0) + if IsEnabledSuperAdmin(u) then 1 else 0
  {
    var n := |users| - 1;
    if i < n {
      CountAfterUpdate(users[..n], i, u);
      assert users[i := u][..n] == users[..n][i := u];
    } else {
      assert users[i := u][..n] == users[..n];
    }
  }

  lemma CountAppend(users: seq<User>, u: User)
    ensures SuperAdmins(users + [u]) == SuperAdmins(users) + if IsEnabledSuperAdmin(u) then 1 else 0
  {
    assert (users + [u])[..|users|] == users;
  }

  lemma ApplyKeepsSuperAdmin(t: Tables, e: Entry)
    requires ValidEntry(e) && ApplyEntry(t, e).Success? && SuperAdmins(t.users) >= 1
    ensures SuperAdmins(ApplyEntry(t, e).value.tables.users) >= 1
  {
    var found := Inspect(t.users, e.appUserId, e.normalizedEmail);
    if ApplyEntry(t, e).value.outcome == Applied {
      CountAfterUpdate(t.users, found.value.value, Updated(t.users[found.value.value], e));
    }
  }

  lemma BootstrapAddsSuperAdmin(users: seq<User>, subject: string, email: string, freshId: string)
    requires BootstrapRows(users, subject, email, freshId).Success?
    ensures SuperAdmins(BootstrapRows(users, subject, email, freshId).value.1) >= SuperAdmins(users)
  {
    var target := BootstrapTarget(users, subject, email);
    if target.value.None? {
      CountAppend(users, NewSuperAdmin(freshId, subject, email));
    } else {
      CountAfterUpdate(users, target.value.value, SuperAdminRow(users[target.value.value], subject, email));
    }
  }

  /** The last enabled super admin can be neither linked away nor disabled. */
  lemma StepKeepsSuperAdmin(t: Tables, c: Command)
    requires ValidEntry(c.entry) && SuperAdmins(t.users) >= 1
    ensures SuperAdmins(After(t, c).users) >= 1
  {
    if Execute(t, c).Success? {
      if c.entry.action.Bootstrap? {
        BootstrapAddsSuperAdmin(t.users, c.entry.providerUserId.value, c.entry.normalizedEmail, c.freshId);
      } else {
        ApplyKeepsSuperAdmin(t, c.entry);
      }
    }
  }

  lemma {:induction false} RunKeepsSuperAdmin(t: Tables, commands: seq<Command>)
    requires SuperAdmins(t.users) >= 1 && forall i :: 0 <= i < |commands| ==> ValidEntry(commands[i].entry)
    ensures SuperAdmins(Run(t, commands).users) >= 1
    decreases |commands|
  {
    if commands != [] {
      StepKeepsSuperAdmin(t, commands[0]);
      RunKeepsSuperAdmin(After(t, commands[0]), commands[1..]);
    }
  }

  // ---- Versions -------------------------------------------------------------------------------

  /** No row disappears or moves, none loses its identifier, and no version goes back. */
  predicate Grows(a: seq<User>, b: seq<User>) {
    |a| <= |b| && forall i :: 0 <= i < |a| ==> b[i].id == a[i].id && b[i].authzVersion >= a[i].authzVersion
  }

  /** Every change of a row raises its version. */
  predicate VersionsTell(a: seq<User>, b: seq<User>) {
    forall i :: 0 <= i < |a| && i < |b| && b[i] != a[i] ==> b[i].authzVersion == a[i].authzVersion + 1
  }

  lemma StepGrows(t: Tables, c: Command)
    ensures Grows(t.users, After(t, c).users) && VersionsTell(t.users, After(t, c).users)
    ensures Unique(t.users) ==> Unique(After(t, c).users)
  {
    if Execute(t, c).Success? {
      if c.entry.action.Bootstrap? {
        BootstrapGrows(t.users, c.entry.providerUserId.value, c.entry.normalizedEmail, c.freshId);
      } else {
        ApplyGrows(t, c.entry);
      }
    }
  }

  lemma ApplyGrows(t: Tables, e: Entry)
    requires ApplyEntry(t, e).Success?
    ensures var users := ApplyEntry(t, e).value.tables.users;
      Grows(t.users, users) && VersionsTell(t.users, users) && (Unique(t.users) ==> Unique(users))
  {
    if Applies(t, e) { var i := AppliedRow(t, e); }
  }

  lemma BootstrapGrows(users: seq<User>, subject: string, email: string, freshId: string)
    requires BootstrapRows(users, subject, email, freshId).Success?
    ensures var after := BootstrapRows(users, subject, email, freshId).value.1;
      Grows(users, after) && VersionsTell(users, after) && (Unique(users) ==> Unique(after))
  {
  }

  lemma {:induction false} RunGrows(t: Tables, commands: seq<Command>)
    ensures Grows(t.users, Run(t, commands).users) && (Unique(t.users) ==> Unique(Run(t, commands).users))
    decreases |commands|
  {
    if commands != [] {
      StepGrows(t, commands[0]);
      RunGrows(After(t, commands[0]), commands[1..]);
    }
  }

  // ---- Applied at most once -------------------------------------------------------------------

  predicate Applies(t: Tables, e: Entry) { ApplyEntry(t, e).Success? && ApplyEntry(t, e).value.outcome == Applied }

  /** The row an applied entry changed, before and after. */
  lemma AppliedRow(t: Tables, e: Entry) returns (i: nat)
    requires Applies(t, e)
    ensures i < |t.users| && Inspect(t.users, e.appUserId, e.normalizedEmail) == Success(Some(i))
    ensures e.appUserId == Some(t.users[i].id) && e.expectedVersion == Some(t.users[i].authzVersion)
    ensures t.users[i].normalizedEmail == Some(e.normalizedEmail)
    ensures ApplyEntry(t, e).value.tables.users == t.users[i := Updated(t.users[i], e)]
    ensures ApplyEntry(t, e).value.tables.sessions == RevokeAll(t.sessions, t.users[i].id)
  {
    i := Inspect(t.users, e.appUserId, e.normalizedEmail).value.value;
  }

  lemma SameRow(users: seq<User>, i: nat, j: nat)
    requires Unique(users) && i < |users| && j < |users| && users[i].id == users[j].id
    ensures i == j
  {
    if i < j { assert Clash(users[i], users[j]); } else if j < i { assert Clash(users[j], users[i]); }
  }

  lemma NeverAppliesLater(t: Tables, e: Entry, later: Tables)
    requires Unique(later.users) && Applies(t, e) && Grows(ApplyEntry(t, e).value.tables.users, later.users)
    ensures !Applies(later, e)
  {
    var i := AppliedRow(t, e);
    if Applies(later, e) {
      var j := AppliedRow(later, e);
      SameRow(later.users, i, j);
    }
  }

  /** In any run, one LINK or DISABLE entry is applied at most once, whatever other commands come between. */
  lemma AppliedAtMostOnce(t: Tables, e: Entry, commands: seq<Command>)
    requires Unique(t.users) && Applies(t, e)
    ensures !Applies(Run(ApplyEntry(t, e).value.tables, commands), e)
  {
    var next := ApplyEntry(t, e).value.tables;
    RunGrows(next, commands);
    NeverAppliesLater(t, e, Run(next, commands));
  }

  // ---- Repeating ------------------------------------------------------------------------------

  lemma FindIs(users: seq<User>, i: nat, test: User -> bool)
    requires i < |users| && test(users[i]) && forall j :: 0 <= j < |users| && test(users[j]) ==> j == i
    ensures Find(users, test) == Some(i)
  {
  }

  lemma InspectAgain(users: seq<User>, i: nat, u: User, email: string)
    requires i < |users| && Unique(users[i := u]) && u.id == users[i].id && u.normalizedEmail == Some(email)
    requires email != ""
    ensures Inspect(users[i := u], Some(u.id), email) == Success(Some(i))
  {
    var after := users[i := u];
    forall j | 0 <= j < |after| && (WithId(u.id)(after[j]) || WithEmail(email)(after[j])) ensures j == i {
      if j < i { assert Clash(after[j], after[i]); } else if i < j { assert Clash(after[i], after[j]); }
    }
    FindIs(after, i, WithId(u.id));
    FindIs(after, i, WithEmail(email));
  }

  /** Repeating an applied LINK finds it done. */
  lemma RepeatedLink(t: Tables, e: Entry)
    requires Applies(t, e) && e.action.Link? && e.normalizedEmail != ""
    ensures var next := ApplyEntry(t, e).value.tables; ApplyEntry(next, e) == Success(Change(Unchanged, next))
  {
    var i := AppliedRow(t, e);
    InspectAgain(t.users, i, Updated(t.users[i], e), e.normalizedEmail);
  }

  /**
   Repeating an applied DISABLE finds it done exactly when the entry names the role the user has;
   otherwise the entry is refused, because the version it expects is past.
   */
  lemma RepeatedDisable(t: Tables, e: Entry)
    requires Applies(t, e) && e.action.Disable? && ValidEntry(e) && e.normalizedEmail != ""
    ensures
      var next := ApplyEntry(t, e).value.tables;
      var i := Inspect(t.users, e.appUserId, e.normalizedEmail).value.value;
      ApplyEntry(next, e) ==
        if t.users[i].role == e.desiredRole then Success(Change(Unchanged, next)) else Failure("AUTH_DB_CAS_MISMATCH")
  {
    var i := AppliedRow(t, e);
    InspectAgain(t.users, i, Updated(t.users[i], e), e.normalizedEmail);
  }

  /** An entry with another role than the user's is a case in point. */
  lemma DisableWithOtherRole()
    ensures exists t: Tables, e: Entry :: (
      && Applies(t, e) && ValidEntry(e) && e.action.Disable?
      && ApplyEntry(ApplyEntry(t, e).value.tables, e) == Failure("AUTH_DB_CAS_MISMATCH"))
  {
    var user := User("user-0001", Some("a@b"), Some("a@b"), Some("sub-0001"), Member, true, false, true, 3);
    var t := Tables([user], []);
    var e := Entry(Disable, Some("user-0001"), "a@b", Some("sub-0001"), Some("sub-0001"), Some(3), Guest, false);
    SingleRow(user, "a@b");
    assert ApplyEntry(t, e).Success? && Applies(t, e);
    RepeatedDisable(t, e);
  }

  lemma SingleRow(u: User, email: string)
    requires u.normalizedEmail == Some(email) && email != ""
    ensures Inspect([u], Some(u.id), email) == Success(Some(0))
  {
    FindIs([u], 0, WithId(u.id));
    FindIs([u], 0, WithEmail(email));
  }

  /** After an applied command no session of its user is left open. */
  lemma AppliedRevokesSessions(t: Tables, e: Entry, k: nat)
    requires Applies(t, e) && k < |t.sessions|
    ensures var next := ApplyEntry(t, e).value.tables;
      && next.sessions[k].user == t.sessions[k].user
      && (e.appUserId == Some(t.sessions[k].user) ==> next.sessions[k].revoked)
      && (e.appUserId != Some(t.sessions[k].user) ==> next.sessions[k] == t.sessions[k])
  {
    var i := AppliedRow(t, e);
  }
}
