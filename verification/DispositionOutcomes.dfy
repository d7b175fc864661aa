/**
 When a disposition is applied and what it leaves in the user table
 (apps/api/maintenance/auth/user-disposition.ts, apps/api/src/auth/bootstrap-super-admin.ts).
 */
module DispositionOutcomes {
  import opened Outcomes
  import opened UserDisposition

  // ---- LINK and DISABLE -----------------------------------------------------------------------

  /** The row is the one the entry names, as the entry expects it: address, version and linked identity. */
  predicate AsExpected(u: User, e: Entry) {
    && e.appUserId == Some(u.id) && u.normalizedEmail == Some(e.normalizedEmail)
    && e.expectedVersion == Some(u.authzVersion) && e.expectedLinked == u.authUserId
  }

  predicate Done(u: User, e: Entry) {
    && u.role == e.desiredRole && u.active == e.desiredActive
    && (e.action == Link ==> u.authUserId == e.providerUserId)
  }

  /** The change takes the last enabled super admin away. */
  predicate TakesLastAdmin(users: seq<User>, u: User, e: Entry) {
    u.role == SuperAdmin && (e.desiredRole != SuperAdmin || !e.desiredActive) && SuperAdmins(users) <= 1
  }

  function Written(u: User, e: Entry): User {
    if e.action == Disable then
      User(u.id, u.email, u.normalizedEmail, u.authUserId, u.role, false, true, u.inviteActive, u.authzVersion + 1)
    else
      User(
        u.id, Some(e.normalizedEmail), Some(e.normalizedEmail), e.providerUserId, e.desiredRole, e.desiredActive,
        !e.desiredActive, true, u.authzVersion + 1)
  }

  lemma ExpectedIsFound(users: seq<User>, i: nat, e: Entry)
    requires Unique(users) && i < |users| && AsExpected(users[i], e) && e.normalizedEmail != ""
    ensures Inspect(users, e.appUserId, e.normalizedEmail) == Success(Some(i))
  {
    assert users[i := users[i]] == users;
    InspectAgain(users, i, users[i], e.normalizedEmail);
  }

  /** The row an entry is applied to. */
  predicate AppliesTo(t: Tables, e: Entry, i: nat) {
    && i < |t.users| && AsExpected(t.users[i], e) && !Done(t.users[i], e)
    && !TakesLastAdmin(t.users, t.users[i], e) && Unique(t.users[i := Written(t.users[i], e)])
  }

  /**
   A LINK or DISABLE is applied exactly if the row it names is as expected and not done yet, some enabled super admin
   remains, and the new row keeps the unique indexes; then that row is rewritten and its sessions are closed.
   */
  lemma AppliesExactly(t: Tables, e: Entry)
    requires Unique(t.users) && ValidEntry(e) && e.action != Bootstrap && e.normalizedEmail != ""
    ensures Applies(t, e) <==> exists i: nat :: AppliesTo(t, e, i)
    ensures forall i: nat :: AppliesTo(t, e, i) ==>
      ApplyEntry(t, e) ==
        Success(Change(Applied, Tables(t.users[i := Written(t.users[i], e)], RevokeAll(t.sessions, t.users[i].id))))
  {
    if Applies(t, e) {
      var i := AppliedRow(t, e);
      assert AppliesTo(t, e, i);
    }
    forall i: nat | AppliesTo(t, e, i)
      ensures ApplyEntry(t, e) ==
        Success(Change(Applied, Tables(t.users[i := Written(t.users[i], e)], RevokeAll(t.sessions, t.users[i].id))))
    {
      ExpectedIsFound(t.users, i, e);
    }
  }

  /** Another row has the address or the identity a LINK is to write. */
  predicate TakenBy(users: seq<User>, e: Entry, i: nat, j: nat) {
    && j < |users| && j != i
    && (users[j].email == Some(e.normalizedEmail) || users[j].authUserId == e.providerUserId)
  }

  /** An expected LINK that takes no last administrator fails exactly if another row has its address or identity. */
  lemma LinkFailsExactly(t: Tables, e: Entry, i: nat)
    requires Unique(t.users) && ValidEntry(e) && e.action == Link && e.normalizedEmail != "" && i < |t.users|
    requires AsExpected(t.users[i], e) && !Done(t.users[i], e) && !TakesLastAdmin(t.users, t.users[i], e)
    ensures ApplyEntry(t, e) == Failure("UNIQUE_CONSTRAINT") <==> exists j: nat :: TakenBy(t.users, e, i, j)
  {
    ExpectedIsFound(t.users, i, e);
    var after := t.users[i := Written(t.users[i], e)];
    if j: nat :| TakenBy(t.users, e, i, j) {
      assert Clash(after[i], after[j]) && Clash(after[j], after[i]);
    } else {
      forall j, k | 0 <= j < k < |after| ensures !Clash(after[j], after[k]) {
        assert !Clash(t.users[j], t.users[k]) && !TakenBy(t.users, e, i, j) && !TakenBy(t.users, e, i, k);
      }
    }
  }

  predicate Strikes(t: Tables, e: Entry, i: nat) {
    i < |t.users| && AsExpected(t.users[i], e) && !Done(t.users[i], e) && TakesLastAdmin(t.users, t.users[i], e)
  }

  /** The protection strikes exactly for an expected change that takes the last enabled super admin away. */
  lemma ProtectedExactly(t: Tables, e: Entry)
    requires Unique(t.users) && ValidEntry(e) && e.action != Bootstrap && e.normalizedEmail != ""
    ensures ApplyEntry(t, e) == Failure("AUTH_LAST_SUPER_ADMIN_PROTECTED") <==> exists i: nat :: Strikes(t, e, i)
  {
    if i: nat :| Strikes(t, e, i) { ExpectedIsFound(t.users, i, e); }
    if ApplyEntry(t, e) == Failure("AUTH_LAST_SUPER_ADMIN_PROTECTED") {
      assert Strikes(t, e, Inspect(t.users, e.appUserId, e.normalizedEmail).value.value);
    }
  }

  // ---- BOOTSTRAP_SUPER_ADMIN ------------------------------------------------------------------

  /** An enabled super admin under this subject and address. */
  predicate Enthroned(u: User, subject: string, email: string) {
    && u.authUserId == Some(subject) && u.email == Some(email) && u.normalizedEmail == Some(email)
    && u.role == SuperAdmin && u.active && !u.deactivated && u.inviteActive
  }

  predicate OnlyAt(a: seq<User>, b: seq<User>, i: nat) {
    |a| <= |b| <= |a| + 1 && i < |b| && (|b| > |a| ==> i == |a|) && forall k :: 0 <= k < |a| && k != i ==> b[k] == a[k]
  }

  lemma SubjectIsAt(users: seq<User>, i: nat, subject: string)
    requires Unique(users) && i < |users| && users[i].authUserId == Some(subject)
    ensures Find(users, WithSubject(subject)) == Some(i)
  {
    forall j | 0 <= j < |users| && WithSubject(subject)(users[j]) ensures j == i {
      if j < i { assert Clash(users[j], users[i]); } else if i < j { assert Clash(users[i], users[j]); }
    }
    FindIs(users, i, WithSubject(subject));
  }

  /**
   A bootstrap that goes through needs the provider's agreement and leaves one row, new or old, as an enabled super
   admin under the subject and address of its entry, closes that user's sessions and touches nothing else.
   */
  lemma BootstrapEffect(t: Tables, e: Entry, agrees: bool, freshId: string) returns (i: nat)
    requires Unique(t.users) && BootstrapEntry(t, e, agrees, freshId).Success?
    ensures agrees && e.providerUserId.Some?
    ensures var after := BootstrapEntry(t, e, agrees, freshId).value.tables;
      && OnlyAt(t.users, after.users, i) && Enthroned(after.users[i], e.providerUserId.value, e.normalizedEmail)
      && after.sessions == RevokeAll(t.sessions, after.users[i].id)
      && (i < |t.users| ==> after.users[i].id == t.users[i].id) && (i == |t.users| ==> after.users[i].id == freshId)
  {
    var subject := e.providerUserId.value;
    var target := BootstrapTarget(t.users, subject, e.normalizedEmail);
    i := if target.value.Some? then target.value.value else |t.users|;
    var after := BootstrapRows(t.users, subject, e.normalizedEmail, freshId).value.1;
    SubjectIsAt(after, i, subject);
  }

  /** Repeating a bootstrap that went through finds it done. */
  lemma RepeatedBootstrap(t: Tables, e: Entry, freshId: string, otherId: string)
    requires Unique(t.users) && ValidEntry(e) && e.normalizedEmail != ""
    requires BootstrapEntry(t, e, true, freshId).Success?
    ensures var next := BootstrapEntry(t, e, true, freshId).value.tables;
      BootstrapEntry(next, e, true, otherId) == Success(Change(Unchanged, next))
  {
    var next := BootstrapEntry(t, e, true, freshId).value.tables;
    var subject, email := e.providerUserId.value, e.normalizedEmail;
    var i := BootstrapEffect(t, e, true, freshId);
    BootstrapGrows(t.users, subject, email, freshId);
    SubjectIsAt(next.users, i, subject);
    EmailIsAt(next.users, i, email);
    EnthronedIsFound(t.users, next.users, e, freshId, i);
    RevokedAlready(t.sessions, next.users[i].id);
  }

  lemma RevokedAlready(sessions: seq<Session>, user: string)
    ensures RevokeAll(RevokeAll(sessions, user), user) == RevokeAll(sessions, user)
  {
  }

  /** The first reading still finds the row of a bootstrap that went through, and finds it done. */
  lemma EnthronedIsFound(before: seq<User>, after: seq<User>, e: Entry, freshId: string, i: nat)
    requires Unique(before) && Unique(after) && ValidEntry(e) && e.action == Bootstrap && e.normalizedEmail != ""
    requires OnlyAt(before, after, i) && Enthroned(after[i], e.providerUserId.value, e.normalizedEmail)
    requires i < |before| ==> after[i].id == before[i].id
    requires |after| > |before| ==> e.appUserId == None
    requires i < |before| ==> e.appUserId == None || (forall j ::
      0 <= j < |before| && e.appUserId == Some(before[j].id) ==> j == i)
    ensures Inspect(after, e.appUserId, e.normalizedEmail) == Success(Some(i)) && IsDesired(after, Some(i), e)
  {
    EmailIsAt(after, i, e.normalizedEmail);
    if e.appUserId.Some? {
      var byId := Find(after, WithId(e.appUserId.value));
      if byId.Some? { assert before[byId.value].id == e.appUserId.value; }
    }
  }

  predicate HasEmail(u: User, email: string) { u.normalizedEmail == Some(email) }

  predicate HasSubject(u: User, subject: string) { u.authUserId == Some(subject) }

  /** Already an enabled super admin under this subject. */
  predicate Ruling(u: User, subject: string) { HasSubject(u, subject) && u.role == SuperAdmin && u.active }

  function Crowned(u: User, subject: string, email: string): User {
    User(u.id, Some(email), Some(email), Some(subject), SuperAdmin, true, false, true, u.authzVersion + 1)
  }

  predicate CrownFits(users: seq<User>, i: nat, subject: string, email: string)
    requires i < |users|
  {
    Enthroned(users[i], subject, email) || Unique(users[i := Crowned(users[i], subject, email)])
  }

  /** The row with the address is as the entry expects it or done, and no other identity claims it. */
  predicate OwnerPromotable(users: seq<User>, e: Entry, subject: string, i: nat) {
    && i < |users| && HasEmail(users[i], e.normalizedEmail)
    && (AsExpected(users[i], e) || (Ruling(users[i], subject) && IdIsNoOther(users, e, i)))
    && (users[i].authUserId == None || HasSubject(users[i], subject))
    && (forall j :: 0 <= j < |users| && HasSubject(users[j], subject) ==> j == i)
    && CrownFits(users, i, subject, e.normalizedEmail)
  }

  predicate IdIsNoOther(users: seq<User>, e: Entry, i: nat) {
    forall j :: 0 <= j < |users| && e.appUserId == Some(users[j].id) ==> j == i
  }

  predicate NobodyHasEmail(users: seq<User>, email: string) {
    forall j :: 0 <= j < |users| ==> !HasEmail(users[j], email)
  }

  predicate NobodyHasSubject(users: seq<User>, subject: string) {
    forall j :: 0 <= j < |users| ==> !HasSubject(users[j], subject)
  }

  /** Nobody has the address, and the row with the subject has none. */
  predicate NamelessPromotable(users: seq<User>, e: Entry, subject: string, i: nat) {
    && e.appUserId == None && NobodyHasEmail(users, e.normalizedEmail)
    && i < |users| && HasSubject(users[i], subject) && users[i].normalizedEmail == None
    && CrownFits(users, i, subject, e.normalizedEmail)
  }

  predicate Creatable(users: seq<User>, e: Entry, subject: string, freshId: string) {
    && e.appUserId == None && NobodyHasEmail(users, e.normalizedEmail) && NobodyHasSubject(users, subject)
    && Unique(users + [User(
         freshId, Some(e.normalizedEmail), Some(e.normalizedEmail), Some(subject), SuperAdmin, true, false, true, 1)])
  }

  /**
   A bootstrap goes through exactly if the provider agrees and the address belongs to a row the entry expects or that
   is done, with no other identity on either side; or to nobody, and the row is new or has the subject but no address.
   */
  lemma BootstrapExactly(t: Tables, e: Entry, agrees: bool, freshId: string)
    requires Unique(t.users) && ValidEntry(e) && e.action == Bootstrap && e.normalizedEmail != ""
    ensures var subject := e.providerUserId.value;
      BootstrapEntry(t, e, agrees, freshId).Success? <==>
        && agrees
        && (|| Creatable(t.users, e, subject, freshId)
            || (exists i: nat :: OwnerPromotable(t.users, e, subject, i))
            || exists i: nat :: NamelessPromotable(t.users, e, subject, i))
  {
    var subject, email := e.providerUserId.value, e.normalizedEmail;
    if i: nat :| i < |t.users| && HasEmail(t.users[i], email) {
      OwnedExactly(t, e, agrees, freshId, i);
    } else {
      assert NobodyHasEmail(t.users, email);
      UnownedExactly(t, e, agrees, freshId);
    }
  }

  lemma EmailIsAt(users: seq<User>, i: nat, email: string)
    requires Unique(users) && i < |users| && HasEmail(users[i], email)
    ensures Find(users, WithEmail(email)) == Some(i)
    ensures forall j :: 0 <= j < |users| && HasEmail(users[j], email) ==> j == i
  {
    forall j | 0 <= j < |users| && WithEmail(email)(users[j]) ensures j == i {
      if j < i { assert Clash(users[j], users[i]); } else if i < j { assert Clash(users[i], users[j]); }
    }
    FindIs(users, i, WithEmail(email));
    forall j | 0 <= j < |users| && HasEmail(users[j], email) ensures j == i { assert WithEmail(email)(users[j]); }
  }

  lemma OwnedExactly(t: Tables, e: Entry, agrees: bool, freshId: string, i: nat)
    requires Unique(t.users) && ValidEntry(e) && e.action == Bootstrap && e.normalizedEmail != ""
    requires i < |t.users| && HasEmail(t.users[i], e.normalizedEmail)
    ensures var subject := e.providerUserId.value;
      && (BootstrapEntry(t, e, agrees, freshId).Success? <==> agrees && OwnerPromotable(t.users, e, subject, i))
      && (forall k: nat :: OwnerPromotable(t.users, e, subject, k) ==> k == i)
      && !NobodyHasEmail(t.users, e.normalizedEmail)
  {
    var subject, email := e.providerUserId.value, e.normalizedEmail;
    EmailIsAt(t.users, i, email);
    OwnerInspected(t.users, e, i);
    OwnerTarget(t.users, subject, email, i);
    OwnerRows(t, e, agrees, freshId, i);
  }

  /** What the first reading of the table lets pass. */
  lemma OwnerInspected(users: seq<User>, e: Entry, i: nat)
    requires Unique(users) && ValidEntry(e) && e.action == Bootstrap && e.normalizedEmail != ""
    requires i < |users| && HasEmail(users[i], e.normalizedEmail)
    ensures
      var found := Inspect(users, e.appUserId, e.normalizedEmail);
      (found.Success? && (MatchesIdentity(users, found.value, e) || IsDesired(users, found.value, e))) <==>
        AsExpected(users[i], e) || (Ruling(users[i], e.providerUserId.value) && IdIsNoOther(users, e, i))
  {
    EmailIsAt(users, i, e.normalizedEmail);
    if e.appUserId.Some? {
      var byId := Find(users, WithId(e.appUserId.value));
      if byId.Some? { IdIsAt(users, byId.value, e.appUserId.value); }
    }
  }

  lemma IdIsAt(users: seq<User>, i: nat, id: string)
    requires Unique(users) && i < |users| && users[i].id == id
    ensures forall j :: 0 <= j < |users| && users[j].id == id ==> j == i
  {
    forall j | 0 <= j < |users| && users[j].id == id ensures j == i { SameRow(users, i, j); }
  }

  /** The row the bootstrap service settles on. */
  lemma OwnerTarget(users: seq<User>, subject: string, email: string, i: nat)
    requires Unique(users) && i < |users| && HasEmail(users[i], email)
    ensures BootstrapTarget(users, subject, email).Success? <==>
      && (users[i].authUserId == None || HasSubject(users[i], subject))
      && forall j :: 0 <= j < |users| && HasSubject(users[j], subject) ==> j == i
    ensures BootstrapTarget(users, subject, email).Success? ==> BootstrapTarget(users, subject, email).value == Some(i)
  {
    EmailIsAt(users, i, email);
    if j :| 0 <= j < |users| && HasSubject(users[j], subject) { SubjectIsAt(users, j, subject); }
    var bySubject := Find(users, WithSubject(subject));
    assert bySubject.None? ==> forall j :: 0 <= j < |users| ==> !WithSubject(subject)(users[j]);
  }

  lemma OwnerRows(t: Tables, e: Entry, agrees: bool, freshId: string, i: nat)
    requires Unique(t.users) && ValidEntry(e) && e.action == Bootstrap && e.normalizedEmail != ""
    requires i < |t.users| && HasEmail(t.users[i], e.normalizedEmail)
    ensures
      var subject, found := e.providerUserId.value, Inspect(t.users, e.appUserId, e.normalizedEmail);
      BootstrapEntry(t, e, agrees, freshId).Success? <==>
        && found.Success? && (MatchesIdentity(t.users, found.value, e) || IsDesired(t.users, found.value, e))
        && agrees && BootstrapTarget(t.users, subject, e.normalizedEmail).Success?
        && CrownFits(t.users, i, subject, e.normalizedEmail)
  {
    var subject := e.providerUserId.value;
    OwnerTarget(t.users, subject, e.normalizedEmail, i);
    if BootstrapRows(t.users, subject, e.normalizedEmail, freshId).Success? {
      RowsAreEnthroned(t.users, subject, e.normalizedEmail, freshId);
    }
  }

  /** After the service has run, its row is found as an enabled super admin. */
  lemma RowsAreEnthroned(users: seq<User>, subject: string, email: string, freshId: string)
    requires Unique(users) && BootstrapRows(users, subject, email, freshId).Success?
    ensures var after := BootstrapRows(users, subject, email, freshId).value.1;
      var at := Find(after, WithSubject(subject));
      at.Some? && IsEnabledSuperAdmin(after[at.value])
  {
    var target := BootstrapTarget(users, subject, email);
    var i := if target.value.Some? then target.value.value else |users|;
    SubjectIsAt(BootstrapRows(users, subject, email, freshId).value.1, i, subject);
  }

  lemma UnownedExactly(t: Tables, e: Entry, agrees: bool, freshId: string)
    requires Unique(t.users) && ValidEntry(e) && e.action == Bootstrap && e.normalizedEmail != ""
    requires NobodyHasEmail(t.users, e.normalizedEmail)
    ensures var subject := e.providerUserId.value;
      && (BootstrapEntry(t, e, agrees, freshId).Success? <==>
            && agrees
            && (|| Creatable(t.users, e, subject, freshId)
                || exists i: nat :: NamelessPromotable(t.users, e, subject, i)))
      && forall i: nat :: !OwnerPromotable(t.users, e, subject, i)
  {
    var subject, email := e.providerUserId.value, e.normalizedEmail;
    NobodyFound(t.users, email);
    UnownedPasses(t, e, agrees, freshId);
    if e.appUserId == None { UnownedRows(t.users, e, subject, freshId); }
  }

  lemma NobodyFound(users: seq<User>, email: string)
    requires NobodyHasEmail(users, email)
    ensures Find(users, WithEmail(email)).None?
  {
    assert forall j :: 0 <= j < |users| ==> !WithEmail(email)(users[j]);
  }

  /** An address nobody has passes for an entry without a row only. */
  lemma UnownedPasses(t: Tables, e: Entry, agrees: bool, freshId: string)
    requires Unique(t.users) && ValidEntry(e) && e.action == Bootstrap
    requires NobodyHasEmail(t.users, e.normalizedEmail)
    ensures BootstrapEntry(t, e, agrees, freshId).Success? <==>
      && agrees && e.appUserId == None
      && BootstrapRows(t.users, e.providerUserId.value, e.normalizedEmail, freshId).Success?
  {
    var subject, email := e.providerUserId.value, e.normalizedEmail;
    NobodyFound(t.users, email);
    if BootstrapRows(t.users, subject, email, freshId).Success? { RowsAreEnthroned(t.users, subject, email, freshId); }
    var found := Inspect(t.users, e.appUserId, email);
    assert found.Success? && found.value.Some? ==> !HasEmail(t.users[found.value.value], email);
  }

  lemma UnownedRows(users: seq<User>, e: Entry, subject: string, freshId: string)
    requires Unique(users) && e.appUserId == None && NobodyHasEmail(users, e.normalizedEmail)
    ensures BootstrapRows(users, subject, e.normalizedEmail, freshId).Success? <==>
      || Creatable(users, e, subject, freshId)
      || exists i: nat :: NamelessPromotable(users, e, subject, i)
  {
    NobodyFound(users, e.normalizedEmail);
    if i: nat :| i < |users| && HasSubject(users[i], subject) {
      SubjectIsAt(users, i, subject);
      NamelessExactly(users, e, subject, i);
    } else {
      assert forall j :: 0 <= j < |users| ==> !WithSubject(subject)(users[j]);
    }
  }

  lemma NamelessExactly(users: seq<User>, e: Entry, subject: string, i: nat)
    requires Unique(users) && e.appUserId == None && NobodyHasEmail(users, e.normalizedEmail)
    requires i < |users| && HasSubject(users[i], subject)
    ensures (exists k: nat :: NamelessPromotable(users, e, subject, k)) <==>
      users[i].normalizedEmail == None && CrownFits(users, i, subject, e.normalizedEmail)
  {
    if users[i].normalizedEmail == None && CrownFits(users, i, subject, e.normalizedEmail) {
      assert NamelessPromotable(users, e, subject, i);
    }
    forall k: nat | NamelessPromotable(users, e, subject, k) ensures k == i {
      SubjectIsAt(users, k, subject);
      SubjectIsAt(users, i, subject);
    }
  }
}
