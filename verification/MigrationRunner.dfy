/**
 Classifying a migration target and executing a pinned migration plan
 (apps/api/maintenance/migration/runner.ts).

 The child process, the inspections and the journal writes are inputs that may fail. The release has
 passed its validation, so its migration names are distinct.
 */
module MigrationRunner {
  import opened Outcomes

  datatype Migration = Migration(name: string, checksum: string)

  datatype EntryState = Applied | Failed | RolledBack

  datatype Entry = Entry(name: string, checksum: string, state: EntryState)

  datatype Snapshot = Snapshot(relations: seq<string>, types: seq<string>, historyExists: bool, history: seq<Entry>)

  datatype Release = Release(migrations: seq<Migration>, managedRelations: set<string>)

  datatype Classification = PristineReady | LegacyCollision | PartialOrDrift | ManagedExactChain

  datatype Analysis = Analysis(classification: Classification, applyRequired: bool, applied: nat, pending: nat)

  predicate DistinctNames(ms: seq<Migration>) { forall i, j :: 0 <= i < j < |ms| ==> ms[i].name != ms[j].name }

  function AppliedOf(history: seq<Entry>): (r: seq<Entry>)
    ensures |r| <= |history| && forall i :: 0 <= i < |r| ==> r[i].state == Applied
  {
    if history == [] then []
    else (if history[0].state == Applied then [history[0]] else []) + AppliedOf(history[1..])
  }

  /** The checksum listed under a name; in a map built from the list a later migration would win. */
  function ChecksumOf(ms: seq<Migration>, name: string): (r: Option<string>)
    ensures r.None? <==> forall i :: 0 <= i < |ms| ==> ms[i].name != name
    ensures r.Some? ==> exists i :: 0 <= i < |ms| && ms[i] == Migration(name, r.value)
  {
    if ms == [] then None
    else if ms[|ms| - 1].name == name then
      assert ms[|ms| - 1] == Migration(name, ms[|ms| - 1].checksum);
      Some(ms[|ms| - 1].checksum)
    else
      var rest := ms[..|ms| - 1];
      assert forall i :: 0 <= i < |rest| ==> ms[i] == rest[i];
      ChecksumOf(rest, name)
  }

  predicate MismatchAt(applied: seq<Entry>, ms: seq<Migration>, i: nat)
    requires i < |applied|
  {
    i >= |ms| || ms[i].name != applied[i].name
  }

  predicate PrefixMismatch(applied: seq<Entry>, ms: seq<Migration>) {
    exists i :: 0 <= i < |applied| && MismatchAt(applied, ms, i)
  }

  predicate Drifted(s: Snapshot, r: Release) {
    var applied := AppliedOf(s.history);
    || |applied| < |s.history|
    || (exists i :: 0 <= i < |applied| && ChecksumOf(r.migrations, applied[i].name).None?)
    || (exists i :: 0 <= i < |applied| && ChecksumOf(r.migrations, applied[i].name) != Some(applied[i].checksum))
    || PrefixMismatch(applied, r.migrations) || |applied| > |r.migrations|
    || (exists i :: 0 <= i < |s.relations| && s.relations[i] !in r.managedRelations)
    || (applied == [] && s.relations != [])
  }

  function Classify(s: Snapshot, r: Release): Analysis {
    var applied := |AppliedOf(s.history)|;
    var pending := if |r.migrations| > applied then |r.migrations| - applied else 0;
    if !s.historyExists then
      if s.relations == [] && s.types == [] then Analysis(PristineReady, true, applied, pending)
      else Analysis(LegacyCollision, false, applied, pending)
    else if Drifted(s, r) then Analysis(PartialOrDrift, false, applied, pending)
    else Analysis(ManagedExactChain, applied < |r.migrations|, applied, pending)
  }

  // ---- What the classification means ----------------------------------------------------------

  /** The history is, entry by entry, the beginning of the release chain. */
  predicate IsChainPrefix(history: seq<Entry>, ms: seq<Migration>) {
    && |history| <= |ms|
    && forall i :: 0 <= i < |history| ==> history[i] == Entry(ms[i].name, ms[i].checksum, Applied)
  }

  lemma {:induction false} AllApplied(history: seq<Entry>)
    ensures |AppliedOf(history)| == |history| <==> forall i :: 0 <= i < |history| ==> history[i].state == Applied
    ensures |AppliedOf(history)| == |history| ==> AppliedOf(history) == history
  {
    if history != [] {
      AllApplied(history[1..]);
      assert history == [history[0]] + history[1..];
      assert forall i :: 0 <= i < |history[1..]| ==> history[1..][i] == history[i + 1];
    }
  }

  lemma ChecksumAt(ms: seq<Migration>, i: nat)
    requires DistinctNames(ms) && i < |ms|
    ensures ChecksumOf(ms, ms[i].name) == Some(ms[i].checksum)
  {
    var found := ChecksumOf(ms, ms[i].name);
    assert found.Some?;
    var j :| 0 <= j < |ms| && ms[j] == Migration(ms[i].name, found.value);
    if j < i { assert ms[j].name != ms[i].name; } else if i < j { assert ms[i].name != ms[j].name; }
  }

  lemma PrefixIsNotDrift(s: Snapshot, r: Release)
    requires DistinctNames(r.migrations) && IsChainPrefix(s.history, r.migrations)
    ensures AppliedOf(s.history) == s.history && !PrefixMismatch(s.history, r.migrations)
    ensures forall i :: 0 <= i < |s.history| ==>
      ChecksumOf(r.migrations, s.history[i].name) == Some(s.history[i].checksum)
  {
    AllApplied(s.history);
    forall i | 0 <= i < |s.history| ensures ChecksumOf(r.migrations, s.history[i].name) == Some(s.history[i].checksum) {
      ChecksumAt(r.migrations, i);
    }
  }

  lemma NoDriftIsPrefix(s: Snapshot, r: Release)
    requires DistinctNames(r.migrations) && |AppliedOf(s.history)| == |s.history|
    requires !PrefixMismatch(s.history, r.migrations)
    requires forall i :: 0 <= i < |s.history| ==>
      ChecksumOf(r.migrations, s.history[i].name) == Some(s.history[i].checksum)
    ensures IsChainPrefix(s.history, r.migrations)
  {
    AllApplied(s.history);
    PrefixTestSuffices(s.history, r.migrations);
    forall i | 0 <= i < |s.history|
      ensures i < |r.migrations| && s.history[i] == Entry(r.migrations[i].name, r.migrations[i].checksum, Applied)
    {
      assert !MismatchAt(s.history, r.migrations, i);
      ChecksumAt(r.migrations, i);
    }
  }

  /**
   A target is a managed exact chain exactly when its history is a prefix of the release chain with equal
   checksums and no failed entry, and its relations are managed ones, none of them before the first migration.
   */
  lemma ManagedExactly(s: Snapshot, r: Release)
    requires DistinctNames(r.migrations)
    ensures Classify(s, r).classification == ManagedExactChain <==>
      && s.historyExists && IsChainPrefix(s.history, r.migrations)
      && (forall i :: 0 <= i < |s.relations| ==> s.relations[i] in r.managedRelations)
      && (s.history == [] ==> s.relations == [])
  {
    AllApplied(s.history);
    if IsChainPrefix(s.history, r.migrations) { PrefixIsNotDrift(s, r); }
    if s.historyExists && !Drifted(s, r) { NoDriftIsPrefix(s, r); }
  }

  /** The tests for unknown names and for a history longer than the chain add nothing to the prefix test. */
  lemma PrefixTestSuffices(applied: seq<Entry>, ms: seq<Migration>)
    requires !PrefixMismatch(applied, ms)
    ensures |applied| <= |ms| && forall i :: 0 <= i < |applied| ==> ChecksumOf(ms, applied[i].name).Some?
  {
    var n := |applied| - 1;
    if n >= 0 { assert !MismatchAt(applied, ms, n); }
    forall i | 0 <= i < |applied| ensures ChecksumOf(ms, applied[i].name).Some? {
      assert !MismatchAt(applied, ms, i);
    }
  }

  /**
   The other classifications: without a history a target is pristine exactly if nothing is there, and otherwise a
   collision; with one it has drifted exactly if it is not a managed chain. Something is to be applied exactly
   to a pristine target and to a managed chain that is shorter than the release.
   */
  lemma ClassifiedExactly(s: Snapshot, r: Release)
    requires DistinctNames(r.migrations)
    ensures var a := Classify(s, r);
      && (a.classification == PristineReady <==> !s.historyExists && s.relations == [] && s.types == [])
      && (a.classification == LegacyCollision <==> !s.historyExists && (s.relations != [] || s.types != []))
      && (a.classification == PartialOrDrift <==> s.historyExists && a.classification != ManagedExactChain)
      && (a.applyRequired <==>
            || a.classification == PristineReady
            || (a.classification == ManagedExactChain && |s.history| < |r.migrations|))
      && (a.classification == ManagedExactChain ==>
            a.applied == |s.history| && a.applied + a.pending == |r.migrations|)
  {
    AllApplied(s.history);
    ManagedExactly(s, r);
  }

  // ---- The journal ----------------------------------------------------------------------------

  datatype JournalState = IntentRecorded | ChildFailed | AppliedPendingVerify | Verified

  function Transition(from: JournalState, next: JournalState): Result<JournalState> {
    var allowed := if from == IntentRecorded then {ChildFailed, AppliedPendingVerify}
                   else if from == AppliedPendingVerify then {ChildFailed, Verified} else {};
    if next in allowed then Success(next) else Failure("MIGRATION_JOURNAL_TRANSITION_INVALID")
  }

  /** The three ways a journal can end. */
  predicate LegalPath(states: seq<JournalState>) {
    || states == [IntentRecorded, ChildFailed]
    || states == [IntentRecorded, AppliedPendingVerify, ChildFailed]
    || states == [IntentRecorded, AppliedPendingVerify, Verified]
  }

  predicate LegalStart(states: seq<JournalState>) {
    states == [] || states == [IntentRecorded] || states == [IntentRecorded, AppliedPendingVerify] || LegalPath(states)
  }

  datatype Child = Exited(code: int) | TimedOut | NotStarted

  class JournalFile {
    var states: seq<JournalState>

    constructor ()
      ensures states == []
    {
      states := [];
    }

    /** Append one record, unless the write fails. */
    method Write(state: JournalState, ok: bool) returns (written: bool)
      modifies this
      ensures written == ok && states == if ok then old(states) + [state] else old(states)
    {
      if ok { states := states + [state]; }
      written := ok;
    }
  }

  /** The result counts as verified: nothing is left to apply. */
  predicate Conclusive(verification: Result<Analysis>) {
    && verification.Success? && verification.value.classification == ManagedExactChain
    && !verification.value.applyRequired && verification.value.pending == 0
  }

  /** Run the child and verify; `writes` says which journal writes succeed. */
  method ExecutePinnedPlan(child: Child, verification: Result<Analysis>, writes: nat -> bool, journal: JournalFile)
    returns (r: Result<string>)
    requires journal.states == []
    modifies journal
    ensures LegalStart(journal.states)
    ensures r.Success? ==>
      journal.states == [IntentRecorded, AppliedPendingVerify, Verified] && Conclusive(verification)
    ensures writes(0) && writes(1) && writes(2) ==>
      && LegalPath(journal.states) && (r.Success? <==> child == Exited(0) && Conclusive(verification))
  {
    var state := IntentRecorded;
    var written := journal.Write(state, writes(0));
    if !written { return Failure("JOURNAL"); }
    if child != Exited(0) {
      state := Transition(state, ChildFailed).value;
      written := journal.Write(state, writes(1));
      return Failure(
        if child.TimedOut? then "MIGRATION_CHILD_TIMEOUT"
        else if child.NotStarted? then "MIGRATION_CHILD_START_FAILED"
        else "MIGRATION_CHILD_FAILED");
    }
    state := Transition(state, AppliedPendingVerify).value;
    written := journal.Write(state, writes(1));
    if !written { return Failure("JOURNAL"); }
    if !Conclusive(verification) {
      state := Transition(state, ChildFailed).value;
      written := journal.Write(state, writes(2));
      return Failure("MIGRATION_POST_VERIFY_FAILED");
    }
    state := Transition(state, Verified).value;
    written := journal.Write(state, writes(2));
    if !written { return Failure("JOURNAL"); }
    r := Success("VERIFIED");
  }

  /** Every migration of the release, applied in order. */
  function CompleteHistory(ms: seq<Migration>): seq<Entry> {
    seq(|ms|, i requires 0 <= i < |ms| => Entry(ms[i].name, ms[i].checksum, Applied))
  }

  /** An inspection counts as verified exactly if the history is the whole release chain over managed relations. */
  lemma VerifiedMeansComplete(s: Snapshot, r: Release)
    requires DistinctNames(r.migrations)
    ensures Conclusive(Success(Classify(s, r))) <==>
      && s.historyExists && s.history == CompleteHistory(r.migrations)
      && (forall i :: 0 <= i < |s.relations| ==> s.relations[i] in r.managedRelations)
      && (s.history == [] ==> s.relations == [])
  {
    ManagedExactly(s, r);
    AllApplied(s.history);
    var whole := CompleteHistory(r.migrations);
    assert IsChainPrefix(s.history, r.migrations) && |s.history| == |r.migrations| ==> s.history == whole;
  }

  /** Journals only ever take legal steps: from each state exactly the listed ones can follow. */
  lemma TransitionsAreLegal(from: JournalState, next: JournalState)
    ensures Transition(from, next).Success? <==>
      exists path: seq<JournalState>, i :: (
        LegalPath(path) && 0 <= i < |path| - 1 && path[i] == from && path[i + 1] == next)
  {
    var a := [IntentRecorded, ChildFailed];
    var b := [IntentRecorded, AppliedPendingVerify, ChildFailed];
    var c := [IntentRecorded, AppliedPendingVerify, Verified];
    assert LegalPath(a) && a[0] == IntentRecorded && a[1] == ChildFailed;
    assert LegalPath(b) && b[0] == IntentRecorded && b[1] == AppliedPendingVerify && b[2] == ChildFailed;
    assert LegalPath(c) && c[1] == AppliedPendingVerify && c[2] == Verified;
  }
}
