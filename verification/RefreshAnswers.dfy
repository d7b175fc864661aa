/**
 What the answers to a provider refresh tell, and which answers end the session
 (`refresh` and `runRefreshTransaction` in apps/api/src/auth/auth.service.ts).
 */
module RefreshAnswers {
  import opened Outcomes
  import opened ProviderRefresh

  // ---- What has happened to a request ---------------------------------------------------------

  predicate AnsweredOnce(s: System) { forall id :: id in s.refreshes ==> id !in s.answers }

  predicate ReadFit(past: seq<Event>, id: nat) { Read(id, false, true) in past }

  predicate Rotation(past: seq<Event>, id: nat) { ReadFit(past, id) && Provider(id, Rotated) in past }

  predicate Genuinely(past: seq<Event>, id: nat) { Rotation(past, id) && Verify(id, Genuine) in past }

  /** What has happened by the time a refresh is in a phase. */
  predicate PhaseTold(past: seq<Event>, id: nat, p: Phase) {
    && (Admitted(p) ==> ReadFit(past, id))
    && (p.Verifying? ==> Rotation(past, id))
    && (p.Stamping? || p.Committing? ==> Genuinely(past, id))
    && (p.Committing? ==> Stamp(id) in past)
  }

  /** What has happened by the time a refresh is answered. */
  predicate AnswerTold(past: seq<Event>, id: nat, a: Answer) {
    && (a.Renewed? ==> Genuinely(past, id) && Stamp(id) in past && Commit(id) in past)
    && (a.Recovery? ==>
          || (Rotation(past, id) && Verify(id, VerifierDown) in past)
          || (Genuinely(past, id) && Abort(id) in past))
  }

  /** The new tokens are genuine: from here on they reach the caller. */
  predicate Recoverable(s: System, id: nat) {
    || (id in s.refreshes && (s.refreshes[id].Stamping? || s.refreshes[id].Committing?))
    || (id in s.answers && (s.answers[id] == Renewed || s.answers[id] == Recovery))
  }

  ghost predicate DownTold(past: seq<Event>, s: System) {
    forall id :: Verify(id, VerifierDown) in past ==> id in s.answers && s.answers[id] == Recovery
  }

  ghost predicate GenuineTold(past: seq<Event>, s: System) {
    forall id :: Verify(id, Genuine) in past ==> Recoverable(s, id)
  }

  ghost predicate AbortTold(past: seq<Event>, s: System) {
    forall id :: Abort(id) in past ==> id in s.answers && s.answers[id] != Renewed
  }

  ghost predicate CommitTold(past: seq<Event>, s: System) {
    forall id :: Commit(id) in past ==> id in s.answers && s.answers[id] == Renewed
  }

  predicate PhasesTold(past: seq<Event>, s: System) {
    forall id :: id in s.refreshes ==> PhaseTold(past, id, s.refreshes[id])
  }

  predicate AnswersTold(past: seq<Event>, s: System) {
    forall id :: id in s.answers ==> AnswerTold(past, id, s.answers[id])
  }

  ghost predicate Told(past: seq<Event>, s: System) {
    && AnsweredOnce(s) && PhasesTold(past, s) && AnswersTold(past, s)
    && CommitTold(past, s) && DownTold(past, s) && GenuineTold(past, s) && AbortTold(past, s)
  }

  lemma ToldLater(past: seq<Event>, more: seq<Event>, id: nat)
    requires forall x :: x in past ==> x in more
    ensures forall p :: PhaseTold(past, id, p) ==> PhaseTold(more, id, p)
    ensures forall a :: AnswerTold(past, id, a) ==> AnswerTold(more, id, a)
  {
  }

  lemma DownStays(past: seq<Event>, s: System, e: Event)
    requires AnsweredOnce(s) && DownTold(past, s) && Enabled(s, e)
    ensures DownTold(past + [e], Step(s, e))
  {
    forall id | Verify(id, VerifierDown) in past + [e]
      ensures id in Step(s, e).answers && Step(s, e).answers[id] == Recovery
    {
      if e != Verify(id, VerifierDown) { assert Verify(id, VerifierDown) in past; }
    }
  }

  lemma GenuineStays(past: seq<Event>, s: System, e: Event)
    requires AnsweredOnce(s) && GenuineTold(past, s) && Enabled(s, e)
    ensures GenuineTold(past + [e], Step(s, e))
  {
    forall id | Verify(id, Genuine) in past + [e] ensures Recoverable(Step(s, e), id) {
      if e != Verify(id, Genuine) {
        assert Verify(id, Genuine) in past;
        RecoverableStays(s, e, id);
      }
    }
  }

  lemma RecoverableStays(s: System, e: Event, id: nat)
    requires AnsweredOnce(s) && Recoverable(s, id) && Enabled(s, e)
    ensures Recoverable(Step(s, e), id)
  {
  }

  lemma AbortStays(past: seq<Event>, s: System, e: Event)
    requires AnsweredOnce(s) && AbortTold(past, s) && Enabled(s, e)
    ensures AbortTold(past + [e], Step(s, e))
  {
    forall id | Abort(id) in past + [e] ensures id in Step(s, e).answers && Step(s, e).answers[id] != Renewed {
      if e != Abort(id) { assert Abort(id) in past; }
    }
  }

  lemma CommitStays(past: seq<Event>, s: System, e: Event)
    requires AnsweredOnce(s) && CommitTold(past, s) && Enabled(s, e)
    ensures CommitTold(past + [e], Step(s, e))
  {
    forall id | Commit(id) in past + [e] ensures id in Step(s, e).answers && Step(s, e).answers[id] == Renewed {
      if e != Commit(id) { assert Commit(id) in past; }
    }
  }

  lemma PhasesStay(past: seq<Event>, s: System, e: Event)
    requires PhasesTold(past, s) && Enabled(s, e)
    ensures PhasesTold(past + [e], Step(s, e))
  {
    assert e in past + [e];
    forall id | id in Step(s, e).refreshes ensures PhaseTold(past + [e], id, Step(s, e).refreshes[id]) {
      ToldLater(past, past + [e], id);
    }
  }

  lemma AnswersKept(past: seq<Event>, s: System, e: Event)
    requires PhasesTold(past, s) && AnswersTold(past, s) && Enabled(s, e)
    ensures AnswersTold(past + [e], Step(s, e))
  {
    assert e in past + [e];
    forall id | id in Step(s, e).answers ensures AnswerTold(past + [e], id, Step(s, e).answers[id]) {
      ToldLater(past, past + [e], id);
      if id in s.refreshes { assert PhaseTold(past, id, s.refreshes[id]); }
    }
  }

  /** A step concerns one refresh only, and ends it or moves it on. */
  lemma StepTells(past: seq<Event>, s: System, e: Event)
    requires Told(past, s) && Enabled(s, e)
    ensures Told(past + [e], Step(s, e))
  {
    PhasesStay(past, s, e);
    AnswersKept(past, s, e);
    CommitStays(past, s, e);
    DownStays(past, s, e);
    GenuineStays(past, s, e);
    AbortStays(past, s, e);
  }

  lemma {:induction false} ExecutionTells(past: seq<Event>, s: System, events: seq<Event>, last: System)
    requires Told(past, s) && Execution(s, events, last)
    ensures Told(past + events, last)
    decreases |events|
  {
    if events != [] {
      StepTells(past, s, events[0]);
      ExecutionTells(past + [events[0]], Step(s, events[0]), events[1..], last);
      assert past + [events[0]] + events[1..] == past + events;
    } else {
      assert past + [] == past;
    }
  }

  /**
   In every interleaving a refresh is answered with renewed tokens exactly if it committed, and then the session was
   found fit and its user allowed, the provider rotated the tokens, and they were verified to belong to the session.
   */
  lemma RenewedExactly(first: System, events: seq<Event>, s: System, id: nat)
    requires Initial(first) && Execution(first, events, s)
    ensures id in s.answers && s.answers[id] == Renewed <==> Commit(id) in events
    ensures Commit(id) in events ==>
      Read(id, false, true) in events && Provider(id, Rotated) in events && Verify(id, Genuine) in events
  {
    ExecutionTells([], first, events, s);
    assert [] + events == events;
  }

  /**
   Rotated tokens reach the caller without a renewal exactly when the verifier could not tell, or the transaction
   failed after they had turned out genuine.
   */
  lemma RecoveryExactly(first: System, events: seq<Event>, s: System, id: nat)
    requires Initial(first) && Execution(first, events, s)
    ensures id in s.answers && s.answers[id] == Recovery <==>
      || Verify(id, VerifierDown) in events
      || (Verify(id, Genuine) in events && Abort(id) in events)
    ensures id in s.answers && s.answers[id] == Recovery ==>
      Read(id, false, true) in events && Provider(id, Rotated) in events
  {
    ExecutionTells([], first, events, s);
    assert [] + events == events;
  }

  // ---- What ends the session ------------------------------------------------------------------

  /** The provider knows the token no more, the new tokens are another's, or the user may not sign in any more. */
  predicate Ends(s: System, e: Event) {
    || (e.Provider? && e.reply == InvalidToken)
    || (e.Verify? && e.verdict == Foreign)
    || (&& e.Read? && e.id in s.refreshes && !e.idle && !e.userAllowed
        && s.row.Some? && !s.row.value.revoked && !RacesWith(s.row.value, s.refreshes[e.id].clock))
  }

  function EndCode(e: Event): string { if e.Read? then "ACCOUNT_NOT_ALLOWED" else "SESSION_REVOKED" }

  lemma {:induction false} AnswersStay(s: System, events: seq<Event>, last: System, id: nat)
    requires AnsweredOnce(s) && id in s.answers && Execution(s, events, last)
    ensures id in last.answers && last.answers[id] == s.answers[id]
    decreases |events|
  {
    if events != [] {
      var t := Step(s, events[0]);
      assert AnsweredOnce(t) && id in t.answers && t.answers[id] == s.answers[id];
      AnswersStay(t, events[1..], last, id);
    }
  }

  /** Each of these revokes the session for ever and is told to the caller, in every continuation. */
  lemma EndsForGood(first: System, events: seq<Event>, s: System, e: Event, later: seq<Event>, last: System)
    requires Initial(first) && Execution(first, events, s)
    requires Enabled(s, e) && Ends(s, e) && Execution(Step(s, e), later, last)
    ensures IsRevoked(last) && e.id in last.answers && last.answers[e.id] == Refused(EndCode(e))
  {
    ExecutionKeepsInv(first, events, s);
    ExecutionTells([], first, events, s);
    assert PhaseSound(s, e.id, s.refreshes[e.id]);
    StepKeepsInv(s, e);
    StepTells([] + events, s, e);
    AnswersStay(Step(s, e), later, last, e.id);
    RevocationEndsRefreshing(Step(s, e), later, last);
  }

  /** Nothing else does, except a log-out: any other step leaves an open session open. */
  lemma EndsExactly(first: System, events: seq<Event>, s: System, e: Event)
    requires Initial(first) && Execution(first, events, s) && Enabled(s, e) && s.row.Some? && !IsRevoked(s)
    ensures IsRevoked(Step(s, e)) <==> e.Logout? || Ends(s, e)
  {
    ExecutionKeepsInv(first, events, s);
  }

  // ---- Races ----------------------------------------------------------------------------------

  predicate RowTells(s: System) {
    s.row.Some? && (s.row.value.refreshedAt.None? <==> s.successes == [])
  }

  lemma {:induction false} ExecutionRowTells(s: System, events: seq<Event>, last: System)
    requires RowTells(s) && Execution(s, events, last)
    ensures RowTells(last)
    decreases |events|
  {
    if events != [] {
      assert RowTells(Step(s, events[0]));
      ExecutionRowTells(Step(s, events[0]), events[1..], last);
    }
  }

  /** A refresh of an open session is told to retry exactly if another one has succeeded since it was requested. */
  lemma RaceToldExactly(first: System, events: seq<Event>, s: System, id: nat, allowed: bool)
    requires Initial(first) && first.row.Some? && first.row.value.refreshedAt.None? && Execution(first, events, s)
    requires Enabled(s, Read(id, false, allowed)) && !IsRevoked(s)
    ensures Step(s, Read(id, false, allowed)).answers == s.answers[id := Refused("REFRESH_RACE_RETRY")] <==>
      exists i :: 0 <= i < |s.successes| && s.successes[i].at >= s.refreshes[id].clock
  {
    ExecutionKeepsInv(first, events, s);
    ExecutionRowTells(first, events, s);
    ExecutionTells([], first, events, s);
    var t := Step(s, Read(id, false, allowed));
    assert id in t.answers ==> t.answers[id] == Refused("REFRESH_RACE_RETRY") || !allowed;
    forall i | 0 <= i < |s.successes| ensures s.successes[i].at <= s.successes[|s.successes| - 1].at {
      if i < |s.successes| - 1 { assert s.successes[i].at < s.successes[|s.successes| - 1].clock; }
    }
  }
}
