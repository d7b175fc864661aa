/**
 Overlapping refreshes of one provider session (`refresh` and `runRefreshTransaction` in
 apps/api/src/auth/auth.service.ts).

 Steps are the statements and awaits of the transaction. The advisory lock is held until the
 transaction ends; statements see what was committed before them; the database clock, in
 milliseconds, never goes back. A log-out revokes the row without taking the lock. What the
 provider and the token verifier answer, whether the session counts as idle and whether its user may
 still sign in are choices of the environment.
 */
module ProviderRefresh {
  import opened Outcomes

  datatype Row = Row(revoked: bool, refreshedAt: Option<int>)

  datatype Phase =
    | Requested(clock: int)
    | Locked(clock: int)
    | Calling(clock: int)
    | Verifying(clock: int)
    | Stamping(clock: int)
    | Committing(clock: int, at: int)

  datatype Answer = Renewed | Recovery | Refused(code: string)

  /** A successful refresh: its request clock and the refresh time it committed. */
  datatype Interval = Interval(clock: int, at: int)

  datatype System = System(
    now: int, row: Option<Row>, lock: Option<nat>, refreshes: map<nat, Phase>, answers: map<nat, Answer>,
    successes: seq<Interval>)

  datatype Reply = Rotated | Unavailable | InvalidToken

  datatype Verdict = Genuine | Foreign | VerifierDown

  datatype Event =
    | Tick(ms: nat)
    | Begin(id: nat)
    | Acquire(id: nat)
    | Read(id: nat, idle: bool, userAllowed: bool)
    | Provider(id: nat, reply: Reply)
    | Verify(id: nat, verdict: Verdict)
    | Stamp(id: nat)
    | Commit(id: nat)
    | Abort(id: nat)
    | Logout

  predicate HoldsLock(p: Phase) { !p.Requested? }

  /** The transaction has read the row and found it fit for a refresh. */
  predicate Admitted(p: Phase) { p.Calling? || p.Verifying? || p.Stamping? || p.Committing? }

  function Revoked(row: Option<Row>): Option<Row> { if row.Some? then Some(row.value.(revoked := true)) else None }

  /** The transaction ends: its lock is released and the caller is answered. */
  function End(s: System, id: nat, answer: Answer): System {
    s.(refreshes := s.refreshes - {id}, lock := if s.lock == Some(id) then None else s.lock,
       answers := s.answers[id := answer])
  }

  function Move(s: System, id: nat, p: Phase): System { s.(refreshes := s.refreshes[id := p]) }

  predicate RacesWith(row: Row, clock: int) { row.refreshedAt.Some? && row.refreshedAt.value >= clock }

  function AfterRead(s: System, id: nat, idle: bool, userAllowed: bool, clock: int): System {
    if s.row.None? then End(s, id, Refused("SESSION_INVALID"))
    else if s.row.value.revoked then End(s, id, Refused("SESSION_REVOKED"))
    else if idle then End(s, id, Refused("SESSION_INVALID"))
    else if RacesWith(s.row.value, clock) then End(s, id, Refused("REFRESH_RACE_RETRY"))
    else if !userAllowed then End(s.(row := Revoked(s.row)), id, Refused("ACCOUNT_NOT_ALLOWED"))
    else Move(s, id, Calling(clock))
  }

  predicate Enabled(s: System, e: Event) {
    match e
    case Tick(_) => true
    case Begin(id) => id !in s.refreshes && id !in s.answers
    case Acquire(id) => id in s.refreshes && s.refreshes[id].Requested? && s.lock.None?
    case Read(id, _, _) => id in s.refreshes && s.refreshes[id].Locked?
    case Provider(id, _) => id in s.refreshes && s.refreshes[id].Calling?
    case Verify(id, _) => id in s.refreshes && s.refreshes[id].Verifying?
    case Stamp(id) => id in s.refreshes && s.refreshes[id].Stamping?
    case Commit(id) => id in s.refreshes && s.refreshes[id].Committing?
    case Abort(id) => id in s.refreshes
    case Logout => true
  }

  function Step(s: System, e: Event): System
    requires Enabled(s, e)
  {
    match e
    case Tick(ms) => s.(now := s.now + ms)
    case Begin(id) => Move(s, id, Requested(s.now))
    case Acquire(id) => Move(s.(lock := Some(id)), id, Locked(s.refreshes[id].clock))
    case Read(id, idle, userAllowed) => AfterRead(s, id, idle, userAllowed, s.refreshes[id].clock)
    case Provider(id, reply) =>
      (match reply
       case Rotated => Move(s, id, Verifying(s.refreshes[id].clock))
       case Unavailable => End(s, id, Refused("AUTH_PROVIDER_UNAVAILABLE"))
       case InvalidToken => End(s.(row := Revoked(s.row)), id, Refused("SESSION_REVOKED")))
    case Verify(id, verdict) =>
      (match verdict
       case Genuine => Move(s, id, Stamping(s.refreshes[id].clock))
       case Foreign => End(s.(row := Revoked(s.row)), id, Refused("SESSION_REVOKED"))
       case VerifierDown => End(s, id, Recovery))
    case Stamp(id) => Move(s, id, Committing(s.refreshes[id].clock, s.now))
    case Commit(id) =>
      var p := s.refreshes[id];
      var row := if s.row.Some? then Some(s.row.value.(refreshedAt := Some(p.at))) else None;
      End(s.(row := row, successes := s.successes + [Interval(p.clock, p.at)]), id, Renewed)
    case Abort(id) =>
      // Once the new tokens are known to be genuine they reach the caller even if the transaction fails.
      End(s, id, if s.refreshes[id].Stamping? || s.refreshes[id].Committing? then Recovery else Refused("ERROR"))
    case Logout => s.(row := Revoked(s.row))
  }

  ghost predicate Execution(s: System, events: seq<Event>, last: System)
    decreases |events|
  {
    if events == [] then s == last else Enabled(s, events[0]) && Execution(Step(s, events[0]), events[1..], last)
  }

  // ---- Invariant ------------------------------------------------------------------------------

  predicate PhaseSound(s: System, id: nat, p: Phase) {
    && p.clock <= s.now && (HoldsLock(p) <==> s.lock == Some(id))
    && (Admitted(p) ==> s.row.Some? && !RacesWith(s.row.value, p.clock))
    && (p.Committing? ==> p.clock <= p.at <= s.now)
  }

  predicate PhasesSound(s: System) { forall id :: id in s.refreshes ==> PhaseSound(s, id, s.refreshes[id]) }

  /** Each committed interval ends before the next one starts. */
  predicate Disjoint(xs: seq<Interval>) {
    && (forall i :: 0 <= i < |xs| ==> xs[i].clock <= xs[i].at)
    && forall i, j :: 0 <= i < j < |xs| ==> xs[i].at < xs[j].clock
  }

  /** The row shows the end of the latest interval. */
  predicate Latest(s: System) {
    && (s.successes != [] ==> s.row.Some? && s.row.value.refreshedAt == Some(s.successes[|s.successes| - 1].at))
    && (s.row.Some? && s.row.value.refreshedAt.Some? ==> s.row.value.refreshedAt.value <= s.now)
  }

  predicate LockSound(s: System) { s.lock.Some? ==> s.lock.value in s.refreshes }

  predicate Inv(s: System) { PhasesSound(s) && Disjoint(s.successes) && Latest(s) && LockSound(s) }

  predicate Initial(s: System) {
    && s.lock.None? && s.refreshes == map[] && s.answers == map[] && s.successes == []
    && (s.row.Some? && s.row.value.refreshedAt.Some? ==> s.row.value.refreshedAt.value <= s.now)
  }

  lemma EndKeepsInv(s: System, id: nat, answer: Answer)
    requires Inv(s) && id in s.refreshes
    ensures Inv(End(s, id, answer))
  {
  }

  lemma RevokeKeepsInv(s: System)
    requires Inv(s)
    ensures Inv(s.(row := Revoked(s.row)))
  {
    var t := s.(row := Revoked(s.row));
    forall id | id in t.refreshes
      ensures PhaseSound(t, id, t.refreshes[id])
    {
      assert PhaseSound(s, id, s.refreshes[id]);
    }
  }

  lemma MoveKeepsInv(s: System, id: nat, p: Phase)
    requires Inv(s) && PhaseSound(s, id, p)
    ensures Inv(Move(s, id, p))
  {
    var t := Move(s, id, p);
    forall k | k in t.refreshes ensures PhaseSound(t, k, t.refreshes[k]) {
      if k != id { assert PhaseSound(s, k, s.refreshes[k]); }
    }
  }

  lemma TickKeepsInv(s: System, ms: nat)
    requires Inv(s)
    ensures Inv(s.(now := s.now + ms))
  {
    var t := s.(now := s.now + ms);
    forall id | id in t.refreshes
      ensures PhaseSound(t, id, t.refreshes[id])
    {
      assert PhaseSound(s, id, s.refreshes[id]);
    }
  }

  lemma AcquireKeepsInv(s: System, id: nat)
    requires Inv(s) && Enabled(s, Acquire(id))
    ensures Inv(Step(s, Acquire(id)))
  {
    var t := Step(s, Acquire(id));
    forall k | k in t.refreshes ensures PhaseSound(t, k, t.refreshes[k]) { assert PhaseSound(s, k, s.refreshes[k]); }
  }

  lemma CommitKeepsInv(s: System, id: nat)
    requires Inv(s) && Enabled(s, Commit(id))
    ensures Inv(Step(s, Commit(id)))
  {
    var t, p := Step(s, Commit(id)), s.refreshes[id];
    assert PhaseSound(s, id, p);
    forall k | k in t.refreshes ensures PhaseSound(t, k, t.refreshes[k]) { assert PhaseSound(s, k, s.refreshes[k]); }
    forall i | 0 <= i < |s.successes| ensures s.successes[i].at < p.clock {
      var last := s.successes[|s.successes| - 1];
      assert i < |s.successes| - 1 ==> s.successes[i].at < last.clock <= last.at;
    }
  }

  lemma StepKeepsInv(s: System, e: Event)
    requires Inv(s) && Enabled(s, e)
    ensures Inv(Step(s, e))
  {
    match e
    case Tick(ms) => TickKeepsInv(s, ms);
    case Begin(id) => MoveKeepsInv(s, id, Requested(s.now));
    case Acquire(id) => AcquireKeepsInv(s, id);
    case Read(id, idle, userAllowed) =>
      var clock := s.refreshes[id].clock;
      assert PhaseSound(s, id, s.refreshes[id]);
      RevokeKeepsInv(s);
      var t := AfterRead(s, id, idle, userAllowed, clock);
      if t == Move(s, id, Calling(clock)) && s.row.Some? && !RacesWith(s.row.value, clock) {
        MoveKeepsInv(s, id, Calling(clock));
      } else {
        ReadEnds(s, id, idle, userAllowed);
      }
    case Provider(id, reply) =>
      assert PhaseSound(s, id, s.refreshes[id]);
      RevokeKeepsInv(s);
      if reply.Rotated? { MoveKeepsInv(s, id, Verifying(s.refreshes[id].clock)); }
      else if reply.InvalidToken? { EndKeepsInv(s.(row := Revoked(s.row)), id, Refused("SESSION_REVOKED")); }
      else { EndKeepsInv(s, id, Refused("AUTH_PROVIDER_UNAVAILABLE")); }
    case Verify(id, verdict) =>
      assert PhaseSound(s, id, s.refreshes[id]);
      RevokeKeepsInv(s);
      if verdict.Genuine? { MoveKeepsInv(s, id, Stamping(s.refreshes[id].clock)); }
      else if verdict.Foreign? { EndKeepsInv(s.(row := Revoked(s.row)), id, Refused("SESSION_REVOKED")); }
      else { EndKeepsInv(s, id, Recovery); }
    case Stamp(id) =>
      assert PhaseSound(s, id, s.refreshes[id]);
      MoveKeepsInv(s, id, Committing(s.refreshes[id].clock, s.now));
    case Commit(id) => CommitKeepsInv(s, id);
    case Abort(id) =>
      EndKeepsInv(s, id, Recovery);
      EndKeepsInv(s, id, Refused("ERROR"));
    case Logout => RevokeKeepsInv(s);
  }

  lemma ReadEnds(s: System, id: nat, idle: bool, userAllowed: bool)
    requires Inv(s) && Enabled(s, Read(id, idle, userAllowed))
    requires AfterRead(s, id, idle, userAllowed, s.refreshes[id].clock) != Move(s, id, Calling(s.refreshes[id].clock))
    ensures Inv(AfterRead(s, id, idle, userAllowed, s.refreshes[id].clock))
  {
    RevokeKeepsInv(s);
    EndKeepsInv(s, id, Refused("SESSION_INVALID"));
    EndKeepsInv(s, id, Refused("SESSION_REVOKED"));
    EndKeepsInv(s, id, Refused("REFRESH_RACE_RETRY"));
    EndKeepsInv(s.(row := Revoked(s.row)), id, Refused("ACCOUNT_NOT_ALLOWED"));
  }

  lemma {:induction false} ExecutionKeepsInv(s: System, events: seq<Event>, last: System)
    requires Inv(s) && Execution(s, events, last)
    ensures Inv(last)
    decreases |events|
  {
    if events != [] {
      StepKeepsInv(s, events[0]);
      ExecutionKeepsInv(Step(s, events[0]), events[1..], last);
    }
  }

  /** In every interleaving the intervals of successful refreshes are pairwise disjoint. */
  lemma SuccessesNeverOverlap(s: System, events: seq<Event>, last: System, i: nat, j: nat)
    requires Initial(s) && Execution(s, events, last) && i < j < |last.successes|
    ensures last.successes[i].clock <= last.successes[i].at < last.successes[j].clock <= last.successes[j].at
  {
    ExecutionKeepsInv(s, events, last);
  }

  // ---- Revocation -----------------------------------------------------------------------------

  predicate IsRevoked(s: System) { s.row.Some? && s.row.value.revoked }

  /** The transaction that could still succeed: the one admitted by its read of the row. */
  function Pending(s: System): nat {
    if s.lock.Some? && s.lock.value in s.refreshes && Admitted(s.refreshes[s.lock.value]) then 1 else 0
  }

  lemma RevokedStep(s: System, e: Event)
    requires Inv(s) && Enabled(s, e) && IsRevoked(s)
    ensures IsRevoked(Step(s, e))
    ensures |Step(s, e).successes| + Pending(Step(s, e)) <= |s.successes| + Pending(s)
  {
    forall id | id in s.refreshes ensures PhaseSound(s, id, s.refreshes[id]) {}
  }

  /**
   A revoked session stays revoked, and at most one refresh succeeds from then on: the one, if any,
   whose transaction had already read the row.
   */
  lemma {:induction false} RevocationEndsRefreshing(s: System, events: seq<Event>, last: System)
    requires Inv(s) && IsRevoked(s) && Execution(s, events, last)
    ensures IsRevoked(last) && |last.successes| + Pending(last) <= |s.successes| + Pending(s)
    decreases |events|
  {
    if events != [] {
      RevokedStep(s, events[0]);
      StepKeepsInv(s, events[0]);
      RevocationEndsRefreshing(Step(s, events[0]), events[1..], last);
    }
  }

  /** From any state in which a row may be refreshed, a new transaction gets as far as calling the provider. */
  lemma CallingIsReachable(s: System, id: nat) returns (t: System)
    requires Inv(s) && s.lock.None? && id !in s.refreshes && id !in s.answers
    requires s.row.Some? && !s.row.value.revoked && !RacesWith(s.row.value, s.now)
    ensures Execution(s, [Begin(id), Acquire(id), Read(id, false, true)], t) && Inv(t)
    ensures id in t.refreshes && t.refreshes[id].Calling? && t.successes == s.successes
  {
    var a := Step(s, Begin(id));
    var b := Step(a, Acquire(id));
    t := Step(b, Read(id, false, true));
    StepKeepsInv(s, Begin(id));
    StepKeepsInv(a, Acquire(id));
    StepKeepsInv(b, Read(id, false, true));
    assert Execution(t, [], t);
    ExecutionCons(b, Read(id, false, true), [], t);
    ExecutionCons(a, Acquire(id), [Read(id, false, true)], t);
    ExecutionCons(s, Begin(id), [Acquire(id), Read(id, false, true)], t);
  }

  lemma ExecutionCons(s: System, e: Event, rest: seq<Event>, last: System)
    requires Enabled(s, e) && Execution(Step(s, e), rest, last)
    ensures Execution(s, [e] + rest, last)
  {
    assert ([e] + rest)[1..] == rest;
  }

  function Remaining(p: Phase): nat {
    match p
    case Calling(_) => 3
    case Verifying(_) => 2
    case Stamping(_) => 1
    case _ => 0
  }

  function NextEvent(p: Phase, id: nat): Event
    requires Admitted(p)
  {
    match p
    case Calling(_) => Provider(id, Rotated)
    case Verifying(_) => Verify(id, Genuine)
    case Stamping(_) => Stamp(id)
    case Committing(_, _) => Commit(id)
  }

  /** An admitted refresh can always be carried to its commit, whatever has become of the row. */
  lemma AdmittedCanCommit(s: System, id: nat) returns (events: seq<Event>, last: System)
    requires Inv(s) && id in s.refreshes && Admitted(s.refreshes[id])
    ensures Execution(s, events, last) && |last.successes| == |s.successes| + 1
    decreases Remaining(s.refreshes[id])
  {
    var e := NextEvent(s.refreshes[id], id);
    var t := Step(s, e);
    StepKeepsInv(s, e);
    if s.refreshes[id].Committing? {
      events, last := [e], t;
      assert Execution(t, [], t);
      ExecutionCons(s, e, [], t);
    } else {
      var rest;
      rest, last := AdmittedCanCommit(t, id);
      events := [e] + rest;
      ExecutionCons(s, e, rest, last);
    }
  }

  ghost predicate SuccessFollows(s: System) {
    exists events, last :: Execution(s, events, last) && |last.successes| > |s.successes|
  }

  /** Exactly: a refresh of a revoked session still succeeds in some run if and only if one is past its read. */
  lemma SuccessAfterRevocationExactly(s: System)
    requires Inv(s) && IsRevoked(s)
    ensures SuccessFollows(s) <==> Pending(s) == 1
  {
    if Pending(s) == 1 {
      var events, last := AdmittedCanCommit(s, s.lock.value);
    }
    forall events, last | Execution(s, events, last) && Pending(s) == 0 ensures |last.successes| <= |s.successes| {
      RevocationEndsRefreshing(s, events, last);
    }
  }

  /** So a log-out between the read and the commit stops no refresh, in whichever of its four phases it is. */
  lemma LogoutDoesNotStopAdmittedRefresh(s: System, id: nat) returns (events: seq<Event>, last: System)
    requires Inv(s) && id in s.refreshes && Admitted(s.refreshes[id])
    ensures Execution(s, [Logout] + events, last) && IsRevoked(last) && |last.successes| == |s.successes| + 1
  {
    assert PhaseSound(s, id, s.refreshes[id]);
    var t := Step(s, Logout);
    StepKeepsInv(s, Logout);
    events, last := AdmittedCanCommit(t, id);
    RevocationEndsRefreshing(t, events, last);
    ExecutionCons(s, Logout, events, last);
  }
}
