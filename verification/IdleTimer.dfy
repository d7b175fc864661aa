/**
 When the idle timer of the connection pool is armed and what it does (apps/api/src/common/prisma-idle.ts).
 */
module IdleTimer {
  import opened Outcomes
  import opened IdlePool

  /**
   A close is due after an event: an operation has ended, or the failure of an idle close has been handled,
   since the last idle close began.
   */
  predicate DueAfter(s: System, e: Event, due: bool) {
    match e
    case OperationEnded(_) => true
    case TimerElapsed => false
    case IdleFailureHandled(_) => due || s.pool.closing.None?
    case _ => due
  }

  ghost predicate Due(s: System, events: seq<Event>, due: bool)
    decreases |events|
  {
    if events == [] || !Enabled(s, events[0]) then due
    else Due(Step(s, events[0]), events[1..], DueAfter(s, events[0], due))
  }

  /** Idle, open and not stopping. */
  predicate Resting(p: Pool) { p.active == 0 && p.closing.None? && !p.stopping }

  predicate TimerTells(s: System, due: bool) {
    && (s.pool.timer <==> s.pool.idleMs > 0 && due && Resting(s.pool))
    && (s.pool.closing.Some? && !s.pool.stopping ==> !due)
  }

  lemma StepKeepsTimer(s: System, e: Event, due: bool)
    requires Inv(s) && Enabled(s, e) && TimerTells(s, due)
    ensures TimerTells(Step(s, e), DueAfter(s, e, due)) && Step(s, e).pool.idleMs == s.pool.idleMs
  {
  }

  lemma {:induction false} ExecutionKeepsTimer(s: System, events: seq<Event>, last: System, due: bool)
    requires Inv(s) && TimerTells(s, due) && Execution(s, events, last)
    ensures Inv(last) && TimerTells(last, Due(s, events, due)) && last.pool.idleMs == s.pool.idleMs
    decreases |events|
  {
    if events != [] {
      StepKeepsInv(s, events[0]);
      StepKeepsTimer(s, events[0], due);
      ExecutionKeepsTimer(Step(s, events[0]), events[1..], last, DueAfter(s, events[0], due));
    }
  }

  /**
   In every reachable state the timer is armed if and only if idle closing is switched on, a close is due, and
   the pool is idle, open and not stopping.
   */
  lemma TimerArmedExactly(idleMs: nat, events: seq<Event>, s: System)
    requires Execution(NewSystem(idleMs), events, s)
    ensures s.pool.timer <==>
      && idleMs > 0 && Due(NewSystem(idleMs), events, false)
      && s.pool.active == 0 && s.pool.closing.None? && !s.pool.stopping
  {
    NewSystemInv(idleMs);
    ExecutionKeepsTimer(NewSystem(idleMs), events, s, false);
  }

  /** A pool without an idle time never has a timer. */
  lemma NoIdleTimeNoTimer(events: seq<Event>, s: System)
    requires Execution(NewSystem(0), events, s)
    ensures !s.pool.timer
  {
    TimerArmedExactly(0, events, s);
  }

  /** The end of the last operation arms the timer of an open pool with an idle time; no earlier end does. */
  lemma LastOperationArms(idleMs: nat, events: seq<Event>, s: System, run: nat)
    requires Execution(NewSystem(idleMs), events, s) && Enabled(s, OperationEnded(run))
    ensures Step(s, OperationEnded(run)).pool.timer <==>
      idleMs > 0 && !s.pool.stopping && OperatingRuns(s) == {run}
  {
    NewSystemInv(idleMs);
    ExecutionKeepsTimer(NewSystem(idleMs), events, s, false);
    assert run in OperatingRuns(s);
    if s.pool.active == 1 {
      OnlyMember(OperatingRuns(s), run);
    } else {
      assert OperatingRuns(s) != {run};
    }
  }

  /** When the timer elapses a close begins at once: whoever comes next waits for it. */
  lemma ElapsedTimerCloses(idleMs: nat, events: seq<Event>, s: System, run: nat)
    requires Execution(NewSystem(idleMs), events, s) && s.pool.timer && run !in s.operations
    ensures var t := Step(s, TimerElapsed);
      && t.pool.closing == Some(s.pool.closes) && s.pool.closes in t.idleCloses && !t.pool.timer
      && Enabled(t, DisconnectStarted(s.pool.closes)) && Enabled(t, RunCalled(run))
      && Step(t, RunCalled(run)).operations == t.operations[run := Waiting(s.pool.closes)]
  {
    NewSystemInv(idleMs);
    ExecutionKeepsInv(NewSystem(idleMs), events, s);
  }

  /**
   An idle close runs its disconnect and is over; if that failed its handler arms the timer again, and if not there
   is nothing to handle and the timer stays off until an operation has ended.
   */
  lemma IdleCloseEnds(idleMs: nat, events: seq<Event>, s: System, ok: bool)
    requires Execution(NewSystem(idleMs), events, s) && s.pool.timer
    ensures
      var close := s.pool.closes;
      var t := Step(s, TimerElapsed);
      && Enabled(t, DisconnectStarted(close)) && Enabled(Step(t, DisconnectStarted(close)), DisconnectEnded(close, ok))
      && var u := Step(Step(t, DisconnectStarted(close)), DisconnectEnded(close, ok));
      && u.pool.closing == None && close in u.settled && !u.pool.timer
      && (!ok ==> Enabled(u, IdleFailureHandled(close)) && Step(u, IdleFailureHandled(close)).pool.timer)
      && (ok ==> u.failedIdle == s.failedIdle)
  {
    NewSystemInv(idleMs);
    ExecutionKeepsTimer(NewSystem(idleMs), events, s, false);
    assert s.pool.closes !in s.settled && s.pool.closes !in s.disconnecting;
  }

  // ---- Admission ------------------------------------------------------------------------------

  predicate ShutdownIn(events: seq<Event>) { exists i :: 0 <= i < |events| && events[i].ShutdownCalled? }

  lemma {:induction false} StoppingExactly(s: System, events: seq<Event>, last: System)
    requires Execution(s, events, last)
    ensures last.pool.stopping <==> s.pool.stopping || ShutdownIn(events)
    decreases |events|
  {
    if events != [] {
      StoppingExactly(Step(s, events[0]), events[1..], last);
      if i :| 0 <= i < |events[1..]| && events[1..][i].ShutdownCalled? { assert events[i + 1].ShutdownCalled?; }
      if i :| 0 < i < |events| && events[i].ShutdownCalled? { assert events[1..][i - 1].ShutdownCalled?; }
    }
  }

  /**
   In every run an operation that asks to start waits while a close is in progress, and otherwise starts at once
   unless a shutdown has been called and nothing is running any more.
   */
  lemma StartsExactly(idleMs: nat, events: seq<Event>, s: System, run: nat)
    requires Execution(NewSystem(idleMs), events, s) && run !in s.operations
    ensures var t := Step(s, RunCalled(run));
      if s.pool.closing.Some? then t.operations == s.operations[run := Waiting(s.pool.closing.value)]
      else if ShutdownIn(events) && OperatingRuns(s) == {} then run !in t.operations
      else t.operations == s.operations[run := Operating] && !t.pool.timer
  {
    NewSystemInv(idleMs);
    ExecutionKeepsInv(NewSystem(idleMs), events, s);
    StoppingExactly(NewSystem(idleMs), events, s);
    if OperatingRuns(s) != {} {
      var some :| some in OperatingRuns(s);
    }
  }

  // ---- Shutdown -------------------------------------------------------------------------------

  /**
   A shutdown call of a pool at rest, and a shutdown caller that has been woken, join a close at once: the one in
   progress or a new one. Once that close has settled the call can return.
   */
  lemma ShutdownJoinsClose(idleMs: nat, events: seq<Event>, s: System, e: Event, caller: nat)
    requires Execution(NewSystem(idleMs), events, s) && Enabled(s, e) && OperatingRuns(s) == {}
    requires e == ShutdownCalled(caller) || e == ShutdownResumed(caller)
    ensures var t, close := Step(s, e), if s.pool.closing.Some? then s.pool.closing.value else s.pool.closes;
      && t.pool.closing == Some(close) && t.pool.stopping && !t.pool.timer
      && t.callers == s.callers[caller := Joining(close)]
      && (close in s.disconnecting || Enabled(t, DisconnectStarted(close)))
  {
    NewSystemInv(idleMs);
    ExecutionKeepsInv(NewSystem(idleMs), events, s);
  }

  /** While operations run, a shutdown call waits; the end of the last one wakes the caller whose turn was kept. */
  lemma LastOperationWakes(idleMs: nat, events: seq<Event>, s: System, run: nat)
    requires Execution(NewSystem(idleMs), events, s) && Enabled(s, OperationEnded(run)) && OperatingRuns(s) == {run}
    ensures var t := Step(s, OperationEnded(run));
      && (s.pool.drained.Some? ==> t.callers == s.callers[s.pool.drained.value := Woken])
      && (Drainers(s) == {} ==> t.callers == s.callers)
      && (forall caller :: Drainers(s) == {caller} ==> t.callers == s.callers[caller := Woken])
  {
    NewSystemInv(idleMs);
    ExecutionKeepsInv(NewSystem(idleMs), events, s);
    assert s.pool.active == 1;
    forall caller | Drainers(s) == {caller} ensures s.pool.drained == Some(caller) {
      assert caller in Drainers(s);
    }
  }
}
