/**
 The idle connection pool (apps/api/src/common/prisma-idle.ts).

 JavaScript runs each stretch between two awaits without interruption, so one such stretch is one
 step. `PrismaIdlePool` holds the fields and one method per stretch; `Pool` is its value. The
 interleaving of any number of operations, shutdown callers, timers and disconnects is `System`.
 */
module IdlePool {
  import opened Outcomes
  import opened Sums

  /**
   `closing` identifies the promise of the close in progress, `drained` the shutdown caller whose
   resolve function is stored, and `closes` counts the close promises made so far.
   */
  datatype Pool = Pool(
    idleMs: nat, active: nat, timer: bool, closing: Option<nat>, stopping: bool, drained: Option<nat>, closes: nat)

  datatype Admission = Blocked(close: nat) | Refused | Admitted

  datatype ShutdownWait = OnDrain | OnClose(close: nat)

  function NewPool(idleMs: nat): Pool { Pool(idleMs, 0, false, None, false, None, 0) }

  function Arm(p: Pool): Pool {
    if p.idleMs == 0 || p.stopping || p.active != 0 || p.timer || p.closing.Some? then p else p.(timer := true)
  }

  function Close(p: Pool): Pool { p.(closing := Some(p.closes), closes := p.closes + 1) }

  function AdmissionOf(p: Pool): Admission {
    if p.closing.Some? then Blocked(p.closing.value)
    else if p.stopping && p.active == 0 then Refused
    else Admitted
  }

  function Enter(p: Pool): Pool {
    if AdmissionOf(p).Admitted? then p.(active := p.active + 1, timer := false) else p
  }

  function Leave(p: Pool): Pool
    requires p.active > 0
  {
    if p.active == 1 then Arm(p.(active := 0, drained := None)) else p.(active := p.active - 1)
  }

  function Stop(p: Pool): Pool { p.(stopping := true, timer := false) }

  function WaitOf(p: Pool): ShutdownWait {
    if p.active > 0 then OnDrain else if p.closing.Some? then OnClose(p.closing.value) else OnClose(p.closes)
  }

  function Await(p: Pool, caller: nat): Pool {
    if p.active > 0 then p.(drained := Some(caller)) else if p.closing.Some? then p else Close(p)
  }

  function Fire(p: Pool): Pool {
    if p.active != 0 || p.stopping then p.(timer := false) else Close(p.(timer := false))
  }

  function Settle(p: Pool, close: nat): Pool {
    if p.closing == Some(close) then p.(closing := None) else p
  }

  /** A close excludes active operations, and an armed timer excludes operations, a close and a shutdown. */
  predicate PoolSound(p: Pool) {
    && (p.closing.Some? ==> p.active == 0 && p.closing.value < p.closes)
    && (p.timer ==> p.active == 0 && p.closing.None? && !p.stopping)
  }

  class PrismaIdlePool {
    const idleMs: nat
    var active: nat
    var timer: bool
    var closing: Option<nat>
    var stopping: bool
    var drained: Option<nat>
    var closes: nat

    ghost function View(): Pool
      reads this
    {
      Pool(idleMs, active, timer, closing, stopping, drained, closes)
    }

    constructor (idleMs: nat)
      ensures View() == NewPool(idleMs)
    {
      this.idleMs := idleMs;
      active, timer, closing, stopping, drained, closes := 0, false, None, false, None, 0;
    }

    /** The start of `run`, and its continuation after the awaited close has settled. */
    method EnterRun() returns (admission: Admission)
      modifies this
      ensures admission == AdmissionOf(old(View())) && View() == Enter(old(View()))
      ensures PoolSound(old(View())) ==> PoolSound(View())
    {
      if closing.Some? {
        return Blocked(closing.value);
      }
      if stopping && active == 0 {
        return Refused;
      }
      active := active + 1;
      timer := false;
      admission := Admitted;
    }

    /** The `finally` of `run`; returns the shutdown caller it wakes, if any. */
    method LeaveRun() returns (woken: Option<nat>)
      requires active > 0
      modifies this
      ensures View() == Leave(old(View()))
      ensures woken == if old(active) == 1 then old(drained) else None
      ensures PoolSound(old(View())) ==> PoolSound(View())
    {
      woken := None;
      active := active - 1;
      if active == 0 {
        woken := drained;
        drained := None;
        ArmTimer();
      }
    }

    /** Arming never endangers an operation or a close, and lets nobody in or out. */
    method ArmTimer()
      modifies this
      ensures View() == Arm(old(View()))
      ensures PoolSound(old(View())) ==> PoolSound(View())
      ensures AdmissionOf(View()) == AdmissionOf(old(View()))
    {
      if idleMs == 0 || stopping || active != 0 || timer || closing.Some? {
        return;
      }
      timer := true;
    }

    /** The barrier stands as soon as the method returns: whoever enters waits for this very close, a new one. */
    method BeginClose() returns (close: nat)
      modifies this
      ensures close == old(closes) && View() == Close(old(View()))
      ensures AdmissionOf(View()) == Blocked(close)
      ensures PoolSound(old(View())) ==> old(closing) != Some(close)
      ensures PoolSound(old(View())) && old(active) == 0 && !old(timer) ==> PoolSound(View())
    {
      close := closes;
      closes := closes + 1;
      closing := Some(close);
    }

    /** `shutdown` up to its first await. */
    method BeginShutdown(caller: nat) returns (wait: ShutdownWait)
      modifies this
      ensures View() == Await(Stop(old(View())), caller) && wait == WaitOf(Stop(old(View())))
      ensures PoolSound(old(View())) ==> PoolSound(View())
    {
      stopping := true;
      timer := false;
      wait := ContinueShutdown(caller);
    }

    /** `shutdown` from a check of its drain loop to the next await. */
    method ContinueShutdown(caller: nat) returns (wait: ShutdownWait)
      modifies this
      ensures View() == Await(old(View()), caller) && wait == WaitOf(old(View()))
      ensures PoolSound(old(View())) && old(stopping) ==> PoolSound(View())
    {
      if active > 0 {
        drained := Some(caller);
        return OnDrain;
      }
      if closing.Some? {
        return OnClose(closing.value);
      }
      var close := BeginClose();
      wait := OnClose(close);
    }

    method TimerFired() returns (close: Option<nat>)
      requires timer
      modifies this
      ensures View() == Fire(old(View()))
      ensures close == if View().closes > old(closes) then Some(old(closes)) else None
      ensures PoolSound(old(View())) ==> PoolSound(View())
    {
      timer := false;
      close := None;
      if active != 0 || stopping {
        return;
      }
      var id := BeginClose();
      close := Some(id);
    }

    /** Nobody waits for this close any more; the barrier of another close stays. */
    method CloseSettled(close: nat)
      modifies this
      ensures View() == Settle(old(View()), close)
      ensures AdmissionOf(View()) != Blocked(close)
      ensures forall other :: other != close && AdmissionOf(old(View())) == Blocked(other) ==>
        AdmissionOf(View()) == Blocked(other)
      ensures PoolSound(old(View())) ==> PoolSound(View())
    {
      if closing == Some(close) {
        closing := None;
      }
    }
  }

  // ---- Interleavings --------------------------------------------------------------------------

  datatype Operation = Waiting(close: nat) | Operating

  datatype Caller = Draining | Woken | Joining(close: nat)

  /**
   `disconnecting` holds the closes whose disconnect callback is running, `settled` those whose
   promise has settled, `failedIdle` the idle closes whose rejection handler has yet to run.
   */
  datatype System = System(
    pool: Pool, operations: map<nat, Operation>, callers: map<nat, Caller>,
    idleCloses: set<nat>, disconnecting: set<nat>, settled: set<nat>, failedIdle: set<nat>)

  datatype Event =
    | RunCalled(run: nat)
    | RunResumed(run: nat)
    | OperationEnded(run: nat)
    | ShutdownCalled(caller: nat)
    | ShutdownResumed(caller: nat)
    | ShutdownReturned(caller: nat)
    | TimerElapsed
    | DisconnectStarted(close: nat)
    | DisconnectEnded(close: nat, ok: bool)
    | IdleFailureHandled(close: nat)

  function NewSystem(idleMs: nat): System { System(NewPool(idleMs), map[], map[], {}, {}, {}, {}) }

  predicate Enabled(s: System, e: Event) {
    match e
    case RunCalled(run) => run !in s.operations
    case RunResumed(run) => run in s.operations && s.operations[run].Waiting? && s.operations[run].close in s.settled
    case OperationEnded(run) => run in s.operations && s.operations[run].Operating? && s.pool.active > 0
    case ShutdownCalled(caller) => caller !in s.callers
    case ShutdownResumed(caller) => caller in s.callers && s.callers[caller].Woken?
    case ShutdownReturned(caller) =>
      caller in s.callers && s.callers[caller].Joining? && s.callers[caller].close in s.settled
    case TimerElapsed => s.pool.timer
    case DisconnectStarted(close) => s.pool.closing == Some(close) && close !in s.disconnecting && close !in s.settled
    case DisconnectEnded(close, ok) => close in s.disconnecting
    case IdleFailureHandled(close) => close in s.failedIdle
  }

  function AfterEntry(s: System, run: nat): System {
    var operations :=
      match AdmissionOf(s.pool)
      case Blocked(close) => s.operations[run := Waiting(close)]
      case Refused => s.operations - {run}
      case Admitted => s.operations[run := Operating];
    s.(pool := Enter(s.pool), operations := operations)
  }

  function AfterAwait(s: System, caller: nat): System {
    var position := if WaitOf(s.pool).OnDrain? then Draining else Joining(WaitOf(s.pool).close);
    s.(pool := Await(s.pool, caller), callers := s.callers[caller := position])
  }

  function Wake(s: System): map<nat, Caller> {
    if s.pool.active == 1 && s.pool.drained.Some? then s.callers[s.pool.drained.value := Woken] else s.callers
  }

  function Step(s: System, e: Event): System
    requires Enabled(s, e)
  {
    match e
    case RunCalled(run) => AfterEntry(s, run)
    case RunResumed(run) => AfterEntry(s, run)
    case OperationEnded(run) => s.(pool := Leave(s.pool), operations := s.operations - {run}, callers := Wake(s))
    case ShutdownCalled(caller) => AfterAwait(s.(pool := Stop(s.pool)), caller)
    case ShutdownResumed(caller) => AfterAwait(s, caller)
    case ShutdownReturned(caller) => s.(callers := s.callers - {caller})
    case TimerElapsed =>
      s.(pool := Fire(s.pool),
         idleCloses := if Fire(s.pool).closes > s.pool.closes then s.idleCloses + {s.pool.closes} else s.idleCloses)
    case DisconnectStarted(close) => s.(disconnecting := s.disconnecting + {close})
    case DisconnectEnded(close, ok) =>
      s.(pool := Settle(s.pool, close), disconnecting := s.disconnecting - {close}, settled := s.settled + {close},
         failedIdle := if !ok && close in s.idleCloses then s.failedIdle + {close} else s.failedIdle)
    case IdleFailureHandled(close) => s.(pool := Arm(s.pool), failedIdle := s.failedIdle - {close})
  }

  ghost predicate Execution(s: System, events: seq<Event>, last: System)
    decreases |events|
  {
    if events == [] then s == last
    else Enabled(s, events[0]) && Execution(Step(s, events[0]), events[1..], last)
  }

  // ---- Safety ---------------------------------------------------------------------------------

  ghost function OperatingRuns(s: System): set<nat> {
    set run | run in s.operations && s.operations[run].Operating?
  }

  ghost function Drainers(s: System): set<nat> {
    set caller | caller in s.callers && s.callers[caller].Draining?
  }

  ghost predicate Inv(s: System) {
    && s.pool.active == |OperatingRuns(s)|
    // A close in progress excludes operations; only that close can be disconnecting.
    && (s.pool.closing.Some? ==> s.pool.active == 0 && s.pool.closing.value < s.pool.closes)
    && (forall close :: close in s.disconnecting ==> s.pool.closing == Some(close))
    && (forall close :: close in s.settled ==> close < s.pool.closes && s.pool.closing != Some(close))
    // An armed timer means idle, open and not stopping.
    && (s.pool.timer ==> s.pool.active == 0 && s.pool.closing.None? && !s.pool.stopping)
    // A stored resolve function belongs to a caller that is still draining.
    && (s.callers.Keys != {} ==> s.pool.stopping)
    && (s.pool.drained.Some? ==> s.pool.active > 0 && s.pool.drained.value in Drainers(s))
    && (Drainers(s) != {} && s.pool.active > 0 ==> s.pool.drained.Some?)
    && (forall caller :: caller in s.callers && !s.callers[caller].Draining? ==> s.pool.active == 0)
  }

  lemma NewSystemInv(idleMs: nat)
    ensures Inv(NewSystem(idleMs))
  {
    assert OperatingRuns(NewSystem(idleMs)) == {} && Drainers(NewSystem(idleMs)) == {};
  }

  lemma EntryKeepsInv(s: System, run: nat)
    requires Inv(s) && run !in OperatingRuns(s)
    ensures Inv(AfterEntry(s, run))
  {
    var t := AfterEntry(s, run);
    assert Drainers(t) == Drainers(s);
    EntryRuns(s, run);
  }

  lemma EntryRuns(s: System, run: nat)
    requires run !in OperatingRuns(s)
    ensures OperatingRuns(AfterEntry(s, run)) == OperatingRuns(s) + if AdmissionOf(s.pool).Admitted? then {run} else {}
  {
  }

  lemma LeaveKeepsInv(s: System, run: nat)
    requires Inv(s) && Enabled(s, OperationEnded(run))
    ensures Inv(Step(s, OperationEnded(run)))
  {
    var t := Step(s, OperationEnded(run));
    assert OperatingRuns(t) == OperatingRuns(s) - {run};
    assert run in OperatingRuns(s);
    assert forall caller :: caller in s.callers ==> s.callers[caller].Draining?;
    if s.pool.active == 1 && s.pool.drained.Some? {
      assert t.callers.Keys == s.callers.Keys;
    } else {
      assert Drainers(t) == Drainers(s);
    }
  }

  lemma AwaitKeepsInv(s: System, caller: nat)
    requires Inv(s) && s.pool.stopping && !s.pool.timer
    ensures Inv(AfterAwait(s, caller))
  {
    var t := AfterAwait(s, caller);
    assert OperatingRuns(t) == OperatingRuns(s);
    if s.pool.active > 0 {
      assert Drainers(t) == Drainers(s) + {caller};
    } else {
      assert forall close :: close in s.settled ==> close != s.pool.closes;
    }
  }

  lemma StopKeepsInv(s: System)
    requires Inv(s)
    ensures Inv(s.(pool := Stop(s.pool)))
  {
    var t := s.(pool := Stop(s.pool));
    assert OperatingRuns(t) == OperatingRuns(s) && Drainers(t) == Drainers(s);
  }

  /** Every step of every interleaving keeps the invariant. */
  lemma StepKeepsInv(s: System, e: Event)
    requires Inv(s) && Enabled(s, e)
    ensures Inv(Step(s, e))
  {
    var t := Step(s, e);
    match e
    case RunCalled(run) => EntryKeepsInv(s, run);
    case RunResumed(run) => EntryKeepsInv(s, run);
    case OperationEnded(run) => LeaveKeepsInv(s, run);
    case ShutdownCalled(caller) =>
      StopKeepsInv(s);
      AwaitKeepsInv(s.(pool := Stop(s.pool)), caller);
    case ShutdownResumed(caller) => AwaitKeepsInv(s, caller);
    case ShutdownReturned(caller) => assert OperatingRuns(t) == OperatingRuns(s) && Drainers(t) == Drainers(s);
    case _ => assert OperatingRuns(t) == OperatingRuns(s) && Drainers(t) == Drainers(s);
  }

  lemma {:induction false} ExecutionKeepsInv(s: System, events: seq<Event>, last: System)
    requires Inv(s) && Execution(s, events, last)
    ensures Inv(last)
    decreases |events|
  {
    if events != [] {
      StepKeepsInv(s, events[0]);
      ExecutionKeepsInv(Step(s, events[0]), events[1..], last);
    }
  }

  /**
   In every reachable state: a disconnect that is running overlaps no operation, a close in progress
   means no active operation, and an armed timer means idle, not closing and not stopping.
   */
  lemma DisconnectNeverOverlaps(idleMs: nat, events: seq<Event>, s: System)
    requires Execution(NewSystem(idleMs), events, s)
    ensures s.disconnecting != {} || s.pool.closing.Some? ==> OperatingRuns(s) == {} && s.pool.active == 0
    ensures |s.disconnecting| <= 1
    ensures s.pool.timer ==> s.pool.active == 0 && s.pool.closing.None? && !s.pool.stopping
  {
    NewSystemInv(idleMs);
    ExecutionKeepsInv(NewSystem(idleMs), events, s);
    if s.disconnecting != {} {
      var close :| close in s.disconnecting;
      assert s.disconnecting == {close};
    }
  }

  /** Once the pool is stopping and drained, no continuation ever starts another operation. */
  lemma {:induction false} StoppedStaysDrained(s: System, events: seq<Event>, last: System)
    requires Inv(s) && s.pool.stopping && s.pool.active == 0 && Execution(s, events, last)
    ensures last.pool.stopping && last.pool.active == 0 && OperatingRuns(last) == {}
    decreases |events|
  {
    if events != [] {
      StepKeepsInv(s, events[0]);
      StoppedStaysDrained(Step(s, events[0]), events[1..], last);
    }
  }

  // ---- Shutdown callers -----------------------------------------------------------------------

  /** A draining caller nobody will wake: its resolve function has been overwritten or dropped. */
  ghost predicate Lost(s: System, caller: nat) {
    caller in Drainers(s) && s.pool.drained != Some(caller)
  }

  /** A lost caller stays lost: its `shutdown` promise never settles. */
  lemma {:induction false} LostForever(s: System, caller: nat, events: seq<Event>, last: System)
    requires Lost(s, caller) && Execution(s, events, last)
    ensures Lost(last, caller)
    decreases |events|
  {
    if events != [] {
      var t := Step(s, events[0]);
      assert Lost(t, caller);
      LostForever(t, caller, events[1..], last);
    }
  }

  /** With one shutdown caller at most, no reachable state has a lost caller: it waits for an active operation. */
  lemma SingleCallerIsWoken(idleMs: nat, events: seq<Event>, s: System, caller: nat)
    requires Execution(NewSystem(idleMs), events, s) && OneCaller(events)
    ensures !Lost(s, caller)
    ensures caller in Drainers(s) ==> s.pool.active > 0
  {
    NewSystemInv(idleMs);
    SingleCallerInv(NewSystem(idleMs), events, s);
  }

  predicate OneCaller(events: seq<Event>) {
    forall i, j :: 0 <= i < j < |events| ==> !(events[i].ShutdownCalled? && events[j].ShutdownCalled?)
  }

  predicate NoCall(events: seq<Event>) {
    forall i :: 0 <= i < |events| ==> !events[i].ShutdownCalled?
  }

  ghost predicate NobodyLost(s: System) {
    |s.callers| <= 1 && forall caller :: !Lost(s, caller)
  }

  lemma {:induction false} SingleCallerInv(s: System, events: seq<Event>, last: System)
    requires Inv(s) && NobodyLost(s) && Execution(s, events, last)
    requires (s.callers == map[] && OneCaller(events)) || NoCall(events)
    ensures Inv(last) && NobodyLost(last)
    decreases |events|
  {
    if events != [] {
      var t := Step(s, events[0]);
      StepKeepsInv(s, events[0]);
      SingleCallerStep(s, events[0]);
      if events[0].ShutdownCalled? {
        assert forall i :: 0 <= i < |events[1..]| ==> events[1..][i] == events[i + 1];
        assert NoCall(events[1..]);
      }
      SingleCallerInv(t, events[1..], last);
    }
  }

  lemma SingleCallerStep(s: System, e: Event)
    requires Inv(s) && NobodyLost(s) && Enabled(s, e)
    requires e.ShutdownCalled? ==> s.callers == map[]
    ensures NobodyLost(Step(s, e))
    ensures !e.ShutdownCalled? && s.callers == map[] ==> Step(s, e).callers == map[]
  {
    var t := Step(s, e);
    if s.callers.Keys != {} {
      var only :| only in s.callers.Keys;
      assert s.callers.Keys == {only} by { OnlyMember(s.callers.Keys, only); }
      assert t.callers.Keys <= {only};
      SubsetSize(t.callers.Keys, {only});
      assert !Lost(s, only);
      forall caller ensures !Lost(t, caller) {
        assert caller in t.callers ==> caller in t.callers.Keys;
      }
    } else if e.ShutdownCalled? {
      assert t.callers.Keys == {e.caller};
    }
  }

  lemma OnlyMember(a: set<nat>, x: nat)
    requires x in a && |a| <= 1
    ensures a == {x}
  {
    SubsetSize({x}, a);
    assert |a - {x}| == |a| - 1;
  }

  /** Two callers that both wait for the same drain: the first one is lost. */
  lemma SecondCallerLosesTheFirst()
    ensures var events := [RunCalled(0), ShutdownCalled(0), ShutdownCalled(1), OperationEnded(0)];
      exists s :: Execution(NewSystem(1000), events, s) && Lost(s, 0)
  {
    var s0 := NewSystem(1000);
    var s1 := Step(s0, RunCalled(0));
    var s2 := Step(s1, ShutdownCalled(0));
    var s3 := Step(s2, ShutdownCalled(1));
    var s4 := Step(s3, OperationEnded(0));
    assert Execution(s4, [], s4);
    assert Execution(s3, [OperationEnded(0)], s4);
    assert Execution(s2, [ShutdownCalled(1), OperationEnded(0)], s4);
    assert Execution(s1, [ShutdownCalled(0), ShutdownCalled(1), OperationEnded(0)], s4);
    assert Lost(s4, 0);
  }

  /** At some state of a run two callers are draining. */
  ghost predicate EverTwoDrain(s: System, events: seq<Event>)
    decreases |events|
  {
    || |Drainers(s)| >= 2
    || (events != [] && Enabled(s, events[0]) && EverTwoDrain(Step(s, events[0]), events[1..]))
  }

  ghost predicate SomeoneLost(s: System) { exists caller :: Lost(s, caller) }

  /** Of two draining callers one is lost, since one resolve function at most is kept. */
  lemma OneOfTwoIsLost(s: System)
    requires |Drainers(s)| >= 2
    ensures SomeoneLost(s)
  {
    var kept := if s.pool.drained.Some? then {s.pool.drained.value} else {};
    if Drainers(s) <= kept { SubsetSize(Drainers(s), kept); }
    var caller :| caller in Drainers(s) && caller !in kept;
    assert Lost(s, caller);
  }

  /** Nobody gets lost by a step that does not leave two callers draining. */
  lemma StepLosesNobody(s: System, e: Event)
    requires Inv(s) && Enabled(s, e) && !SomeoneLost(s) && |Drainers(Step(s, e))| < 2
    ensures !SomeoneLost(Step(s, e))
  {
    var t := Step(s, e);
    StepKeepsInv(s, e);
    forall caller ensures !Lost(t, caller) {
      assert !Lost(s, caller);
      if caller in Drainers(t) { OnlyMember(Drainers(t), caller); }
    }
  }

  lemma {:induction false} LostAfterTwoDrain(s: System, events: seq<Event>, last: System)
    requires Inv(s) && !SomeoneLost(s) && Execution(s, events, last)
    ensures SomeoneLost(last) <==> EverTwoDrain(s, events)
    decreases |events|
  {
    if |Drainers(s)| >= 2 { OneOfTwoIsLost(s); }
    if events != [] {
      var t := Step(s, events[0]);
      StepKeepsInv(s, events[0]);
      if |Drainers(t)| >= 2 {
        OneOfTwoIsLost(t);
        var caller :| Lost(t, caller);
        LostForever(t, caller, events[1..], last);
        assert Lost(last, caller);
      } else {
        StepLosesNobody(s, events[0]);
        LostAfterTwoDrain(t, events[1..], last);
      }
    }
  }

  /** At the end of any run someone is lost if and only if two callers were draining at once in some state of it. */
  lemma LostExactlyWhenTwoDrain(idleMs: nat, events: seq<Event>, s: System)
    requires Execution(NewSystem(idleMs), events, s)
    ensures (exists caller :: Lost(s, caller)) <==> EverTwoDrain(NewSystem(idleMs), events)
  {
    NewSystemInv(idleMs);
    assert forall caller :: caller !in Drainers(NewSystem(idleMs));
    LostAfterTwoDrain(NewSystem(idleMs), events, s);
  }
}
