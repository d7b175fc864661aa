/**
 The life cycle of the local super administrator: bootstrap, recovery, acceptance of a setup token
 and the first password (apps/api/src/auth/bootstrap-local-super-admin.ts,
 apps/api/src/auth/local-auth.service.ts).

 There is at most one local identity, because a bootstrap demands that there is none. Bootstrap,
 acceptance and completion are single atomic steps; a recovery first reads and then writes, and takes
 an advisory lock that only bootstrap and recovery share, so other transactions may commit in between.
 */
module LocalAccount {
  import opened Outcomes

  datatype Invite = Invited | VerifiedPendingPassword | Active

  datatype Account = Account(username: string, invite: Invite, credential: bool, authzVersion: nat)

  datatype Token = Token(hash: string, expiresAt: int, used: bool, revoked: bool)

  datatype Session = Session(id: string, onboarding: bool, revoked: bool, idleExpiresAt: int, absoluteExpiresAt: int)

  datatype Kind = UnfinishedBootstrap | ActiveBreakGlass

  datatype State = State(
    now: int, account: Option<Account>, tokens: seq<Token>, sessions: seq<Session>, recovering: Option<Kind>)

  datatype Config = Config(setupTtl: nat, idleTtl: nat, absoluteTtl: nat)

  // ---- Rows -----------------------------------------------------------------------------------

  predicate Live(t: Token) { !t.used && !t.revoked }

  function LiveTokens(tokens: seq<Token>): nat {
    if tokens == [] then 0 else LiveTokens(tokens[..|tokens| - 1]) + if Live(tokens[|tokens| - 1]) then 1 else 0
  }

  function OpenSessions(sessions: seq<Session>): nat {
    if sessions == [] then 0
    else OpenSessions(sessions[..|sessions| - 1]) + if sessions[|sessions| - 1].revoked then 0 else 1
  }

  function RevokeTokens(tokens: seq<Token>): (r: seq<Token>)
    ensures |r| == |tokens| && forall i :: 0 <= i < |r| ==> r[i].hash == tokens[i].hash && !Live(r[i])
  {
    seq(|tokens|, i requires 0 <= i < |tokens| => if Live(tokens[i]) then tokens[i].(revoked := true) else tokens[i])
  }

  function RevokeSessions(sessions: seq<Session>): (r: seq<Session>)
    ensures |r| == |sessions| && forall i :: 0 <= i < |r| ==> r[i].id == sessions[i].id && r[i].revoked
  {
    seq(|sessions|, i requires 0 <= i < |sessions| => sessions[i].(revoked := true))
  }

  function FindToken(tokens: seq<Token>, hash: string): (r: Option<nat>)
    ensures r.Some? ==> r.value < |tokens| && tokens[r.value].hash == hash
    ensures r.None? ==> forall i :: 0 <= i < |tokens| ==> tokens[i].hash != hash
  {
    if tokens == [] then None
    else if tokens[|tokens| - 1].hash == hash then Some(|tokens| - 1) else FindToken(tokens[..|tokens| - 1], hash)
  }

  function NewToken(c: Config, now: int, hash: string): Token { Token(hash, now + c.setupTtl, false, false) }

  function NewSession(c: Config, now: int, id: string, onboarding: bool): Session {
    Session(id, onboarding, false, now + c.idleTtl, now + c.absoluteTtl)
  }

  // ---- Operations -----------------------------------------------------------------------------

  /** Create the one local identity with its first setup token. */
  function Bootstrap(c: Config, s: State, username: string, hash: string): Result<State> {
    if s.account.Some? then Failure("BOOTSTRAP_REQUIRES_EMPTY_LOCAL_IDENTITY_SET")
    else if FindToken(s.tokens, hash).Some? then Failure("UNIQUE_CONSTRAINT")
    else
      Success(s.(
        account := Some(Account(username, Invited, false, 1)), tokens := s.tokens + [NewToken(c, s.now, hash)]))
  }

  /** Which recovery the account qualifies for, if any. */
  function RecoveryKind(account: Option<Account>, username: string): Option<Kind> {
    if account.None? || account.value.username != username then None
    else if account.value.invite == Active then if account.value.credential then Some(ActiveBreakGlass) else None
    else if !account.value.credential then Some(UnfinishedBootstrap) else None
  }

  function RecoverRead(s: State, username: string): Result<State> {
    var kind := RecoveryKind(s.account, username);
    if kind.None? then Failure("BOOTSTRAP_RECOVERY_STATE_REJECTED") else Success(s.(recovering := kind))
  }

  /** Revoke tokens and sessions, drop the credential when it was seen, and issue a new setup token. */
  function RecoverWrite(c: Config, s: State, hash: string): Result<State> {
    if s.recovering.None? || s.account.None? then Failure("NOT_RECOVERING")
    else if s.recovering.value == ActiveBreakGlass && !s.account.value.credential then Failure("RECORD_NOT_FOUND")
    else if FindToken(s.tokens, hash).Some? then Failure("UNIQUE_CONSTRAINT")
    else
      var a := s.account.value;
      Success(s.(
        account := Some(a.(invite := Invited, authzVersion := a.authzVersion + 1,
          credential := a.credential && s.recovering.value != ActiveBreakGlass)),
        tokens := RevokeTokens(s.tokens) + [NewToken(c, s.now, hash)],
        sessions := RevokeSessions(s.sessions), recovering := None))
  }

  predicate TokenAcceptable(s: State, hash: string) {
    var at := FindToken(s.tokens, hash);
    && at.Some? && Live(s.tokens[at.value]) && s.tokens[at.value].expiresAt > s.now
    && s.account.Some? && s.account.value.invite != Active
  }

  /** Use up a setup token and open an onboarding session. */
  function Accept(c: Config, s: State, hash: string, sessionId: string): Result<State> {
    if !TokenAcceptable(s, hash) then Failure("INVALID_CREDENTIALS")
    else
      var i := FindToken(s.tokens, hash).value;
      Success(s.(
        account := Some(s.account.value.(invite := VerifiedPendingPassword)),
        tokens := s.tokens[i := s.tokens[i].(used := true)],
        sessions := s.sessions + [NewSession(c, s.now, sessionId, true)]))
  }

  predicate MayComplete(s: State, k: nat) {
    && k < |s.sessions| && s.sessions[k].onboarding && !s.sessions[k].revoked
    && s.sessions[k].idleExpiresAt > s.now && s.sessions[k].absoluteExpiresAt > s.now
    && s.account.Some? && s.account.value.invite == VerifiedPendingPassword
  }

  /** Set the password from an onboarding session: all sessions close and one full session opens. */
  function Complete(c: Config, s: State, k: nat, sessionId: string): Result<State> {
    if !MayComplete(s, k) then Failure("SESSION_INVALID")
    else
      var a := s.account.value;
      Success(s.(
        account := Some(a.(invite := Active, credential := true, authzVersion := a.authzVersion + 1)),
        sessions := RevokeSessions(s.sessions) + [NewSession(c, s.now, sessionId, false)]))
  }

  // ---- Runs -----------------------------------------------------------------------------------

  datatype Event =
    | Tick(ms: nat)
    | Bootstrapping(username: string, hash: string)
    | Reading(username: string)
    | Writing(hash: string)
    | Abandoning
    | Accepting(hash: string, sessionId: string)
    | Completing(session: nat, sessionId: string)
    | Closing(session: nat)

  /** The advisory lock keeps bootstraps and recoveries apart. */
  predicate Enabled(s: State, e: Event) {
    match e
    case Bootstrapping(_, _) => s.recovering.None?
    case Reading(_) => s.recovering.None?
    case Writing(_) => s.recovering.Some?
    case Abandoning => s.recovering.Some?
    case Closing(k) => k < |s.sessions|
    case _ => true
  }

  function Attempt(c: Config, s: State, e: Event): Result<State>
    requires Enabled(s, e)
  {
    match e
    case Tick(ms) => Success(s.(now := s.now + ms))
    case Bootstrapping(username, hash) => Bootstrap(c, s, username, hash)
    case Reading(username) => RecoverRead(s, username)
    case Writing(hash) => RecoverWrite(c, s, hash)
    case Abandoning => Success(s.(recovering := None))
    case Accepting(hash, sessionId) => Accept(c, s, hash, sessionId)
    case Completing(k, sessionId) => Complete(c, s, k, sessionId)
    case Closing(k) => Success(s.(sessions := s.sessions[k := s.sessions[k].(revoked := true)]))
  }

  /** A refused operation changes nothing; a failed write also ends its recovery. */
  function Step(c: Config, s: State, e: Event): State
    requires Enabled(s, e)
  {
    var r := Attempt(c, s, e);
    if r.Success? then r.value else if e.Writing? then s.(recovering := None) else s
  }

  ghost predicate Execution(c: Config, s: State, events: seq<Event>, last: State)
    decreases |events|
  {
    if events == [] then s == last
    else Enabled(s, events[0]) && Execution(c, Step(c, s, events[0]), events[1..], last)
  }

  // ---- When recovery is spoiled ---------------------------------------------------------------

  /** A first password is set while a recovery has read but not written. */
  predicate Overlap(s: State, e: Event) { e.Completing? && s.recovering.Some? && MayComplete(s, e.session) }

  /**
   Whether the account is spoiled after one more event: a recovery that had read an unfinished account
   writes although a credential has appeared since. The next first password mends it.
   */
  function SpoiledBy(c: Config, s: State, e: Event, spoiled: bool): bool
    requires Enabled(s, e)
  {
    if e.Writing? && RecoverWrite(c, s, e.hash).Success? then
      s.recovering == Some(UnfinishedBootstrap) && s.account.value.credential
    else if e.Completing? && MayComplete(s, e.session) then false
    else spoiled
  }

  /** The same over a whole run, by what its events found when they happened. */
  ghost function Spoiled(c: Config, s: State, events: seq<Event>, spoiled: bool): bool
    decreases |events|
  {
    if events == [] || !Enabled(s, events[0]) then spoiled
    else Spoiled(c, Step(c, s, events[0]), events[1..], SpoiledBy(c, s, events[0], spoiled))
  }

  function Start(now: int): State { State(now, None, [], [], None) }

  // ---- Invariants -----------------------------------------------------------------------------

  predicate DistinctTokens(tokens: seq<Token>) {
    forall i, j :: 0 <= i < j < |tokens| ==> tokens[i].hash != tokens[j].hash
  }

  predicate TokensSound(s: State) { LiveTokens(s.tokens) <= 1 && DistinctTokens(s.tokens) }

  /** What the account looks like, spoiled or not. */
  predicate AccountTells(s: State, spoiled: bool) {
    && (s.account.None? ==> !spoiled && s.recovering.None?)
    && (spoiled ==> s.recovering.None? && s.account.value.credential && s.account.value.invite != Active)
    && (!spoiled && s.account.Some? ==> (s.account.value.invite == Active <==> s.account.value.credential))
    && (s.recovering == Some(ActiveBreakGlass) ==> s.account.value.invite == Active)
  }

  /** What the source promises of an account: ACTIVE exactly with a credential, and recovery accepted. */
  predicate Recoverable(s: State)
    requires s.account.Some?
  {
    && (s.account.value.invite == Active <==> s.account.value.credential)
    && RecoverRead(s, s.account.value.username).Success?
  }

  lemma {:induction false} NoneLive(tokens: seq<Token>)
    requires forall i :: 0 <= i < |tokens| ==> !Live(tokens[i])
    ensures LiveTokens(tokens) == 0
  {
    if tokens != [] { NoneLive(tokens[..|tokens| - 1]); }
  }

  lemma LiveAppend(tokens: seq<Token>, t: Token)
    ensures LiveTokens(tokens + [t]) == LiveTokens(tokens) + if Live(t) then 1 else 0
  {
    assert (tokens + [t])[..|tokens|] == tokens;
  }

  lemma {:induction false} LiveUpdate(tokens: seq<Token>, i: nat, t: Token)
    requires i < |tokens|
    ensures LiveTokens(tokens[i := t]) ==
      LiveTokens(tokens) - (if Live(tokens[i]) then 1 else 0) + if Live(t) then 1 else 0
  {
    var n := |tokens| - 1;
    if i < n {
      LiveUpdate(tokens[..n], i, t);
      assert tokens[i := t][..n] == tokens[..n][i := t];
    } else {
      assert tokens[i := t][..n] == tokens[..n];
    }
  }

  lemma ReissueKeepsTokens(c: Config, s: State, hash: string)
    requires TokensSound(s) && FindToken(s.tokens, hash).None?
    ensures
      var tokens := RevokeTokens(s.tokens) + [NewToken(c, s.now, hash)];
      LiveTokens(tokens) == 1 && DistinctTokens(tokens)
  {
    NoneLive(RevokeTokens(s.tokens));
    LiveAppend(RevokeTokens(s.tokens), NewToken(c, s.now, hash));
  }

  /** Tokens are safe in every interleaving: one live setup token at most. */
  lemma StepKeepsTokens(c: Config, s: State, e: Event)
    requires Enabled(s, e) && TokensSound(s) && (s.account.None? ==> LiveTokens(s.tokens) == 0)
    ensures TokensSound(Step(c, s, e))
    ensures Step(c, s, e).account.None? ==> LiveTokens(Step(c, s, e).tokens) == 0
  {
    match e
    case Bootstrapping(_, hash) =>
      if s.account.None? && FindToken(s.tokens, hash).None? { IssueKeepsTokens(c, s, hash); }
    case Writing(hash) =>
      if FindToken(s.tokens, hash).None? { ReissueKeepsTokens(c, s, hash); }
    case Accepting(hash, _) =>
      if TokenAcceptable(s, hash) { UseKeepsTokens(s, FindToken(s.tokens, hash).value); }
    case _ =>
  }

  lemma UseKeepsTokens(s: State, i: nat)
    requires i < |s.tokens| && Live(s.tokens[i]) && TokensSound(s)
    ensures var tokens := s.tokens[i := s.tokens[i].(used := true)]; LiveTokens(tokens) == 0 && DistinctTokens(tokens)
  {
    LiveUpdate(s.tokens, i, s.tokens[i].(used := true));
    LiveCounts(s.tokens, i);
  }

  lemma {:induction false} LiveCounts(tokens: seq<Token>, i: nat)
    requires i < |tokens| && Live(tokens[i])
    ensures LiveTokens(tokens) >= 1
  {
    if i < |tokens| - 1 { LiveCounts(tokens[..|tokens| - 1], i); }
  }

  lemma IssueKeepsTokens(c: Config, s: State, hash: string)
    requires TokensSound(s) && LiveTokens(s.tokens) == 0 && FindToken(s.tokens, hash).None?
    ensures var tokens := s.tokens + [NewToken(c, s.now, hash)]; LiveTokens(tokens) == 1 && DistinctTokens(tokens)
  {
    LiveAppend(s.tokens, NewToken(c, s.now, hash));
  }

  /** In every interleaving the account tells exactly whether it has been spoiled. */
  lemma StepKeepsAccount(c: Config, s: State, e: Event, spoiled: bool)
    requires Enabled(s, e) && AccountTells(s, spoiled)
    ensures AccountTells(Step(c, s, e), SpoiledBy(c, s, e, spoiled))
  {
  }

  lemma {:induction false} ExecutionKeepsAccount(c: Config, s: State, events: seq<Event>, last: State, spoiled: bool)
    requires AccountTells(s, spoiled) && Execution(c, s, events, last)
    ensures AccountTells(last, Spoiled(c, s, events, spoiled))
    decreases |events|
  {
    if events != [] {
      StepKeepsAccount(c, s, events[0], spoiled);
      ExecutionKeepsAccount(c, Step(c, s, events[0]), events[1..], last, SpoiledBy(c, s, events[0], spoiled));
    }
  }

  lemma {:induction false} ExecutionKeepsTokens(c: Config, s: State, events: seq<Event>, last: State)
    requires TokensSound(s) && (s.account.None? ==> LiveTokens(s.tokens) == 0) && Execution(c, s, events, last)
    ensures LiveTokens(last.tokens) <= 1
    decreases |events|
  {
    if events != [] {
      StepKeepsTokens(c, s, events[0]);
      ExecutionKeepsTokens(c, Step(c, s, events[0]), events[1..], last);
    }
  }

  /**
   Exactly, in every run: the account is ACTIVE exactly when there is a credential, and a recovery under
   its name is accepted, if and only if no recovery has spoiled it since the last first password.
   */
  lemma RecoverableExactly(c: Config, now: int, events: seq<Event>, last: State)
    requires Execution(c, Start(now), events, last) && last.account.Some?
    ensures Recoverable(last) <==> !Spoiled(c, Start(now), events, false)
  {
    ExecutionKeepsAccount(c, Start(now), events, last, false);
  }

  /** There is one live setup token at most in every run. */
  lemma OneLiveToken(c: Config, now: int, events: seq<Event>, last: State)
    requires Execution(c, Start(now), events, last)
    ensures LiveTokens(last.tokens) <= 1
  {
    ExecutionKeepsTokens(c, Start(now), events, last);
  }

  /** The overlap followed by the recovery's write is how an account gets spoiled. */
  lemma OverlapSpoils(c: Config, s: State, e: Event, hash: string)
    requires Overlap(s, e) && s.recovering == Some(UnfinishedBootstrap) && FindToken(s.tokens, hash).None?
    ensures
      var t := Step(c, s, e);
      && SpoiledBy(c, t, Writing(hash), false)
      && Stuck(Step(c, t, Writing(hash))) && TokenAcceptable(Step(c, t, Writing(hash)), hash) == (c.setupTtl > 0)
  {
  }

  /** It can happen as soon as a setup token has been accepted. */
  lemma OverlapArises(c: Config, s: State, hash: string, onboarding: string, full: string)
    requires AccountTells(s, false) && s.recovering.None? && Accept(c, s, hash, onboarding).Success?
    requires c.idleTtl > 0 && c.absoluteTtl > 0
    ensures
      var accepted := Step(c, s, Accepting(hash, onboarding));
      var read := Step(c, accepted, Reading(s.account.value.username));
      Overlap(read, Completing(|s.sessions|, full)) && read.recovering == Some(UnfinishedBootstrap)
  {
    var accepted := Step(c, s, Accepting(hash, onboarding));
    assert accepted.sessions[|s.sessions|] == NewSession(c, s.now, onboarding, true);
  }

  /** A spoiled account: it has a credential and is not active, so every recovery is refused. */
  predicate Stuck(s: State) {
    && s.account.Some? && s.account.value.credential && s.account.value.invite != Active && s.recovering.None?
  }

  predicate NoWayOn(s: State) {
    && (forall i :: 0 <= i < |s.tokens| ==> !(Live(s.tokens[i]) && s.tokens[i].expiresAt > s.now))
    && (forall k :: 0 <= k < |s.sessions| ==> !MayComplete(s, k))
  }

  lemma LockedOutStep(c: Config, s: State, e: Event)
    requires Stuck(s) && NoWayOn(s) && Enabled(s, e)
    ensures Stuck(Step(c, s, e)) && NoWayOn(Step(c, s, e)) && Step(c, s, e).account == s.account
  {
    var t := Step(c, s, e);
    forall k | 0 <= k < |t.sessions| ensures !MayComplete(t, k) {
      assert !MayComplete(s, k);
    }
  }

  /** A spoiled account without an acceptable token and without a session to complete is refused for ever. */
  lemma {:induction false} LockedOutForever(c: Config, s: State, events: seq<Event>, last: State)
    requires Stuck(s) && NoWayOn(s) && Execution(c, s, events, last)
    ensures last.account == s.account && forall username :: RecoverRead(last, username).Failure?
    decreases |events|
  {
    if events != [] {
      LockedOutStep(c, s, events[0]);
      LockedOutForever(c, Step(c, s, events[0]), events[1..], last);
    }
  }

  ghost predicate Mendable(c: Config, s: State) {
    exists events, last ::
      Execution(c, s, events, last) && last.account.Some? && RecoverRead(last, last.account.value.username).Success?
  }

  lemma ExecutionOne(c: Config, s: State, e: Event)
    requires Enabled(s, e)
    ensures Execution(c, s, [e], Step(c, s, e))
  {
    assert [e][1..] == [];
    assert Execution(c, Step(c, s, e), [], Step(c, s, e));
  }

  lemma ExecutionTwo(c: Config, s: State, e: Event, f: Event)
    requires Enabled(s, e) && Enabled(Step(c, s, e), f)
    ensures Execution(c, s, [e, f], Step(c, Step(c, s, e), f))
  {
    assert [e, f][1..] == [f];
    ExecutionOne(c, Step(c, s, e), f);
  }

  /** Exactly then: with an acceptable token or a session to complete, a first password mends the account. */
  lemma MendableExactly(c: Config, s: State)
    requires Stuck(s) && DistinctTokens(s.tokens) && c.idleTtl > 0 && c.absoluteTtl > 0
    ensures Mendable(c, s) <==> !NoWayOn(s)
  {
    if NoWayOn(s) {
      forall events, last | Execution(c, s, events, last)
        ensures last.account.None? || RecoverRead(last, last.account.value.username).Failure?
      {
        LockedOutForever(c, s, events, last);
      }
    } else if k :| 0 <= k < |s.sessions| && MayComplete(s, k) {
      ExecutionOne(c, s, Completing(k, ""));
    } else {
      var i :| 0 <= i < |s.tokens| && Live(s.tokens[i]) && s.tokens[i].expiresAt > s.now;
      AcceptThenComplete(c, s, i);
    }
  }

  lemma AcceptThenComplete(c: Config, s: State, i: nat)
    requires Stuck(s) && DistinctTokens(s.tokens) && c.idleTtl > 0 && c.absoluteTtl > 0
    requires i < |s.tokens| && Live(s.tokens[i]) && s.tokens[i].expiresAt > s.now
    ensures Mendable(c, s)
  {
    var hash := s.tokens[i].hash;
    var at := FindToken(s.tokens, hash).value;
    assert at == i;
    var e, f := Accepting(hash, ""), Completing(|s.sessions|, "");
    var accepted := Step(c, s, e);
    assert accepted.sessions[|s.sessions|] == NewSession(c, s.now, "", true);
    ExecutionTwo(c, s, e, f);
  }

  // ---- Completion -----------------------------------------------------------------------------

  lemma {:induction false} NoneOpen(sessions: seq<Session>)
    requires forall i :: 0 <= i < |sessions| ==> sessions[i].revoked
    ensures OpenSessions(sessions) == 0
  {
    if sessions != [] { NoneOpen(sessions[..|sessions| - 1]); }
  }

  /** Right after the first password exactly one session is open, and it is a full one. */
  lemma CompletionLeavesOneSession(c: Config, s: State, k: nat, sessionId: string)
    requires Complete(c, s, k, sessionId).Success?
    ensures var t := Complete(c, s, k, sessionId).value;
      && OpenSessions(t.sessions) == 1 && !t.sessions[|t.sessions| - 1].revoked
      && !t.sessions[|t.sessions| - 1].onboarding
      && t.account.value.invite == Active && t.account.value.credential
      && t.account.value.username == s.account.value.username
      && t.account.value.authzVersion == s.account.value.authzVersion + 1
  {
    var t := Complete(c, s, k, sessionId).value;
    NoneOpen(RevokeSessions(s.sessions));
    assert t.sessions[..|s.sessions|] == RevokeSessions(s.sessions);
  }

  /** A recovery closes everything: no session stays open and only the new setup token is live. */
  lemma RecoveryClosesAll(c: Config, s: State, hash: string)
    requires TokensSound(s) && RecoverWrite(c, s, hash).Success?
    ensures var t := RecoverWrite(c, s, hash).value;
      && OpenSessions(t.sessions) == 0 && LiveTokens(t.tokens) == 1 && Live(t.tokens[|t.tokens| - 1])
      && t.tokens[|t.tokens| - 1].hash == hash && TokenAcceptable(t, hash) == (c.setupTtl > 0)
  {
    var t := RecoverWrite(c, s, hash).value;
    NoneOpen(RevokeSessions(s.sessions));
    ReissueKeepsTokens(c, s, hash);
  }

  // ---- The tables -----------------------------------------------------------------------------

  class AccountStore {
    const config: Config
    var state: State

    constructor (config: Config, now: int)
      ensures this.config == config && state == Start(now)
    {
      this.config, state := config, Start(now);
    }

    method Apply(username: string, hash: string) returns (r: Result<nat>)
      modifies this
      ensures r.Success? <==> Bootstrap(config, old(state), username, hash).Success?
      ensures state == if r.Success? then Bootstrap(config, old(state), username, hash).value else old(state)
    {
      if state.account.Some? { return Failure("BOOTSTRAP_REQUIRES_EMPTY_LOCAL_IDENTITY_SET"); }
      if FindToken(state.tokens, hash).Some? { return Failure("UNIQUE_CONSTRAINT"); }
      state := state.(account := Some(Account(username, Invited, false, 1)));
      state := state.(tokens := state.tokens + [NewToken(config, state.now, hash)]);
      r := Success(1);
    }

    /** A recovery that nothing interrupts. */
    method Recover(username: string, hash: string) returns (r: Result<nat>)
      requires state.recovering.None?
      modifies this
      ensures r.Success? <==> RecoverRead(old(state), username).Success? && FindToken(old(state).tokens, hash).None?
      ensures r.Success? ==> RecoverWrite(config, RecoverRead(old(state), username).value, hash) == Success(state)
      ensures r.Failure? ==> state == old(state)
    {
      var kind := RecoveryKind(state.account, username);
      if kind.None? { return Failure("BOOTSTRAP_RECOVERY_STATE_REJECTED"); }
      var before := state;
      state := state.(tokens := RevokeTokens(state.tokens));
      state := state.(sessions := RevokeSessions(state.sessions));
      if kind.value == ActiveBreakGlass {
        state := state.(account := Some(state.account.value.(credential := false)));
      }
      state := state.(
        account := Some(state.account.value.(invite := Invited, authzVersion := state.account.value.authzVersion + 1)));
      if FindToken(before.tokens, hash).Some? {
        state := before;
        return Failure("UNIQUE_CONSTRAINT");
      }
      state := state.(tokens := state.tokens + [NewToken(config, state.now, hash)]);
      r := Success(1);
    }

    method AcceptSetupToken(hash: string, sessionId: string) returns (r: Result<string>)
      modifies this
      ensures r.Success? <==> TokenAcceptable(old(state), hash)
      ensures state == if r.Success? then Accept(config, old(state), hash, sessionId).value else old(state)
    {
      if !TokenAcceptable(state, hash) { return Failure("INVALID_CREDENTIALS"); }
      var i := FindToken(state.tokens, hash).value;
      state := state.(tokens := state.tokens[i := state.tokens[i].(used := true)]);
      state := state.(account := Some(state.account.value.(invite := VerifiedPendingPassword)));
      state := state.(sessions := state.sessions + [NewSession(config, state.now, sessionId, true)]);
      r := Success(sessionId);
    }

    method CompleteInitialPassword(session: nat, sessionId: string) returns (r: Result<string>)
      modifies this
      ensures r.Success? <==> MayComplete(old(state), session)
      ensures state == if r.Success? then Complete(config, old(state), session, sessionId).value else old(state)
    {
      if !MayComplete(state, session) { return Failure("SESSION_INVALID"); }
      var a := state.account.value;
      state := state.(account := Some(a.(credential := true)));
      state := state.(account := Some(state.account.value.(invite := Active, authzVersion := a.authzVersion + 1)));
      state := state.(sessions := RevokeSessions(state.sessions));
      state := state.(sessions := state.sessions + [NewSession(config, state.now, sessionId, false)]);
      r := Success(sessionId);
    }
  }
}
