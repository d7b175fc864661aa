/**
 How long setup tokens and onboarding sessions of the local account serve, and what ends them
 (apps/api/src/auth/local-auth.service.ts, apps/api/src/auth/bootstrap-local-super-admin.ts).
 */
module AccountOutcomes {
  import opened Outcomes
  import opened LocalAccount

  // ---- Lifetimes ------------------------------------------------------------------------------

  function Later(s: State, ms: nat): State { s.(now := s.now + ms) }

  lemma NewestToken(tokens: seq<Token>, t: Token)
    ensures FindToken(tokens + [t], t.hash) == Some(|tokens|)
  {
  }

  /** A bootstrap makes an invited account of its name without a password, which can be recovered under that name. */
  lemma BootstrapMakesAccount(c: Config, s: State, username: string, hash: string, other: string)
    ensures Bootstrap(c, s, username, hash).Success? <==>
      s.account.None? && forall i :: 0 <= i < |s.tokens| ==> s.tokens[i].hash != hash
    ensures Bootstrap(c, s, username, hash).Success? ==>
      && Bootstrap(c, s, username, hash).value.account == Some(Account(username, Invited, false, 1))
      && (RecoverRead(Bootstrap(c, s, username, hash).value, other).Success? <==> other == username)
  {
  }

  /** The token of a bootstrap is accepted exactly for the lifetime of setup tokens. */
  lemma BootstrapTokenLasts(c: Config, s: State, username: string, hash: string, ms: nat, sessionId: string)
    requires Bootstrap(c, s, username, hash).Success?
    ensures Accept(c, Later(Bootstrap(c, s, username, hash).value, ms), hash, sessionId).Success? <==> ms < c.setupTtl
  {
    NewestToken(s.tokens, NewToken(c, s.now, hash));
  }

  /** So is the token of a recovery. */
  lemma RecoveryTokenLasts(c: Config, s: State, hash: string, ms: nat, sessionId: string)
    requires RecoverWrite(c, s, hash).Success?
    ensures Accept(c, Later(RecoverWrite(c, s, hash).value, ms), hash, sessionId).Success? <==> ms < c.setupTtl
  {
    NewestToken(RevokeTokens(s.tokens), NewToken(c, s.now, hash));
  }

  /** The onboarding session an accepted token opens can set the first password until the nearer of its expiries. */
  lemma OnboardingLasts(c: Config, s: State, hash: string, sessionId: string, ms: nat, full: string)
    requires Accept(c, s, hash, sessionId).Success?
    ensures Complete(c, Later(Accept(c, s, hash, sessionId).value, ms), |s.sessions|, full).Success? <==>
      ms < c.idleTtl && ms < c.absoluteTtl
    ensures var t := Accept(c, s, hash, sessionId).value;
      && s.account.Some? && t.account == Some(s.account.value.(invite := VerifiedPendingPassword))
      && exists i :: (
           && 0 <= i < |s.tokens| && s.tokens[i].hash == hash && s.now < s.tokens[i].expiresAt
           && t.tokens == s.tokens[i := Token(hash, s.tokens[i].expiresAt, true, false)])
  {
    var t := Accept(c, s, hash, sessionId).value;
    assert t.sessions[|s.sessions|] == NewSession(c, s.now, sessionId, true);
  }

  /** A recovery is for the account of its name only; it takes an active account's password away. */
  lemma RecoveryIsForItsAccount(c: Config, s: State, username: string, hash: string)
    requires RecoverRead(s, username).Success?
    ensures s.account.Some? && s.account.value.username == username
    ensures var w := RecoverWrite(c, RecoverRead(s, username).value, hash);
      w.Success? ==>
        && w.value.account.Some? && w.value.account.value.username == username
        && w.value.account.value.invite == Invited && !w.value.account.value.credential
        && w.value.account.value.authzVersion == s.account.value.authzVersion + 1
  {
  }

  // ---- Who sets the first password ------------------------------------------------------------

  /** An open onboarding session goes with an account that has accepted a token and has no password from it yet. */
  predicate OnboardingTells(s: State) {
    forall k :: 0 <= k < |s.sessions| && s.sessions[k].onboarding && !s.sessions[k].revoked ==>
      s.account.Some? && s.account.value.invite == VerifiedPendingPassword
  }

  lemma StepKeepsOnboarding(c: Config, s: State, e: Event)
    requires Enabled(s, e) && OnboardingTells(s) && (s.account.None? ==> s.sessions == [])
    ensures OnboardingTells(Step(c, s, e)) && (Step(c, s, e).account.None? ==> Step(c, s, e).sessions == [])
  {
  }

  lemma {:induction false} ExecutionKeepsOnboarding(c: Config, s: State, events: seq<Event>, last: State)
    requires OnboardingTells(s) && (s.account.None? ==> s.sessions == []) && Execution(c, s, events, last)
    ensures OnboardingTells(last)
    decreases |events|
  {
    if events != [] {
      StepKeepsOnboarding(c, s, events[0]);
      ExecutionKeepsOnboarding(c, Step(c, s, events[0]), events[1..], last);
    }
  }

  /** In every run exactly the open, unexpired onboarding sessions can set the first password. */
  lemma CompletesExactly(c: Config, now: int, events: seq<Event>, last: State, k: nat, full: string)
    requires Execution(c, Start(now), events, last)
    ensures Complete(c, last, k, full).Success? <==>
      && k < |last.sessions| && last.sessions[k].onboarding && !last.sessions[k].revoked
      && last.now < last.sessions[k].idleExpiresAt && last.now < last.sessions[k].absoluteExpiresAt
  {
    ExecutionKeepsOnboarding(c, Start(now), events, last);
  }

  /** Whatever the sessions look like, no password is set for an account that is not waiting for its first one. */
  lemma OnlyPendingCompletes(c: Config, s: State, k: nat, full: string)
    requires s.account.None? || s.account.value.invite != VerifiedPendingPassword
    ensures Complete(c, s, k, full).Failure?
  {
  }

  /** In every run a recovery that has read the account can write, unless its new token's hash is taken. */
  lemma WriteFailsExactly(c: Config, now: int, events: seq<Event>, last: State, hash: string)
    requires Execution(c, Start(now), events, last) && last.recovering.Some?
    ensures RecoverWrite(c, last, hash).Failure? <==> exists i :: 0 <= i < |last.tokens| && last.tokens[i].hash == hash
  {
    ExecutionKeepsAccount(c, Start(now), events, last, false);
  }

  // ---- What is spent stays spent --------------------------------------------------------------

  predicate Closed(s: State, k: nat) { k < |s.sessions| && s.sessions[k].revoked }

  predicate Spent(s: State, i: nat, hash: string) {
    i < |s.tokens| && s.tokens[i].hash == hash && !Live(s.tokens[i]) && DistinctTokens(s.tokens)
  }

  lemma StepKeepsClosed(c: Config, s: State, e: Event, k: nat)
    requires Enabled(s, e) && Closed(s, k)
    ensures Closed(Step(c, s, e), k)
  {
  }

  lemma FoundToken(tokens: seq<Token>, i: nat)
    requires i < |tokens| && DistinctTokens(tokens)
    ensures FindToken(tokens, tokens[i].hash) == Some(i)
  {
    var at := FindToken(tokens, tokens[i].hash).value;
    assert tokens[at].hash == tokens[i].hash;
  }

  lemma StepKeepsSpent(c: Config, s: State, e: Event, i: nat, hash: string)
    requires Enabled(s, e) && Spent(s, i, hash)
    ensures Spent(Step(c, s, e), i, hash)
  {
    FoundToken(s.tokens, i);
  }

  /** A session that has been closed sets no password in any continuation. */
  lemma {:induction false} ClosedForGood(
      c: Config, s: State, events: seq<Event>, last: State, k: nat, sessionId: string)
    requires Closed(s, k) && Execution(c, s, events, last)
    ensures Complete(c, last, k, sessionId).Failure?
    decreases |events|
  {
    if events != [] {
      StepKeepsClosed(c, s, events[0], k);
      ClosedForGood(c, Step(c, s, events[0]), events[1..], last, k, sessionId);
    }
  }

  lemma {:induction false} SpentForGood(
      c: Config, s: State, events: seq<Event>, last: State, i: nat, hash: string, sessionId: string)
    requires Spent(s, i, hash) && Execution(c, s, events, last)
    ensures Accept(c, last, hash, sessionId).Failure?
    decreases |events|
  {
    if events != [] {
      StepKeepsSpent(c, s, events[0], i, hash);
      SpentForGood(c, Step(c, s, events[0]), events[1..], last, i, hash, sessionId);
    } else {
      FoundToken(s.tokens, i);
    }
  }

  /** A setup token is accepted once: after that it is refused in every continuation. */
  lemma AcceptedOnce(
      c: Config, s: State, hash: string, sessionId: string, events: seq<Event>, last: State, again: string)
    requires DistinctTokens(s.tokens) && Accept(c, s, hash, sessionId).Success?
    requires Execution(c, Accept(c, s, hash, sessionId).value, events, last)
    ensures Accept(c, last, hash, again).Failure?
  {
    SpentForGood(c, Accept(c, s, hash, sessionId).value, events, last, FindToken(s.tokens, hash).value, hash, again);
  }

  /** A recovery ends every earlier token and session for good. */
  lemma RecoveryEndsEarlier(
      c: Config, s: State, hash: string, events: seq<Event>, last: State, i: nat, k: nat, sessionId: string)
    requires DistinctTokens(s.tokens) && RecoverWrite(c, s, hash).Success?
    requires Execution(c, RecoverWrite(c, s, hash).value, events, last)
    ensures i < |s.tokens| ==> Accept(c, last, s.tokens[i].hash, sessionId).Failure?
    ensures k < |s.sessions| ==> Complete(c, last, k, sessionId).Failure?
  {
    var t := RecoverWrite(c, s, hash).value;
    if i < |s.tokens| { SpentForGood(c, t, events, last, i, s.tokens[i].hash, sessionId); }
    if k < |s.sessions| { ClosedForGood(c, t, events, last, k, sessionId); }
  }
}
