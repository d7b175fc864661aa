/**
 What one request does to a local session: how a refresh ends, how far a touch carries, what a log-out closes
 (apps/api/src/auth/local-auth.service.ts).
 */
module RefreshOutcomes {
  import opened Outcomes
  import opened LocalSessions

  // ---- A refresh with nothing in between ------------------------------------------------------

  /** The statements of one refresh in program order. */
  function Undisturbed(s: State, request: nat, token: Token, nonce: nat): State
    requires request !in s.requests && nonce !in s.nonces
  {
    var touched := Step(s, RefreshTouched(request, token));
    if touched.requests[request].Failing? then Step(touched, RefreshRevoked(request))
    else
      var checked := Step(touched, RefreshChecked(request));
      if checked.requests[request].Failing? then Step(checked, RefreshRevoked(request))
      else Step(checked, RefreshRotated(request, nonce))
  }

  /** Neither revoked nor past one of its two expiries. */
  predicate Open(row: Session, now: int) { !row.revoked && now < row.idleExpires && now < row.absoluteExpires }

  /** The user exists, is active and has the status that goes with the kind of session. */
  predicate MaySignIn(users: map<nat, User>, row: Session) {
    && row.user in users && users[row.user].isActive
    && users[row.user].status == if row.onboarding then PendingPassword else Active
  }

  /** An open session of a user who may sign in. */
  predicate Serviceable(s: State, family: nat) {
    && family in s.sessions && Open(s.sessions[family], s.now) && MaySignIn(s.users, s.sessions[family])
  }

  predicate IsCurrent(s: State, token: Token) {
    token.family in s.sessions && s.sessions[token.family].current == token
  }

  /** The token was superseded less than five seconds ago by the current one. */
  predicate JustSuperseded(s: State, token: Token) {
    && token.family in s.lineage
    && var gens := s.lineage[token.family];
    |gens| >= 2 && gens[|gens| - 2].token == token && s.now < gens[|gens| - 1].since + 5000
  }

  lemma PredecessorIsJustSuperseded(s: State, token: Token)
    requires Inv(s) && token.family in s.sessions
    ensures InGrace(s.sessions[token.family], token, s.now) <==> JustSuperseded(s, token)
  {
    assert RowInv(s.sessions[token.family], token.family, s.lineage[token.family], s.now);
  }

  /** A touch for refresh is accepted for the current and the just superseded token of an open session. */
  lemma KnownExactly(s: State, token: Token)
    requires Inv(s)
    ensures Accepts(s.sessions, token, true, s.now) <==>
      && token.family in s.sessions && Open(s.sessions[token.family], s.now)
      && (IsCurrent(s, token) || JustSuperseded(s, token))
  {
    if token.family in s.sessions { PredecessorIsJustSuperseded(s, token); }
  }

  lemma ServedAnswer(s: State, request: nat, token: Token, nonce: nat)
    requires Inv(s) && request !in s.requests && nonce !in s.nonces
    requires Accepts(s.sessions, token, true, s.now) && MaySignIn(s.users, s.sessions[token.family])
    ensures Undisturbed(s, request, token, nonce).answers == s.answers +
      [if IsCurrent(s, token) then Exchanged(token, Token(token.family, nonce, true))
       else RetryLater(token, false, s.now)]
  {
  }

  lemma RefusedAnswer(s: State, request: nat, token: Token, nonce: nat)
    requires request !in s.requests && nonce !in s.nonces
    requires Accepts(s.sessions, token, true, s.now) ==> !MaySignIn(s.users, s.sessions[token.family])
    ensures Undisturbed(s, request, token, nonce).answers == s.answers + [Rejected(token)]
  {
  }

  /**
   A refresh ends in an exchange exactly for the current token of a serviceable session, in a retry exactly for
   a token just superseded there, and is refused otherwise.
   */
  lemma RefreshDecided(s: State, request: nat, token: Token, nonce: nat)
    requires Inv(s) && request !in s.requests && nonce !in s.nonces
    ensures var answer :=
        if Serviceable(s, token.family) && IsCurrent(s, token) then Exchanged(token, Token(token.family, nonce, true))
        else if Serviceable(s, token.family) && JustSuperseded(s, token) then RetryLater(token, false, s.now)
        else Rejected(token);
      Undisturbed(s, request, token, nonce).answers == s.answers + [answer]
  {
    KnownExactly(s, token);
    if Serviceable(s, token.family) && (IsCurrent(s, token) || JustSuperseded(s, token)) {
      ServedAnswer(s, request, token, nonce);
    } else {
      RefusedAnswer(s, request, token, nonce);
    }
  }

  /**
   After an exchange the new token is accepted until the nearer expiry, the old one for refresh only and for
   five seconds at most, and every other family accepts what it did.
   */
  lemma ExchangeEffect(s: State, request: nat, token: Token, nonce: nat, other: Token, previous: bool, at: int)
    requires Inv(s) && request !in s.requests && nonce !in s.nonces
    requires Serviceable(s, token.family) && IsCurrent(s, token)
    ensures
      var t, next := Undisturbed(s, request, token, nonce), Token(token.family, nonce, true);
      var until := Least(s.sessions[token.family].absoluteExpires, s.now + s.config.idleMs);
      && (Accepts(t.sessions, next, previous, at) <==> at < until)
      && (Accepts(t.sessions, token, previous, at) <==> previous && at < until && at < s.now + 5000)
      && (other.family != token.family ==>
            (Accepts(t.sessions, other, previous, at) <==> Accepts(s.sessions, other, previous, at)))
  {
    var gens := s.lineage[token.family];
    assert RowInv(s.sessions[token.family], token.family, gens, s.now);
    assert gens[|gens| - 1].token.nonce in s.nonces;
  }

  lemma RefusedSessions(s: State, request: nat, token: Token, nonce: nat)
    requires request !in s.requests && nonce !in s.nonces
    requires Accepts(s.sessions, token, true, s.now) ==> !MaySignIn(s.users, s.sessions[token.family])
    ensures var t := Undisturbed(s, request, token, nonce).sessions;
      && t.Keys == s.sessions.Keys && (forall id :: id in t && id != token.family ==> t[id] == s.sessions[id])
      && (token.proved && token.family in t ==> t[token.family].revoked)
  {
  }

  /** After a refusal of a token that carries the proof of its family, the family accepts nothing any more. */
  lemma RefusalEffect(s: State, request: nat, token: Token, nonce: nat, other: Token, previous: bool, at: int)
    requires Inv(s) && request !in s.requests && nonce !in s.nonces
    requires !Serviceable(s, token.family) || (!IsCurrent(s, token) && !JustSuperseded(s, token))
    ensures var t := Undisturbed(s, request, token, nonce);
      && (token.proved && other.family == token.family ==> !Accepts(t.sessions, other, previous, at))
      && (other.family != token.family ==>
            (Accepts(t.sessions, other, previous, at) <==> Accepts(s.sessions, other, previous, at)))
  {
    KnownExactly(s, token);
    RefusedSessions(s, request, token, nonce);
  }

  // ---- Single statements in any interleaving --------------------------------------------------

  /**
   A request that has passed its checks is exchanged unless meanwhile its token has been superseded or its
   session revoked or used up; then it is told to retry and nothing changes.
   */
  lemma RotationAnswered(config: Config, now: int, events: seq<Event>, s: State, request: nat, nonce: nat)
    requires ValidConfig(config) && Execution(Start(config, now), events, s)
    requires Enabled(s, RefreshRotated(request, nonce))
    ensures
      var Checked(token, byCurrent, at) := s.requests[request];
      var t := Step(s, RefreshRotated(request, nonce));
      if IsCurrent(s, token) && !s.sessions[token.family].revoked && s.now < s.sessions[token.family].absoluteExpires
      then t.answers == s.answers + [Exchanged(token, Token(token.family, nonce, true))] && Inv(t)
      else t.answers == s.answers + [RetryLater(token, byCurrent, at)] && t.sessions == s.sessions
  {
    StartInv(config, now);
    ExecutionKeepsInv(Start(config, now), events, s);
    StepKeepsInv(s, RefreshRotated(request, nonce));
  }

  lemma StartInv(config: Config, now: int)
    requires ValidConfig(config)
    ensures Inv(Start(config, now))
  {
  }

  /** A new session serves its token exactly if its user is active and has the status of its kind of session. */
  lemma IssuedServes(s: State, user: nat, family: nat, nonce: nat, onboarding: bool)
    requires Enabled(s, SessionIssued(user, family, nonce, onboarding)) && s.config.idleMs > 0
    requires ValidConfig(s.config)
    ensures var t := Step(s, SessionIssued(user, family, nonce, onboarding));
      && IsCurrent(t, Token(family, nonce, true))
      && (Serviceable(t, family) <==>
            && user in s.users && s.users[user].isActive
            && s.users[user].status == if onboarding then PendingPassword else Active)
  {
  }

  /** A refresh that is not refused carries the session in the same way, whether or not its token is exchanged. */
  lemma RefreshCarries(s: State, request: nat, token: Token, nonce: nat)
    requires Inv(s) && request !in s.requests && nonce !in s.nonces && Serviceable(s, token.family)
    requires IsCurrent(s, token) || JustSuperseded(s, token)
    ensures var row, kept := Undisturbed(s, request, token, nonce).sessions[token.family], s.sessions[token.family];
      && !row.revoked && row.absoluteExpires == kept.absoluteExpires
      && row.idleExpires == Least(kept.absoluteExpires, s.now + s.config.idleMs)
      && (IsCurrent(s, token) ==> row.current == Token(token.family, nonce, true))
      && (!IsCurrent(s, token) ==> row.current == kept.current && row.rotatedAt == kept.rotatedAt)
  {
    KnownExactly(s, token);
  }

  /** A touch that is accepted carries the session to the idle lifetime from now, but not past its absolute expiry. */
  lemma TouchCarries(s: State, token: Token, at: int)
    requires IsCurrent(s, token) && Open(s.sessions[token.family], s.now)
    ensures Accepts(Step(s, Authenticated(token)).sessions, token, false, at) <==>
      at < s.now + s.config.idleMs && at < s.sessions[token.family].absoluteExpires
  {
  }

  /** A token passes authentication exactly as the current one of an open session; otherwise nothing is touched. */
  lemma TouchRefused(s: State, token: Token)
    ensures Accepts(s.sessions, token, false, s.now) <==>
      IsCurrent(s, token) && Open(s.sessions[token.family], s.now)
    ensures !(IsCurrent(s, token) && Open(s.sessions[token.family], s.now)) ==>
      Step(s, Authenticated(token)).sessions == s.sessions
  {
  }

  predicate StillKnows(s: State, family: nat, token: Token) {
    && family in s.sessions
    && var row := s.sessions[family]; row.current == token || (row.previous == Some(token) && s.now < row.previousUntil)
  }

  /** A log-out closes the token's whole family if the token carries its proof, and else whatever row still knows it. */
  lemma LogOutCloses(s: State, token: Token, other: Token, previous: bool, at: int)
    ensures
      var t := Step(s, LoggedOut(token));
      var closes := if token.proved then other.family == token.family else StillKnows(s, other.family, token);
      Accepts(t.sessions, other, previous, at) <==> Accepts(s.sessions, other, previous, at) && !closes
  {
  }
}
