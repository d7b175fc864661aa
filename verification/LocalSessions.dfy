/**
 Local session tokens: issue, authenticate, rotate, log out (apps/api/src/auth/local-auth.service.ts).

 A token names its session family and carries a nonce; `proved` says whether its family proof
 verifies. HMAC hashes are compared for equality only, so a token stands for its own hash. Every SQL
 statement is one atomic step on the session table; the statements of different requests interleave
 freely, with the database clock moving on between them.
 */
module LocalSessions {
  import opened Outcomes

  const GRACE_MS := 5000

  /** Lifetimes in milliseconds; configuration refuses an idle lifetime above the absolute one. */
  datatype Config = Config(idleMs: nat, absoluteMs: nat, rotationMs: nat)

  predicate ValidConfig(c: Config) { c.idleMs <= c.absoluteMs && c.rotationMs <= c.absoluteMs }

  datatype Token = Token(family: nat, nonce: nat, proved: bool)

  datatype InviteStatus = Active | PendingPassword | OtherStatus

  datatype User = User(isActive: bool, status: InviteStatus)

  datatype Session = Session(
    user: nat, current: Token, previous: Option<Token>, previousUntil: int, idleExpires: int, absoluteExpires: int,
    onboarding: bool, revoked: bool, rotatedAt: int)

  type Sessions = map<nat, Session>

  // ---- The statements -------------------------------------------------------------------------

  predicate InGrace(row: Session, token: Token, now: int) {
    row.previous == Some(token) && row.previousUntil > now
  }

  /** The row condition of the touching update: a live session that knows the token. */
  predicate Live(row: Session, token: Token, allowPrevious: bool, now: int) {
    && (row.current == token || (allowPrevious && InGrace(row, token, now)))
    && !row.revoked && row.idleExpires > now && row.absoluteExpires > now
  }

  predicate Accepts(sessions: Sessions, token: Token, allowPrevious: bool, now: int) {
    token.family in sessions && Live(sessions[token.family], token, allowPrevious, now)
  }

  function Least(a: int, b: int): int { if a <= b then a else b }

  function Touch(c: Config, sessions: Sessions, token: Token, allowPrevious: bool, now: int): Sessions {
    if Accepts(sessions, token, allowPrevious, now) then
      var row := sessions[token.family];
      sessions[token.family := row.(idleExpires := Least(row.absoluteExpires, now + c.idleMs))]
    else sessions
  }

  predicate CanRotate(sessions: Sessions, token: Token, now: int) {
    && token.family in sessions && sessions[token.family].current == token
    && !sessions[token.family].revoked && sessions[token.family].absoluteExpires > now
  }

  function Rotate(sessions: Sessions, token: Token, next: Token, now: int): Sessions {
    if CanRotate(sessions, token, now) then
      var row := sessions[token.family];
      sessions[token.family :=
        row.(previous := Some(row.current), previousUntil := now + GRACE_MS, current := next, rotatedAt := now)]
    else sessions
  }

  function Revoke(sessions: Sessions, id: nat): Sessions {
    if id in sessions then sessions[id := sessions[id].(revoked := true)] else sessions
  }

  /** Log-out: a proved token revokes its family; any other only the row that still knows it. */
  function LogOut(sessions: Sessions, token: Token, now: int): Sessions {
    if token.proved then Revoke(sessions, token.family)
    else
      map id | id in sessions ::
        sessions[id].(revoked :=
          sessions[id].revoked || sessions[id].current == token || InGrace(sessions[id], token, now))
  }

  function NewSession(c: Config, user: nat, token: Token, onboarding: bool, now: int): Session {
    Session(user, token, None, 0, now + c.idleMs, now + c.absoluteMs, onboarding, false, now)
  }

  predicate UserFits(users: map<nat, User>, row: Session) {
    && row.user in users && users[row.user].isActive
    && (if row.onboarding then users[row.user].status == PendingPassword else users[row.user].status == Active)
  }

  /** The session table, with one method per statement. */
  class SessionTable {
    const config: Config
    var now: int
    var sessions: Sessions

    constructor (config: Config, now: int)
      ensures this.config == config && this.now == now && sessions == map[]
    {
      this.config := config;
      this.now := now;
      sessions := map[];
    }

    method TouchSession(token: Token, allowPrevious: bool) returns (touched: bool, rotationDue: bool)
      modifies this`sessions
      ensures sessions == Touch(config, old(sessions), token, allowPrevious, now)
      ensures touched == Accepts(old(sessions), token, allowPrevious, now)
      ensures rotationDue == (touched && old(sessions)[token.family].rotatedAt + config.rotationMs <= now)
    {
      touched, rotationDue := false, false;
      if token.family in sessions {
        var row := sessions[token.family];
        var knows := row.current == token || (allowPrevious && row.previous == Some(token) && row.previousUntil > now);
        if knows && !row.revoked && row.idleExpires > now && row.absoluteExpires > now {
          touched := true;
          rotationDue := row.rotatedAt + config.rotationMs <= now;
          row := row.(idleExpires := Least(row.absoluteExpires, now + config.idleMs));
          sessions := sessions[token.family := row];
        }
      }
    }

    method RotateToken(token: Token, next: Token) returns (changed: bool)
      modifies this`sessions
      ensures sessions == Rotate(old(sessions), token, next, now) && changed == CanRotate(old(sessions), token, now)
    {
      changed := false;
      if token.family in sessions {
        var row := sessions[token.family];
        if row.current == token && !row.revoked && row.absoluteExpires > now {
          row := row.(previous := Some(row.current), previousUntil := now + GRACE_MS);
          row := row.(current := next, rotatedAt := now);
          sessions := sessions[token.family := row];
          changed := true;
        }
      }
    }

    /** From now on no token of the family is accepted, at any time; other families notice nothing. */
    method RevokeSession(id: nat)
      modifies this`sessions
      ensures sessions == Revoke(old(sessions), id)
      ensures forall token: Token, previous, at ::
        Accepts(sessions, token, previous, at) <==> token.family != id && Accepts(old(sessions), token, previous, at)
    {
      if id in sessions {
        sessions := sessions[id := sessions[id].(revoked := true)];
      }
    }

    /** The new family accepts its one token until the nearer expiry; other families notice nothing. */
    method Issue(user: nat, token: Token, onboarding: bool)
      modifies this`sessions
      ensures sessions == old(sessions)[token.family := NewSession(config, user, token, onboarding, now)]
      ensures forall other: Token, previous, at :: Accepts(sessions, other, previous, at) <==>
        if other.family == token.family then other == token && at < now + Least(config.idleMs, config.absoluteMs)
        else Accepts(old(sessions), other, previous, at)
    {
      sessions := sessions[token.family := NewSession(config, user, token, onboarding, now)];
    }
  }

  // ---- Interleavings --------------------------------------------------------------------------

  /** Where a refresh request stands between two statements. */
  datatype Request =
    | Touched(token: Token, byCurrent: bool, at: int)
    | Checked(token: Token, byCurrent: bool, at: int)
    | Failing(token: Token)

  datatype Answer =
    | Exchanged(spent: Token, next: Token)
    | RetryLater(token: Token, byCurrent: bool, at: int)
    | Rejected(token: Token)

  /** A token and the moment it became its family's current one. */
  datatype Generation = Generation(token: Token, since: int)

  /**
   `lineage` records, per family, every token that has been its current one, oldest first;
   `nonces` the nonces drawn so far; `answers` what refresh requests have been told.
   */
  datatype State = State(
    config: Config, now: int, users: map<nat, User>, sessions: Sessions, requests: map<nat, Request>,
    lineage: map<nat, seq<Generation>>, nonces: set<nat>, answers: seq<Answer>)

  datatype Event =
    | ClockAdvanced(ms: nat)
    | UserChanged(user: nat, to: User)
    | SessionIssued(user: nat, family: nat, nonce: nat, onboarding: bool)
    | Authenticated(token: Token)
    | RefreshTouched(request: nat, token: Token)
    | RefreshChecked(request: nat)
    | RefreshRevoked(request: nat)
    | RefreshRotated(request: nat, nonce: nat)
    | RequestAbandoned(request: nat)
    | LoggedOut(token: Token)
    | FamilyRevoked(family: nat)  // a user that no longer fits the session, or an administrator

  predicate Enabled(s: State, e: Event) {
    match e
    case SessionIssued(_, family, nonce, _) => family !in s.sessions && nonce !in s.nonces
    case RefreshTouched(request, _) => request !in s.requests
    case RefreshChecked(request) => request in s.requests && s.requests[request].Touched?
    case RefreshRevoked(request) => request in s.requests && s.requests[request].Failing?
    case RefreshRotated(request, nonce) => request in s.requests && s.requests[request].Checked? && nonce !in s.nonces
    case _ => true
  }

  function AfterTouch(s: State, request: nat, token: Token): State {
    var accepted := Accepts(s.sessions, token, true, s.now);
    var position :=
      if accepted then Touched(token, s.sessions[token.family].current == token, s.now) else Failing(token);
    s.(sessions := Touch(s.config, s.sessions, token, true, s.now), requests := s.requests[request := position])
  }

  function AfterCheck(s: State, request: nat): State
    requires request in s.requests && s.requests[request].Touched?
  {
    var r := s.requests[request];
    if r.token.family in s.sessions && UserFits(s.users, s.sessions[r.token.family]) then
      s.(requests := s.requests[request := Checked(r.token, r.byCurrent, r.at)])
    else s.(sessions := Revoke(s.sessions, r.token.family), requests := s.requests[request := Failing(r.token)])
  }

  function AfterRevoke(s: State, request: nat): State
    requires request in s.requests && s.requests[request].Failing?
  {
    var token := s.requests[request].token;
    s.(sessions := if token.proved then Revoke(s.sessions, token.family) else s.sessions,
       requests := s.requests - {request}, answers := s.answers + [Rejected(token)])
  }

  function AfterRotate(s: State, request: nat, nonce: nat): State
    requires request in s.requests && s.requests[request].Checked?
  {
    var Checked(token, byCurrent, at) := s.requests[request];
    var next := Token(token.family, nonce, true);
    if CanRotate(s.sessions, token, s.now) && token.family in s.lineage then
      s.(sessions := Rotate(s.sessions, token, next, s.now), requests := s.requests - {request},
         lineage := s.lineage[token.family := s.lineage[token.family] + [Generation(next, s.now)]],
         nonces := s.nonces + {nonce},
         answers := s.answers + [Exchanged(token, next)])
    else
      s.(requests := s.requests - {request}, nonces := s.nonces + {nonce},
         answers := s.answers + [RetryLater(token, byCurrent, at)])
  }

  function Step(s: State, e: Event): State
    requires Enabled(s, e)
  {
    match e
    case ClockAdvanced(ms) => s.(now := s.now + ms)
    case UserChanged(user, to) => s.(users := s.users[user := to])
    case SessionIssued(user, family, nonce, onboarding) =>
      var token := Token(family, nonce, true);
      s.(sessions := s.sessions[family := NewSession(s.config, user, token, onboarding, s.now)],
         lineage := s.lineage[family := [Generation(token, s.now)]], nonces := s.nonces + {nonce})
    case Authenticated(token) => s.(sessions := Touch(s.config, s.sessions, token, false, s.now))
    case RefreshTouched(request, token) => AfterTouch(s, request, token)
    case RefreshChecked(request) => AfterCheck(s, request)
    case RefreshRevoked(request) => AfterRevoke(s, request)
    case RefreshRotated(request, nonce) => AfterRotate(s, request, nonce)
    case RequestAbandoned(request) => s.(requests := s.requests - {request})
    case LoggedOut(token) => s.(sessions := LogOut(s.sessions, token, s.now))
    case FamilyRevoked(family) => s.(sessions := Revoke(s.sessions, family))
  }

  function Start(config: Config, now: int): State { State(config, now, map[], map[], map[], map[], {}, []) }

  ghost predicate Execution(s: State, events: seq<Event>, last: State)
    decreases |events|
  {
    if events == [] then s == last
    else Enabled(s, events[0]) && Execution(Step(s, events[0]), events[1..], last)
  }

  // ---- Invariant ------------------------------------------------------------------------------

  predicate NoRepeats(gens: seq<Generation>) {
    forall i, j :: 0 <= i < j < |gens| ==> gens[i].token != gens[j].token && gens[i].since <= gens[j].since
  }

  /** A row agrees with its lineage: the last token is current, the one before it is the predecessor. */
  predicate RowInv(row: Session, id: nat, gens: seq<Generation>, now: int) {
    && gens != [] && NoRepeats(gens)
    && row.current == gens[|gens| - 1].token && row.rotatedAt == gens[|gens| - 1].since <= now
    && (if |gens| >= 2 then
          row.previous == Some(gens[|gens| - 2].token) && row.previousUntil == row.rotatedAt + GRACE_MS
        else row.previous == None)
    && (forall i :: 0 <= i < |gens| ==> gens[i].token.family == id && gens[i].token.proved)
    && row.idleExpires <= row.absoluteExpires
  }

  predicate ExchangeAt(gens: seq<Generation>, k: int, spent: Token, next: Token) {
    0 <= k < |gens| - 1 && gens[k].token == spent && gens[k + 1].token == next
  }

  /** At time `at` the token was the current generation, or its direct predecessor inside the grace. */
  predicate TimelyAt(gens: seq<Generation>, k: int, token: Token, byCurrent: bool, at: int) {
    && 0 <= k < |gens| && gens[k].token == token
    && (if byCurrent then gens[k].since <= at && (k + 1 < |gens| ==> at <= gens[k + 1].since)
        else k + 1 < |gens| && gens[k + 1].since <= at < gens[k + 1].since + GRACE_MS &&
             (k + 2 < |gens| ==> at <= gens[k + 2].since))
  }

  ghost predicate Timely(lineage: map<nat, seq<Generation>>, token: Token, byCurrent: bool, at: int) {
    token.family in lineage && exists k :: TimelyAt(lineage[token.family], k, token, byCurrent, at)
  }

  ghost predicate RowsInv(s: State) {
    && s.sessions.Keys == s.lineage.Keys
    && (forall id :: id in s.sessions ==> RowInv(s.sessions[id], id, s.lineage[id], s.now))
    && (forall id, i :: id in s.lineage && 0 <= i < |s.lineage[id]| ==> s.lineage[id][i].token.nonce in s.nonces)
  }

  ghost predicate RequestsInv(s: State) {
    forall r :: r in s.requests && !s.requests[r].Failing? ==>
      s.requests[r].at <= s.now && Timely(s.lineage, s.requests[r].token, s.requests[r].byCurrent, s.requests[r].at)
  }

  ghost predicate AnswersInv(s: State) {
    && (forall i :: 0 <= i < |s.answers| ==>
          match s.answers[i]
          case Exchanged(spent, next) =>
            spent.family in s.lineage && exists k :: ExchangeAt(s.lineage[spent.family], k, spent, next)
          case RetryLater(token, byCurrent, at) => at <= s.now && Timely(s.lineage, token, byCurrent, at)
          case Rejected(_) => true)
    && (forall i, j :: 0 <= i < j < |s.answers| && s.answers[i].Exchanged? && s.answers[j].Exchanged? ==>
          s.answers[i].spent != s.answers[j].spent)
  }

  ghost predicate Inv(s: State) {
    ValidConfig(s.config) && RowsInv(s) && RequestsInv(s) && AnswersInv(s)
  }

  /** The sessions changed without touching tokens, and nothing else did. */
  predicate SameTokens(a: Sessions, b: Sessions) {
    && a.Keys == b.Keys
    && forall id :: id in a ==>
         b[id].idleExpires <= b[id].absoluteExpires &&
         b[id] == a[id].(idleExpires := b[id].idleExpires, revoked := b[id].revoked)
  }

  /** Requests of `t` were already waiting in `s`, with the same token, or are about to be refused. */
  predicate SameRequests(s: State, t: State) {
    forall r :: r in t.requests && !t.requests[r].Failing? ==>
      && r in s.requests && !s.requests[r].Failing? && t.requests[r].at == s.requests[r].at
      && t.requests[r].token == s.requests[r].token && t.requests[r].byCurrent == s.requests[r].byCurrent
  }

  /** At most one answer was added, and it is not an exchange. */
  ghost predicate AnswerAdded(s: State, t: State) {
    || t.answers == s.answers
    || exists a :: t.answers == s.answers + [a] && !a.Exchanged? &&
         (a.RetryLater? ==> a.at <= t.now && Timely(t.lineage, a.token, a.byCurrent, a.at))
  }

  lemma RequestsStayTimely(s: State, t: State)
    requires RequestsInv(s) && t.lineage == s.lineage && t.now >= s.now && SameRequests(s, t)
    ensures RequestsInv(t)
  {
  }

  /** A step that leaves the lineage alone keeps the invariant. */
  lemma LineageUnchanged(s: State, t: State)
    requires Inv(s) && t.config == s.config && t.lineage == s.lineage && t.nonces >= s.nonces && t.now >= s.now
    requires SameTokens(s.sessions, t.sessions) && RequestsInv(t) && AnswerAdded(s, t)
    ensures Inv(t)
  {
    assert forall id :: id in t.sessions ==> RowInv(s.sessions[id], id, s.lineage[id], s.now);
    assert RowsInv(t);
  }

  lemma TouchAccepted(s: State, token: Token)
    requires RowsInv(s) && Accepts(s.sessions, token, true, s.now)
    ensures Timely(s.lineage, token, s.sessions[token.family].current == token, s.now)
  {
    var gens := s.lineage[token.family];
    if s.sessions[token.family].current == token {
      assert TimelyAt(gens, |gens| - 1, token, true, s.now);
    } else {
      assert TimelyAt(gens, |gens| - 2, token, false, s.now);
    }
  }

  lemma AppendKeepsTimely(gens: seq<Generation>, g: Generation, k: int, token: Token, byCurrent: bool, at: int)
    requires TimelyAt(gens, k, token, byCurrent, at) && at <= g.since
    ensures TimelyAt(gens + [g], k, token, byCurrent, at)
  {
  }

  lemma LineageGrowsTimely(s: State, t: State, token: Token, byCurrent: bool, at: int, id: nat, g: Generation)
    requires id in s.lineage && t.lineage == s.lineage[id := s.lineage[id] + [g]] && at <= g.since
    requires Timely(s.lineage, token, byCurrent, at)
    ensures Timely(t.lineage, token, byCurrent, at)
  {
    var k :| TimelyAt(s.lineage[token.family], k, token, byCurrent, at);
    if token.family == id { AppendKeepsTimely(s.lineage[id], g, k, token, byCurrent, at); }
    assert TimelyAt(t.lineage[token.family], k, token, byCurrent, at);
  }

  lemma RotatedRow(row: Session, id: nat, gens: seq<Generation>, next: Token, now: int)
    requires RowInv(row, id, gens, now) && next.family == id && next.proved
    requires forall i :: 0 <= i < |gens| ==> gens[i].token != next
    ensures RowInv(
      row.(previous := Some(row.current), previousUntil := now + GRACE_MS, current := next, rotatedAt := now),
      id, gens + [Generation(next, now)], now)
  {
  }

  lemma ExchangeKeepsRows(s: State, request: nat, nonce: nat)
    requires RowsInv(s) && Enabled(s, RefreshRotated(request, nonce))
    requires CanRotate(s.sessions, s.requests[request].token, s.now)
    ensures RowsInv(AfterRotate(s, request, nonce))
  {
    var t, id := AfterRotate(s, request, nonce), s.requests[request].token.family;
    var next := Token(id, nonce, true);
    assert forall i :: 0 <= i < |s.lineage[id]| ==> s.lineage[id][i].token.nonce in s.nonces;
    RotatedRow(s.sessions[id], id, s.lineage[id], next, s.now);
    assert t.lineage[id] == s.lineage[id] + [Generation(next, s.now)];
    forall other | other in t.sessions ensures RowInv(t.sessions[other], other, t.lineage[other], t.now) {
      if other != id { assert t.sessions[other] == s.sessions[other] && t.lineage[other] == s.lineage[other]; }
    }
    forall other, i | other in t.lineage && 0 <= i < |t.lineage[other]|
      ensures t.lineage[other][i].token.nonce in t.nonces
    {
      if other != id { assert t.lineage[other] == s.lineage[other]; }
    }
  }

  lemma ExchangeKeepsAnswers(s: State, request: nat, nonce: nat)
    requires Inv(s) && Enabled(s, RefreshRotated(request, nonce))
    requires CanRotate(s.sessions, s.requests[request].token, s.now)
    ensures AnswersInv(AfterRotate(s, request, nonce))
  {
    var t, token := AfterRotate(s, request, nonce), s.requests[request].token;
    var gens := s.lineage[token.family];
    var g := Generation(Token(token.family, nonce, true), s.now);
    assert t.lineage[token.family] == gens + [g];
    assert ExchangeAt(gens + [g], |gens| - 1, token, g.token);
    forall i | 0 <= i < |s.answers|
      ensures match s.answers[i]
        case Exchanged(spent, next) =>
          spent != token && spent.family in t.lineage && exists k :: ExchangeAt(t.lineage[spent.family], k, spent, next)
        case RetryLater(token, byCurrent, at) => at <= t.now && Timely(t.lineage, token, byCurrent, at)
        case Rejected(_) => true
    {
      match s.answers[i]
      case Exchanged(spent, next) =>
        var k :| ExchangeAt(s.lineage[spent.family], k, spent, next);
        assert ExchangeAt(t.lineage[spent.family], k, spent, next);
      case RetryLater(late, byCurrent, at) => LineageGrowsTimely(s, t, late, byCurrent, at, token.family, g);
      case Rejected(_) =>
    }
  }

  lemma ExchangeKeepsInv(s: State, request: nat, nonce: nat)
    requires Inv(s) && Enabled(s, RefreshRotated(request, nonce))
    requires CanRotate(s.sessions, s.requests[request].token, s.now)
    ensures Inv(AfterRotate(s, request, nonce))
  {
    var t, token := AfterRotate(s, request, nonce), s.requests[request].token;
    var g := Generation(Token(token.family, nonce, true), s.now);
    ExchangeKeepsRows(s, request, nonce);
    ExchangeKeepsAnswers(s, request, nonce);
    forall r | r in t.requests && !t.requests[r].Failing?
      ensures t.requests[r].at <= t.now
      ensures Timely(t.lineage, t.requests[r].token, t.requests[r].byCurrent, t.requests[r].at)
    {
      LineageGrowsTimely(s, t, s.requests[r].token, s.requests[r].byCurrent, s.requests[r].at, token.family, g);
    }
  }

  lemma IssueKeepsInv(s: State, e: Event)
    requires Inv(s) && e.SessionIssued? && Enabled(s, e)
    ensures Inv(Step(s, e))
  {
    var t := Step(s, e);
    assert forall id :: id in s.lineage ==> t.lineage[id] == s.lineage[id];
    forall token: Token, byCurrent, at | Timely(s.lineage, token, byCurrent, at)
      ensures Timely(t.lineage, token, byCurrent, at)
    {
      var k :| TimelyAt(s.lineage[token.family], k, token, byCurrent, at);
      assert TimelyAt(t.lineage[token.family], k, token, byCurrent, at);
    }
  }

  predicate IdleWithinAbsolute(sessions: Sessions) {
    forall id :: id in sessions ==> sessions[id].idleExpires <= sessions[id].absoluteExpires
  }

  lemma SameTokensSelf(sessions: Sessions)
    requires IdleWithinAbsolute(sessions)
    ensures SameTokens(sessions, sessions)
  {
  }

  lemma TouchKeepsTokens(c: Config, sessions: Sessions, token: Token, allowPrevious: bool, now: int)
    requires IdleWithinAbsolute(sessions)
    ensures SameTokens(sessions, Touch(c, sessions, token, allowPrevious, now))
  {
  }

  lemma RevokeKeepsTokens(sessions: Sessions, id: nat)
    requires IdleWithinAbsolute(sessions)
    ensures SameTokens(sessions, Revoke(sessions, id))
  {
  }

  lemma LogOutKeepsTokens(sessions: Sessions, token: Token, now: int)
    requires IdleWithinAbsolute(sessions)
    ensures SameTokens(sessions, LogOut(sessions, token, now))
  {
    RevokeKeepsTokens(sessions, token.family);
  }

  lemma RowsIdle(s: State)
    requires RowsInv(s)
    ensures IdleWithinAbsolute(s.sessions)
  {
    forall id | id in s.sessions ensures s.sessions[id].idleExpires <= s.sessions[id].absoluteExpires {
      assert RowInv(s.sessions[id], id, s.lineage[id], s.now);
    }
  }

  lemma TouchKeepsRequests(s: State, request: nat, token: Token)
    requires RowsInv(s) && RequestsInv(s)
    ensures RequestsInv(AfterTouch(s, request, token))
  {
    if Accepts(s.sessions, token, true, s.now) { TouchAccepted(s, token); }
  }

  lemma TouchKeepsInv(s: State, request: nat, token: Token)
    requires Inv(s)
    ensures Inv(AfterTouch(s, request, token))
  {
    RowsIdle(s);
    TouchKeepsTokens(s.config, s.sessions, token, true, s.now);
    TouchKeepsRequests(s, request, token);
    LineageUnchanged(s, AfterTouch(s, request, token));
  }

  predicate SameBackground(s: State, t: State) {
    t.config == s.config && t.lineage == s.lineage && t.nonces == s.nonces && t.now == s.now && t.answers == s.answers
  }

  lemma CheckFrame(s: State, request: nat)
    requires IdleWithinAbsolute(s.sessions) && Enabled(s, RefreshChecked(request))
    ensures var t := AfterCheck(s, request);
      SameBackground(s, t) && SameTokens(s.sessions, t.sessions) && SameRequests(s, t)
  {
    var token := s.requests[request].token;
    if token.family in s.sessions && UserFits(s.users, s.sessions[token.family]) {
      CheckPasses(s, request);
    } else {
      CheckFails(s, request);
    }
  }

  lemma CheckPasses(s: State, request: nat)
    requires IdleWithinAbsolute(s.sessions) && Enabled(s, RefreshChecked(request))
    requires AfterCheck(s, request).sessions == s.sessions
    ensures SameTokens(s.sessions, AfterCheck(s, request).sessions)
    ensures SameBackground(s, AfterCheck(s, request)) && SameRequests(s, AfterCheck(s, request))
  {
    SameTokensSelf(s.sessions);
  }

  lemma CheckFails(s: State, request: nat)
    requires IdleWithinAbsolute(s.sessions) && Enabled(s, RefreshChecked(request))
    requires AfterCheck(s, request).sessions == Revoke(s.sessions, s.requests[request].token.family)
    ensures SameTokens(s.sessions, AfterCheck(s, request).sessions)
    ensures SameBackground(s, AfterCheck(s, request)) && SameRequests(s, AfterCheck(s, request))
  {
    RevokeKeepsTokens(s.sessions, s.requests[request].token.family);
  }

  lemma CheckKeepsInv(s: State, request: nat)
    requires Inv(s) && Enabled(s, RefreshChecked(request))
    ensures Inv(AfterCheck(s, request))
  {
    RowsIdle(s);
    CheckFrame(s, request);
    RequestsStayTimely(s, AfterCheck(s, request));
    LineageUnchanged(s, AfterCheck(s, request));
  }

  lemma RefusalKeepsInv(s: State, request: nat)
    requires Inv(s) && Enabled(s, RefreshRevoked(request))
    ensures Inv(AfterRevoke(s, request))
  {
    RowsIdle(s);
    var token := s.requests[request].token;
    SameTokensSelf(s.sessions);
    RevokeKeepsTokens(s.sessions, token.family);
    assert AfterRevoke(s, request).answers == s.answers + [Rejected(token)];
    RequestsStayTimely(s, AfterRevoke(s, request));
    LineageUnchanged(s, AfterRevoke(s, request));
  }

  lemma SimpleStepKeepsInv(s: State, e: Event)
    requires Inv(s) && Enabled(s, e)
    requires
      || e.ClockAdvanced? || e.UserChanged? || e.Authenticated?
      || e.RequestAbandoned? || e.LoggedOut? || e.FamilyRevoked?
    ensures Inv(Step(s, e))
  {
    RowsIdle(s);
    if e.Authenticated? {
      TouchKeepsTokens(s.config, s.sessions, e.token, false, s.now);
    } else if e.LoggedOut? {
      LogOutKeepsTokens(s.sessions, e.token, s.now);
    } else if e.FamilyRevoked? {
      RevokeKeepsTokens(s.sessions, e.family);
    } else {
      SameTokensSelf(s.sessions);
    }
    RequestsStayTimely(s, Step(s, e));
    LineageUnchanged(s, Step(s, e));
  }

  lemma RetryFrame(s: State, request: nat, nonce: nat)
    requires IdleWithinAbsolute(s.sessions) && RequestsInv(s) && Enabled(s, RefreshRotated(request, nonce))
    requires !CanRotate(s.sessions, s.requests[request].token, s.now)
    ensures var t := AfterRotate(s, request, nonce);
      && t.config == s.config && t.lineage == s.lineage && t.nonces >= s.nonces && t.now == s.now
      && SameTokens(s.sessions, t.sessions) && SameRequests(s, t) && AnswerAdded(s, t)
  {
    var r := s.requests[request];
    SameTokensSelf(s.sessions);
    assert AfterRotate(s, request, nonce).answers == s.answers + [RetryLater(r.token, r.byCurrent, r.at)];
  }

  lemma RotateKeepsInv(s: State, request: nat, nonce: nat)
    requires Inv(s) && Enabled(s, RefreshRotated(request, nonce))
    ensures Inv(AfterRotate(s, request, nonce))
  {
    if CanRotate(s.sessions, s.requests[request].token, s.now) {
      ExchangeKeepsInv(s, request, nonce);
    } else {
      RowsIdle(s);
      RetryFrame(s, request, nonce);
      RequestsStayTimely(s, AfterRotate(s, request, nonce));
      LineageUnchanged(s, AfterRotate(s, request, nonce));
    }
  }

  /** Every statement of every request keeps the invariant. */
  lemma StepKeepsInv(s: State, e: Event)
    requires Inv(s) && Enabled(s, e)
    ensures Inv(Step(s, e))
  {
    match e
    case SessionIssued(_, _, _, _) => IssueKeepsInv(s, e);
    case RefreshTouched(request, token) => TouchKeepsInv(s, request, token);
    case RefreshChecked(request) => CheckKeepsInv(s, request);
    case RefreshRevoked(request) => RefusalKeepsInv(s, request);
    case RefreshRotated(request, nonce) => RotateKeepsInv(s, request, nonce);
    case _ => SimpleStepKeepsInv(s, e);
  }

  lemma {:induction false} ExecutionKeepsInv(s: State, events: seq<Event>, last: State)
    requires Inv(s) && Execution(s, events, last)
    ensures Inv(last)
    decreases |events|
  {
    if events != [] {
      StepKeepsInv(s, events[0]);
      ExecutionKeepsInv(Step(s, events[0]), events[1..], last);
    }
  }

  // ---- What clients may rely on ---------------------------------------------------------------

  /**
   In every interleaving rotation is linear: a token is exchanged at most once, and an exchange always
   turns a generation of its family into the next one.
   */
  lemma RotationIsLinear(config: Config, now: int, events: seq<Event>, s: State, i: nat, j: nat)
    requires ValidConfig(config) && Execution(Start(config, now), events, s)
    requires i < j < |s.answers| && s.answers[i].Exchanged? && s.answers[j].Exchanged?
    ensures s.answers[i].spent != s.answers[j].spent
    ensures s.answers[i].spent.family in s.lineage && NoRepeats(s.lineage[s.answers[i].spent.family])
    ensures exists k :: ExchangeAt(s.lineage[s.answers[i].spent.family], k, s.answers[i].spent, s.answers[i].next)
  {
    ExecutionKeepsInv(Start(config, now), events, s);
    var id := s.answers[i].spent.family;
    assert RowInv(s.sessions[id], id, s.lineage[id], s.now);
  }

  /**
   A superseded token passes authentication for refresh only as the direct predecessor of a live
   session, less than five seconds after it was superseded.
   */
  lemma SupersededTokenAccepted(config: Config, now: int, events: seq<Event>, s: State, family: nat, k: nat)
    requires ValidConfig(config) && Execution(Start(config, now), events, s)
    requires family in s.lineage && family in s.sessions && k + 1 < |s.lineage[family]|
    ensures var gens, row := s.lineage[family], s.sessions[family];
      Accepts(s.sessions, gens[k].token, true, s.now) <==>
        k == |gens| - 2 && s.now < gens[k + 1].since + GRACE_MS &&
        !row.revoked && row.idleExpires > s.now && row.absoluteExpires > s.now
    ensures !Accepts(s.sessions, s.lineage[family][k].token, false, s.now)
  {
    ExecutionKeepsInv(Start(config, now), events, s);
    var gens := s.lineage[family];
    assert RowInv(s.sessions[family], family, gens, s.now);
    assert gens[k].token != gens[|gens| - 1].token;
    if k < |gens| - 2 { assert gens[k].token != gens[|gens| - 2].token; }
  }

  /** Every retry answer went to a request that had presented the current token, or its predecessor in the grace. */
  lemma RetryOnlyWhenTimely(config: Config, now: int, events: seq<Event>, s: State, i: nat)
    requires ValidConfig(config) && Execution(Start(config, now), events, s)
    requires i < |s.answers| && s.answers[i].RetryLater?
    ensures Timely(s.lineage, s.answers[i].token, s.answers[i].byCurrent, s.answers[i].at)
  {
    ExecutionKeepsInv(Start(config, now), events, s);
  }

  lemma RotateOnlyGrows(s: State, request: nat, nonce: nat, id: nat)
    requires s.sessions.Keys == s.lineage.Keys && Enabled(s, RefreshRotated(request, nonce)) && id in s.sessions
    ensures var t := AfterRotate(s, request, nonce);
      && id in t.sessions && id in t.lineage
      && t.sessions[id].absoluteExpires == s.sessions[id].absoluteExpires
      && s.lineage[id] <= t.lineage[id]
      && (s.sessions[id].revoked ==> t.sessions[id].revoked && t.lineage[id] == s.lineage[id])
  {
  }

  lemma StepOnlyGrows(s: State, e: Event, id: nat)
    requires s.sessions.Keys == s.lineage.Keys && Enabled(s, e) && id in s.sessions
    ensures var t := Step(s, e);
      && id in t.sessions && id in t.lineage
      && t.sessions[id].absoluteExpires == s.sessions[id].absoluteExpires
      && s.lineage[id] <= t.lineage[id]
      && (s.sessions[id].revoked ==> t.sessions[id].revoked && t.lineage[id] == s.lineage[id])
  {
    if e.RefreshRotated? { RotateOnlyGrows(s, e.request, e.nonce, id); }
  }

  /**
   Revocation is permanent and ends rotation, the absolute expiry never moves, the idle expiry never
   passes it, and history is only appended to.
   */
  lemma {:induction false} RevocationIsPermanent(s: State, events: seq<Event>, last: State, id: nat)
    requires Inv(s) && Execution(s, events, last) && id in s.sessions
    ensures id in last.sessions && id in last.lineage
    ensures last.sessions[id].idleExpires <= last.sessions[id].absoluteExpires == s.sessions[id].absoluteExpires
    ensures s.lineage[id] <= last.lineage[id]
    ensures s.sessions[id].revoked ==>
      last.sessions[id].revoked && last.lineage[id] == s.lineage[id] &&
      forall token: Token, now :: token.family == id ==> !Accepts(last.sessions, token, true, now)
    decreases |events|
  {
    if events != [] {
      StepKeepsInv(s, events[0]);
      StepOnlyGrows(s, events[0], id);
      RevocationIsPermanent(Step(s, events[0]), events[1..], last, id);
    } else {
      assert RowInv(s.sessions[id], id, s.lineage[id], s.now);
    }
  }

  /**
   A superseded token that is not the direct predecessor inside the grace: whoever presents it for refresh is
   refused, and however other requests interleave, once that request has finished the family is revoked,
   in every continuation.
   */
  lemma StaleTokenRevokesFamily(
      config: Config, now: int, events: seq<Event>, s: State, family: nat, k: nat, request: nat,
      between: seq<Event>, m: State, later: seq<Event>, last: State)
    requires ValidConfig(config) && Execution(Start(config, now), events, s)
    requires family in s.lineage && k + 1 < |s.lineage[family]| && request !in s.requests
    requires k < |s.lineage[family]| - 2 || s.now >= s.lineage[family][k + 1].since + GRACE_MS
    requires Execution(Step(s, RefreshTouched(request, s.lineage[family][k].token)), between, m)
    requires request in m.requests && m.requests[request] == Failing(s.lineage[family][k].token)
    requires Execution(Step(m, RefreshRevoked(request)), later, last)
    ensures Step(s, RefreshTouched(request, s.lineage[family][k].token)).requests[request] ==
      Failing(s.lineage[family][k].token)
    ensures family in last.sessions && last.sessions[family].revoked
    ensures forall token: Token, at :: token.family == family ==> !Accepts(last.sessions, token, true, at)
  {
    ExecutionKeepsInv(Start(config, now), events, s);
    SupersededTokenAccepted(config, now, events, s, family, k);
    var token := s.lineage[family][k].token;
    assert RowInv(s.sessions[family], family, s.lineage[family], s.now);
    var touched := Step(s, RefreshTouched(request, token));
    StepKeepsInv(s, RefreshTouched(request, token));
    RevocationIsPermanent(touched, between, m, family);
    ExecutionKeepsInv(touched, between, m);
    StepKeepsInv(m, RefreshRevoked(request));
    RevocationIsPermanent(Step(m, RefreshRevoked(request)), later, last, family);
  }
}
