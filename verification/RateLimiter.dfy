/**
 The fixed-window limiter (apps/api/src/auth/postgres-security-rate-limiter.ts).

 Time is in microseconds. A call reads the database clock to choose its window and then writes its
 bucket; other calls and clean-ups may come in between. A clean-up deletes by the time it is given,
 which need not be the database's (apps/api/src/auth/local-auth-maintenance.service.ts uses the host's).
 Each write and each clean-up is atomic. Keys stand for their digests.
 */
module RateLimiter {
  import opened Outcomes
  import opened Sums

  const COUNT_CAP: nat := 2147483647
  const CLEANUP_EVERY: nat := 256
  const SECOND := 1_000_000

  datatype Bucket = Bucket(count: nat, expiresAt: int)

  datatype BucketKey = BucketKey(key: string, start: int, windowMs: nat)

  datatype Decision = Decision(allowed: bool, limit: nat, remaining: nat, retryAfterSeconds: int)

  /** One accepted call: the clock reading that chose its window, and its policy. */
  datatype Call = Call(key: string, limit: nat, windowMs: nat, at: int)

  /** What happens to the table, in order. */
  datatype Op = Write(call: Call) | Clean(at: int)

  predicate ValidPolicy(limit: int, windowMs: int) { 1 <= limit <= 1_000_000 && 1_000 <= windowMs <= 86_400_000 }

  function Length(windowMs: nat): nat { windowMs * 1000 }

  /** `date_bin` with the epoch as origin. */
  function WindowStart(at: int, windowMs: nat): (start: int)
    requires windowMs > 0
    ensures start <= at < start + Length(windowMs)
  {
    DivBounds(at, Length(windowMs));
    at / Length(windowMs) * Length(windowMs)
  }

  /** The window of a call: as many milliseconds as its policy says, at a multiple of them since the epoch. */
  lemma WindowExactly(c: Call, d: Call)
    requires c.windowMs > 0 && d.windowMs > 0
    ensures var k := KeyOf(c);
      && k.start <= c.at < k.start + 1000 * c.windowMs == End(k) && k.start % (1000 * c.windowMs) == 0
      && (KeyOf(d) == k <==>
            d.key == c.key && d.windowMs == c.windowMs && k.start <= d.at < k.start + 1000 * c.windowMs)
  {
    var w := 1000 * c.windowMs;
    MultipleRemainder(c.at / w, w);
    DivBounds(c.at, w);
    if d.windowMs == c.windowMs && KeyOf(c).start <= d.at < KeyOf(c).start + w {
      DivBounds(d.at, w);
      SameQuotient(c.at / w, d.at / w, d.at, w);
    }
  }

  lemma MultipleRemainder(q: int, w: int)
    requires w > 0
    ensures q * w % w == 0
  {
    var r, d := q * w % w, q * w / w;
    assert q * w == d * w + r by { assert q * w == w * d + r; }
    MulDistributes(q - d, d, w);
    if r > 0 { BetweenMultiples(q - d, r, w); }
  }

  /** No multiple of `w` lies strictly between 0 and `w`. */
  lemma BetweenMultiples(q: int, r: int, w: int)
    requires 0 < w && q * w == r && 0 < r
    ensures r >= w
  {
    CancelLt(0, q, w);
    MulLe(1, q, w);
  }

  lemma SameQuotient(p: int, q: int, at: int, w: int)
    requires w > 0 && q * w <= at < q * w + w && p * w <= at < p * w + w
    ensures p == q
  {
    MulDistributes(p, 1, w);
    MulDistributes(q, 1, w);
    CancelLt(q, p + 1, w);
    CancelLt(p, q + 1, w);
  }

  lemma DivBounds(at: int, w: int)
    requires w > 0
    ensures at / w * w <= at < at / w * w + w
  {
    assert at == w * (at / w) + at % w;
  }

  function Min(a: int, b: int): int { if a < b then a else b }

  function Max(a: int, b: int): int { if a < b then b else a }

  function Ceil(a: int): int { -(-a / SECOND) }

  // ---- The ideal counter ----------------------------------------------------------------------

  predicate Falls(c: Call, k: BucketKey) {
    c.key == k.key && c.windowMs == k.windowMs && c.windowMs > 0 && WindowStart(c.at, c.windowMs) == k.start
  }

  function KeyOf(c: Call): BucketKey
    requires c.windowMs > 0
  {
    BucketKey(c.key, WindowStart(c.at, c.windowMs), c.windowMs)
  }

  function End(k: BucketKey): int { k.start + Length(k.windowMs) }

  /** The number of calls ever made in a window, never forgotten and without bound. */
  function Ideal(calls: seq<Call>, k: BucketKey): nat {
    if calls == [] then 0
    else Ideal(calls[..|calls| - 1], k) + if Falls(calls[|calls| - 1], k) then 1 else 0
  }

  predicate AllowedAt(calls: seq<Call>, i: nat)
    requires i < |calls| && calls[i].windowMs > 0
  {
    Ideal(calls[..i + 1], KeyOf(calls[i])) <= calls[i].limit
  }

  /** The calls a history has written. */
  function CallsOf(ops: seq<Op>): seq<Call> {
    if ops == [] then []
    else
      var rest := CallsOf(ops[..|ops| - 1]);
      if ops[|ops| - 1].Write? then rest + [ops[|ops| - 1].call] else rest
  }

  // ---- The table ------------------------------------------------------------------------------

  function Upsert(buckets: map<BucketKey, Bucket>, k: BucketKey): map<BucketKey, Bucket> {
    var bucket :=
      if k in buckets then buckets[k].(count := Min(buckets[k].count + 1, COUNT_CAP)) else Bucket(1, End(k));
    buckets[k := bucket]
  }

  function Cleaned(buckets: map<BucketKey, Bucket>, at: int): map<BucketKey, Bucket> {
    map k | k in buckets && buckets[k].expiresAt >= at :: buckets[k]
  }

  predicate ValidOp(op: Op) { op.Write? ==> op.call.windowMs > 0 }

  predicate ValidOps(ops: seq<Op>) { forall i :: 0 <= i < |ops| ==> ValidOp(ops[i]) }

  /** The table after a history. */
  function Table(ops: seq<Op>): map<BucketKey, Bucket>
    requires ValidOps(ops)
  {
    if ops == [] then map[]
    else
      var before, op := Table(ops[..|ops| - 1]), ops[|ops| - 1];
      if op.Write? then Upsert(before, KeyOf(op.call)) else Cleaned(before, op.at)
  }

  /** The calls of a window since the last clean-up past its end. */
  function Since(ops: seq<Op>, k: BucketKey): nat {
    if ops == [] then 0
    else
      var before, op := Since(ops[..|ops| - 1], k), ops[|ops| - 1];
      if op.Write? then before + (if Falls(op.call, k) then 1 else 0) else if op.at > End(k) then 0 else before
  }

  /** The calls of a window that clean-ups have removed. */
  function Lost(ops: seq<Op>, k: BucketKey): int { Ideal(CallsOf(ops), k) - Since(ops, k) }

  /** The table holds exactly the windows with calls since their last removal, each with their number up to the cap. */
  lemma {:induction false} TableCounts(ops: seq<Op>, k: BucketKey)
    requires ValidOps(ops)
    ensures k in Table(ops) <==> Since(ops, k) > 0
    ensures k in Table(ops) ==> Table(ops)[k] == Bucket(Min(Since(ops, k), COUNT_CAP), End(k))
  {
    if ops != [] {
      var before, op := ops[..|ops| - 1], ops[|ops| - 1];
      TableCounts(before, k);
      if op.Write? { assert Falls(op.call, k) <==> k == KeyOf(op.call); }
    }
  }

  lemma CallsAppend(ops: seq<Op>, op: Op)
    ensures CallsOf(ops + [op]) == CallsOf(ops) + if op.Write? then [op.call] else []
  {
    assert (ops + [op])[..|ops|] == ops;
  }

  lemma IdealAppend(calls: seq<Call>, c: Call, k: BucketKey)
    ensures Ideal(calls + [c], k) == Ideal(calls, k) + if Falls(c, k) then 1 else 0
  {
    assert (calls + [c])[..|calls|] == calls;
  }

  /** A write loses nothing; a clean-up past the end of a window loses all its calls. */
  lemma LostAppend(ops: seq<Op>, op: Op, k: BucketKey)
    ensures Lost(ops + [op], k) == if op.Clean? && op.at > End(k) then Ideal(CallsOf(ops), k) else Lost(ops, k)
  {
    assert (ops + [op])[..|ops|] == ops;
    CallsAppend(ops, op);
    if op.Write? { IdealAppend(CallsOf(ops), op.call, k); }
  }

  lemma {:induction false} LostBounds(ops: seq<Op>, k: BucketKey)
    ensures 0 <= Lost(ops, k) <= Ideal(CallsOf(ops), k)
  {
    if ops != [] {
      LostBounds(ops[..|ops| - 1], k);
      assert ops == ops[..|ops| - 1] + [ops[|ops| - 1]];
      LostAppend(ops[..|ops| - 1], ops[|ops| - 1], k);
    }
  }

  // ---- Decisions ------------------------------------------------------------------------------

  function Decide(count: nat, limit: nat): (bool, int) { (count <= limit, Max(0, limit - count)) }

  /** The decision of the call that was written last, as the table gives it. */
  function DecisionOf(ops: seq<Op>, c: Call): (bool, int)
    requires ValidOps(ops) && c.windowMs > 0
  {
    var table := Table(ops);
    Decide(if KeyOf(c) in table then table[KeyOf(c)].count else 0, c.limit)
  }

  function IdealDecision(ops: seq<Op>, c: Call): (bool, int)
    requires c.windowMs > 0
  {
    Decide(Ideal(CallsOf(ops), KeyOf(c)), c.limit)
  }

  /**
   Exactly when a decision is that of the counter that is never cleaned or capped: when no clean-up has
   removed a call of the window, or when the calls since then are over the limit by themselves.
   */
  lemma DecisionExactly(ops: seq<Op>, c: Call)
    requires ValidOps(ops) && ValidPolicy(c.limit, c.windowMs)
    ensures var after := ops + [Write(c)];
      DecisionOf(after, c) == IdealDecision(after, c) <==>
        Lost(after, KeyOf(c)) == 0 || Since(after, KeyOf(c)) > c.limit
  {
    var after := ops + [Write(c)];
    assert ValidOps(after);
    TableCounts(after, KeyOf(c));
    LostBounds(after, KeyOf(c));
    assert after[..|ops|] == ops;
  }

  /** The failing runs: a window full to its limit, a clean-up past its end, and a call that still falls into it. */
  lemma OvertakenCallIsAllowed(ops: seq<Op>, c: Call, at: int)
    requires ValidOps(ops) && ValidPolicy(c.limit, c.windowMs)
    requires Ideal(CallsOf(ops), KeyOf(c)) >= c.limit && at > End(KeyOf(c))
    ensures var after := ops + [Clean(at)] + [Write(c)];
      DecisionOf(after, c) == (true, c.limit - 1) && !IdealDecision(after, c).0
  {
    var cleaned := ops + [Clean(at)];
    var after := cleaned + [Write(c)];
    assert cleaned[..|ops|] == ops && after[..|cleaned|] == cleaned;
    assert ValidOps(after);
    TableCounts(after, KeyOf(c));
    CallsAppend(ops, Clean(at));
    CallsAppend(cleaned, Write(c));
    IdealAppend(CallsOf(ops), c, KeyOf(c));
  }

  class BucketTable {
    var buckets: map<BucketKey, Bucket>
    ghost var ops: seq<Op>

    ghost predicate Valid()
      reads this
    {
      ValidOps(ops) && buckets == Table(ops)
    }

    constructor ()
      ensures Valid() && ops == []
    {
      buckets, ops := map[], [];
    }

    /** The upsert of a call that has read its clock, now or some time ago. */
    method UpsertCall(c: Call) returns (row: Bucket)
      requires Valid() && c.windowMs > 0
      modifies this
      ensures Valid() && ops == old(ops) + [Write(c)] && KeyOf(c) in buckets && row == buckets[KeyOf(c)]
    {
      var k := KeyOf(c);
      buckets := Upsert(buckets, k);
      ops := ops + [Write(c)];
      assert ops[..|ops| - 1] == old(ops);
      row := buckets[k];
    }

    method RemoveExpired(at: int)
      requires Valid()
      modifies this
      ensures Valid() && ops == old(ops) + [Clean(at)]
    {
      buckets := Cleaned(buckets, at);
      ops := ops + [Clean(at)];
      assert ops[..|ops| - 1] == old(ops);
    }
  }

  class Limiter {
    const table: BucketTable
    var requestsSinceCleanup: nat

    constructor (table: BucketTable)
      ensures this.table == table && requestsSinceCleanup == 0
    {
      this.table, requestsSinceCleanup := table, 0;
    }

    /**
     One call with a clock reading made at any time before its write; any number of limiters may share
     the table. The decision is exactly that of the calls since the last clean-up past the window's end.
     */
    method Consume(key: string, limit: int, windowMs: int, bin: int, returned: int, cleanupAt: Option<int>)
      returns (r: Result<Decision>)
      requires table.Valid()
      modifies this, table
      ensures table.Valid()
      ensures r.Success? <==> 1 <= limit <= 1_000_000 && 1_000 <= windowMs <= 86_400_000
      ensures r.Failure? ==> table.ops == old(table.ops) && requestsSinceCleanup == old(requestsSinceCleanup)
      ensures r.Success? ==>
        var call := Call(key, limit, windowMs, bin);
        var after := old(table.ops) + [Write(call)];
        // Every 256th call cleans up, unless that fails.
        && requestsSinceCleanup == (if old(requestsSinceCleanup) >= 255 then 0 else old(requestsSinceCleanup) + 1)
        && table.ops == (if old(requestsSinceCleanup) >= 255 && cleanupAt.Some? then after + [Clean(cleanupAt.value)]
                         else after)
        && (r.value.allowed, r.value.remaining) == Decide(Since(after, KeyOf(call)), limit)
        && ((r.value.allowed, r.value.remaining) == IdealDecision(after, call) <==>
              Lost(after, KeyOf(call)) == 0 || Since(after, KeyOf(call)) > limit)
        && r.value.limit == limit && r.value.retryAfterSeconds >= 1
        // The fewest whole seconds, one at least, after which the window has ended.
        && returned + r.value.retryAfterSeconds * 1_000_000 >= End(KeyOf(call))
        && (r.value.retryAfterSeconds > 1 ==>
              returned + (r.value.retryAfterSeconds - 1) * 1_000_000 < End(KeyOf(call)))
    {
      if !ValidPolicy(limit, windowMs) { return Failure("Rate-limit policy is out of range."); }
      var call := Call(key, limit, windowMs, bin);
      DecisionExactly(table.ops, call);
      var row := table.UpsertCall(call);
      TableCounts(table.ops, KeyOf(call));
      var retryAfter := Max(1, Ceil(row.expiresAt - returned));
      r := Success(Decision(row.count <= limit, limit, Max(0, limit - row.count), retryAfter));
      requestsSinceCleanup := requestsSinceCleanup + 1;
      if requestsSinceCleanup >= CLEANUP_EVERY {
        requestsSinceCleanup := 0;
        if cleanupAt.Some? { table.RemoveExpired(cleanupAt.value); }
      }
    }
  }

  // ---- Interleaving ---------------------------------------------------------------------------

  /** A call that has read its clock and not yet written; a clean-up past its window's end may have overtaken it. */
  datatype Pending = Pending(call: Call, overtaken: bool)

  datatype System = System(now: int, pending: map<nat, Pending>, ops: seq<Op>)

  datatype Event =
    | Tick(us: nat)
    | Read(id: nat, key: string, limit: nat, windowMs: nat)
    | Put(id: nat)
    | CleanUp(at: int)

  /** Clean-ups go by the database clock, or by one that is not ahead of it. */
  predicate Enabled(s: System, e: Event) {
    match e
    case Tick(_) => true
    case Read(id, _, limit, windowMs) => id !in s.pending && ValidPolicy(limit, windowMs)
    case Put(id) => id in s.pending
    case CleanUp(at) => at <= s.now
  }

  /** The clean-up removes the bucket of this call's window. */
  predicate Removes(ops: seq<Op>, at: int, c: Call)
    requires ValidOps(ops) && c.windowMs > 0
  {
    at > End(KeyOf(c)) && KeyOf(c) in Table(ops)
  }

  predicate WellFormed(s: System) {
    && ValidOps(s.ops)
    && forall id :: id in s.pending ==> ValidPolicy(s.pending[id].call.limit, s.pending[id].call.windowMs)
  }

  function Step(s: System, e: Event): System
    requires WellFormed(s) && Enabled(s, e)
  {
    match e
    case Tick(us) => s.(now := s.now + us)
    case Read(id, key, limit, windowMs) =>
      s.(pending := s.pending[id := Pending(Call(key, limit, windowMs, s.now), false)])
    case Put(id) => s.(pending := s.pending - {id}, ops := s.ops + [Write(s.pending[id].call)])
    case CleanUp(at) =>
      s.(pending := map id | id in s.pending ::
           s.pending[id].(overtaken := s.pending[id].overtaken || Removes(s.ops, at, s.pending[id].call)),
         ops := s.ops + [Clean(at)])
  }

  ghost predicate Execution(s: System, events: seq<Event>, last: System)
    decreases |events|
  {
    if events == [] then s == last
    else WellFormed(s) && Enabled(s, events[0]) && Execution(Step(s, events[0]), events[1..], last)
  }

  predicate PendingSound(s: System, p: Pending)
    requires p.call.windowMs > 0
  {
    p.call.at <= s.now && (p.overtaken <==> Lost(s.ops, KeyOf(p.call)) > 0)
  }

  predicate Inv(s: System) {
    && WellFormed(s) && (forall id :: id in s.pending ==> PendingSound(s, s.pending[id]))
    && (forall i :: 0 <= i < |s.ops| && s.ops[i].Clean? ==> s.ops[i].at <= s.now)
  }

  /** Only a clean-up past the end of a window loses its calls. */
  lemma {:induction false} LostNeedsCleanUp(ops: seq<Op>, k: BucketKey)
    requires Lost(ops, k) > 0
    ensures exists i :: 0 <= i < |ops| && ops[i].Clean? && ops[i].at > End(k)
  {
    var before, op := ops[..|ops| - 1], ops[|ops| - 1];
    assert ops == before + [op];
    LostAppend(before, op, k);
    if !(op.Clean? && op.at > End(k)) {
      LostNeedsCleanUp(before, k);
      var i :| 0 <= i < |before| && before[i].Clean? && before[i].at > End(k);
      assert ops[i] == before[i];
    }
  }

  /** A window that has just been read is intact, because every clean-up so far was by an earlier clock. */
  lemma FreshWindowIntact(s: System, c: Call)
    requires Inv(s) && c.windowMs > 0 && c.at == s.now
    ensures Lost(s.ops, KeyOf(c)) == 0
  {
    LostBounds(s.ops, KeyOf(c));
    if Lost(s.ops, KeyOf(c)) > 0 { LostNeedsCleanUp(s.ops, KeyOf(c)); }
  }

  lemma CleanUpMarks(s: System, at: int, p: Pending)
    requires ValidOps(s.ops) && p.call.windowMs > 0 && (p.overtaken <==> Lost(s.ops, KeyOf(p.call)) > 0)
    ensures (p.overtaken || Removes(s.ops, at, p.call)) <==> Lost(s.ops + [Clean(at)], KeyOf(p.call)) > 0
  {
    LostAppend(s.ops, Clean(at), KeyOf(p.call));
    LostBounds(s.ops, KeyOf(p.call));
    TableCounts(s.ops, KeyOf(p.call));
  }

  lemma StepKeepsInv(s: System, e: Event)
    requires Inv(s) && Enabled(s, e)
    ensures Inv(Step(s, e))
  {
    var t := Step(s, e);
    match e
    case Read(id, key, limit, windowMs) => FreshWindowIntact(s, Call(key, limit, windowMs, s.now));
    case Put(id) =>
      forall k | k in t.pending ensures PendingSound(t, t.pending[k]) {
        LostAppend(s.ops, Write(s.pending[id].call), KeyOf(t.pending[k].call));
      }
    case CleanUp(at) =>
      forall k | k in t.pending ensures PendingSound(t, t.pending[k]) {
        assert PendingSound(s, s.pending[k]);
        CleanUpMarks(s, at, s.pending[k]);
      }
    case Tick(_) =>
      forall k | k in t.pending ensures PendingSound(t, t.pending[k]) { assert PendingSound(s, s.pending[k]); }
  }

  lemma {:induction false} ExecutionKeepsInv(s: System, events: seq<Event>, last: System)
    requires Inv(s) && Execution(s, events, last)
    ensures Inv(last)
    decreases |events|
  {
    if events != [] {
      StepKeepsInv(s, events[0]);
      ExecutionKeepsInv(Step(s, events[0]), events[1..], last);
    }
  }

  /**
   In every interleaving with clean-ups by a clock not ahead of the database's, a call is decided as by the
   ideal counter if and only if no clean-up past its window's end removed its bucket between its clock
   reading and its write, or the calls since then are over the limit anyway.
   */
  lemma DecidedIdeallyExactly(now: int, events: seq<Event>, s: System, id: nat)
    requires Execution(System(now, map[], []), events, s) && id in s.pending
    ensures WellFormed(s)
    ensures
      var c := s.pending[id].call;
      var after := s.ops + [Write(c)];
      DecisionOf(after, c) == IdealDecision(after, c) <==>
        !s.pending[id].overtaken || Since(after, KeyOf(c)) > c.limit
  {
    ExecutionKeepsInv(System(now, map[], []), events, s);
    var c := s.pending[id].call;
    assert PendingSound(s, s.pending[id]);
    LostBounds(s.ops, KeyOf(c));
    LostAppend(s.ops, Write(c), KeyOf(c));
    DecisionExactly(s.ops, c);
  }

  // ---- What the ideal counter guarantees ------------------------------------------------------

  /** Calls of one key and window length all come with the same limit. */
  predicate OnePolicy(calls: seq<Call>, key: string, windowMs: nat, limit: nat) {
    forall i :: 0 <= i < |calls| && calls[i].key == key && calls[i].windowMs == windowMs ==> calls[i].limit == limit
  }

  /** How many of the calls that satisfy a test were allowed. */
  ghost function AllowedCount(calls: seq<Call>, test: Call -> bool): nat {
    if calls == [] then 0
    else
      var n := |calls| - 1;
      AllowedCount(calls[..n], test) +
      if test(calls[n]) && calls[n].windowMs > 0 && AllowedAt(calls, n) then 1 else 0
  }

  ghost function InWindow(k: BucketKey): Call -> bool { (c: Call) => Falls(c, k) }

  /** In every window exactly the first `limit` calls are allowed. */
  lemma {:induction false} WindowAllowsLimit(calls: seq<Call>, k: BucketKey, limit: nat)
    requires OnePolicy(calls, k.key, k.windowMs, limit)
    ensures AllowedCount(calls, InWindow(k)) == Min(Ideal(calls, k), limit)
  {
    if calls != [] {
      var n := |calls| - 1;
      WindowAllowsLimit(calls[..n], k, limit);
      assert calls[..n + 1] == calls;
      if Falls(calls[n], k) { assert KeyOf(calls[n]) == k; }
    }
  }

  /** An interval one window long, wherever it starts. */
  ghost function Within(key: string, windowMs: nat, from: int): Call -> bool {
    (c: Call) => c.key == key && c.windowMs == windowMs && from <= c.at < from + Length(windowMs)
  }

  lemma TwoWindowsSuffice(from: int, at: int, windowMs: nat)
    requires windowMs > 0 && from <= at < from + Length(windowMs)
    ensures WindowStart(at, windowMs) == WindowStart(from, windowMs) ||
            WindowStart(at, windowMs) == WindowStart(from, windowMs) + Length(windowMs)
  {
    var w := Length(windowMs);
    Neighbours(from, at, from / w, at / w, w);
  }

  lemma Neighbours(from: int, at: int, p: int, q: int, w: int)
    requires w > 0 && from <= at < from + w
    requires p * w <= from < p * w + w && q * w <= at < q * w + w
    ensures q * w == p * w || q * w == p * w + w
  {
    MulDistributes(p, 1, w);
    MulDistributes(p, 2, w);
    MulDistributes(q, 1, w);
    CancelLt(q, p + 2, w);
    CancelLt(p, q + 1, w);
  }

  lemma {:induction false} SplitByWindow(calls: seq<Call>, key: string, windowMs: nat, from: int)
    requires windowMs > 0
    ensures var start := WindowStart(from, windowMs);
      AllowedCount(calls, Within(key, windowMs, from)) <=
        AllowedCount(calls, InWindow(BucketKey(key, start, windowMs))) +
        AllowedCount(calls, InWindow(BucketKey(key, start + Length(windowMs), windowMs)))
  {
    if calls != [] {
      var n := |calls| - 1;
      SplitByWindow(calls[..n], key, windowMs, from);
      if Within(key, windowMs, from)(calls[n]) { TwoWindowsSuffice(from, calls[n].at, windowMs); }
    }
  }

  /** Any interval of one window length allows at most twice the limit. */
  lemma IntervalAllowsTwice(calls: seq<Call>, key: string, windowMs: nat, limit: nat, from: int)
    requires windowMs > 0 && OnePolicy(calls, key, windowMs, limit)
    ensures AllowedCount(calls, Within(key, windowMs, from)) <= 2 * limit
  {
    var start := WindowStart(from, windowMs);
    SplitByWindow(calls, key, windowMs, from);
    WindowAllowsLimit(calls, BucketKey(key, start, windowMs), limit);
    WindowAllowsLimit(calls, BucketKey(key, start + Length(windowMs), windowMs), limit);
  }

  // ---- What the table guarantees --------------------------------------------------------------

  /** How many of the calls that satisfy a test the table allowed when it was written. */
  ghost function TableAllowed(ops: seq<Op>, test: Call -> bool): nat
    requires ValidOps(ops)
  {
    if ops == [] then 0
    else
      var n := |ops| - 1;
      TableAllowed(ops[..n], test) +
      if ops[n].Write? && test(ops[n].call) && DecisionOf(ops, ops[n].call).0 then 1 else 0
  }

  /** What each removal of a window's bucket had let through by then. */
  function Closed(ops: seq<Op>, k: BucketKey, limit: nat): nat {
    if ops == [] then 0
    else
      var before, op := ops[..|ops| - 1], ops[|ops| - 1];
      Closed(before, k, limit) + if op.Clean? && op.at > End(k) then Min(Since(before, k), limit) else 0
  }

  /** Some call of the window was written after the window had lost calls. */
  predicate Late(ops: seq<Op>, k: BucketKey) {
    ops != [] &&
    var before, op := ops[..|ops| - 1], ops[|ops| - 1];
    Late(before, k) || (op.Write? && Falls(op.call, k) && Lost(before, k) > 0)
  }

  /** The table allows one more call exactly when the window has had at most `limit` since its last removal. */
  lemma AllowedAppend(ops: seq<Op>, op: Op, k: BucketKey, limit: nat)
    requires ValidOps(ops + [op]) && OnePolicy(CallsOf(ops + [op]), k.key, k.windowMs, limit) && limit < COUNT_CAP
    ensures ValidOps(ops) && OnePolicy(CallsOf(ops), k.key, k.windowMs, limit)
    ensures
      var more := if op.Write? && Falls(op.call, k) && Since(ops, k) < limit then 1 else 0;
      TableAllowed(ops + [op], InWindow(k)) == TableAllowed(ops, InWindow(k)) + more
  {
    var after := ops + [op];
    assert after[..|ops|] == ops && forall i :: 0 <= i < |ops| ==> after[i] == ops[i];
    CallsAppend(ops, op);
    var calls := CallsOf(after);
    assert forall i :: 0 <= i < |CallsOf(ops)| ==> calls[i] == CallsOf(ops)[i];
    if op.Write? && Falls(op.call, k) {
      assert KeyOf(op.call) == k && calls[|calls| - 1] == op.call;
      TableCounts(after, k);
    }
  }

  /** In every history a window is allowed `limit` calls after each of its removals, as far as calls were made. */
  lemma {:induction false} AllowedBetweenRemovals(ops: seq<Op>, k: BucketKey, limit: nat)
    requires ValidOps(ops) && OnePolicy(CallsOf(ops), k.key, k.windowMs, limit) && limit < COUNT_CAP
    ensures TableAllowed(ops, InWindow(k)) == Closed(ops, k, limit) + Min(Since(ops, k), limit)
  {
    if ops != [] {
      var before, op := ops[..|ops| - 1], ops[|ops| - 1];
      assert ops == before + [op];
      AllowedAppend(before, op, k, limit);
      AllowedBetweenRemovals(before, k, limit);
    }
  }

  /** Without a late call a window is allowed as by the ideal counter; with one, all its calls or more than `limit`. */
  predicate AllowedShape(allowed: nat, ideal: nat, since: nat, late: bool, limit: nat) {
    && since <= ideal && Min(ideal, limit) <= allowed <= ideal
    && if late then since < ideal && (allowed == ideal || allowed > limit)
       else allowed == Min(ideal, limit) && (since == ideal || since == 0)
  }

  lemma ShapeAfterWrite(allowed: nat, ideal: nat, since: nat, late: bool, limit: nat)
    requires AllowedShape(allowed, ideal, since, late, limit) && limit >= 1
    ensures AllowedShape(
      allowed + (if since < limit then 1 else 0), ideal + 1, since + 1, late || ideal - since > 0, limit)
  {
  }

  lemma ShapeAfterRemoval(allowed: nat, ideal: nat, since: nat, late: bool, limit: nat)
    requires AllowedShape(allowed, ideal, since, late, limit)
    ensures AllowedShape(allowed, ideal, 0, late, limit)
  {
  }

  lemma {:induction false} AllowedHasShape(ops: seq<Op>, k: BucketKey, limit: nat)
    requires ValidOps(ops) && OnePolicy(CallsOf(ops), k.key, k.windowMs, limit) && 1 <= limit < COUNT_CAP
    ensures AllowedShape(
      TableAllowed(ops, InWindow(k)), Ideal(CallsOf(ops), k), Since(ops, k), Late(ops, k), limit)
  {
    if ops != [] {
      var before, op := ops[..|ops| - 1], ops[|ops| - 1];
      assert ops == before + [op];
      AllowedAppend(before, op, k, limit);
      AllowedHasShape(before, k, limit);
      CallsAppend(before, op);
      var allowed, ideal := TableAllowed(before, InWindow(k)), Ideal(CallsOf(before), k);
      if op.Write? {
        IdealAppend(CallsOf(before), op.call, k);
        ShapeAfterWrite(allowed, ideal, Since(before, k), Late(before, k), limit);
      } else {
        ShapeAfterRemoval(allowed, ideal, Since(before, k), Late(before, k), limit);
      }
    }
  }

  /**
   In every history, with clean-ups by any clock, the table never allows a window fewer calls than the ideal
   counter, and it allows as many if and only if no more than `limit` were made or none was late.
   */
  lemma TableAllowsLimitExactly(ops: seq<Op>, k: BucketKey, limit: nat)
    requires ValidOps(ops) && OnePolicy(CallsOf(ops), k.key, k.windowMs, limit) && 1 <= limit < COUNT_CAP
    ensures TableAllowed(ops, InWindow(k)) >= Min(Ideal(CallsOf(ops), k), limit)
    ensures TableAllowed(ops, InWindow(k)) == Min(Ideal(CallsOf(ops), k), limit) <==>
      Ideal(CallsOf(ops), k) <= limit || !Late(ops, k)
  {
    AllowedHasShape(ops, k, limit);
  }

  lemma {:induction false} TableSplitByWindow(ops: seq<Op>, key: string, windowMs: nat, from: int)
    requires windowMs > 0 && ValidOps(ops)
    ensures var start := WindowStart(from, windowMs);
      TableAllowed(ops, Within(key, windowMs, from)) <=
        TableAllowed(ops, InWindow(BucketKey(key, start, windowMs))) +
        TableAllowed(ops, InWindow(BucketKey(key, start + Length(windowMs), windowMs)))
  {
    if ops != [] {
      var n := |ops| - 1;
      TableSplitByWindow(ops[..n], key, windowMs, from);
      if ops[n].Write? && Within(key, windowMs, from)(ops[n].call) {
        TwoWindowsSuffice(from, ops[n].call.at, windowMs);
      }
    }
  }

  /** Any interval of one window length allows at most twice the limit, if neither window it meets has a late call. */
  lemma TableIntervalAllowsTwice(ops: seq<Op>, key: string, windowMs: nat, limit: nat, from: int)
    requires windowMs > 0 && ValidOps(ops) && OnePolicy(CallsOf(ops), key, windowMs, limit) && 1 <= limit < COUNT_CAP
    ensures var start := WindowStart(from, windowMs);
      !Late(ops, BucketKey(key, start, windowMs)) &&
      !Late(ops, BucketKey(key, start + Length(windowMs), windowMs)) ==>
        TableAllowed(ops, Within(key, windowMs, from)) <= 2 * limit
  {
    var start := WindowStart(from, windowMs);
    TableSplitByWindow(ops, key, windowMs, from);
    TableAllowsLimitExactly(ops, BucketKey(key, start, windowMs), limit);
    TableAllowsLimitExactly(ops, BucketKey(key, start + Length(windowMs), windowMs), limit);
  }

  /** In a run, a call of the window that a clean-up has overtaken is written. */
  ghost predicate OvertakenPut(s: System, events: seq<Event>, k: BucketKey)
    decreases |events|
  {
    && events != [] && WellFormed(s) && Enabled(s, events[0])
    && (|| (events[0].Put? && s.pending[events[0].id].overtaken && Falls(s.pending[events[0].id].call, k))
        || OvertakenPut(Step(s, events[0]), events[1..], k))
  }

  lemma LateAppend(ops: seq<Op>, op: Op, k: BucketKey)
    ensures Late(ops + [op], k) <==> Late(ops, k) || (op.Write? && Falls(op.call, k) && Lost(ops, k) > 0)
  {
    assert (ops + [op])[..|ops|] == ops;
  }

  lemma StepLate(s: System, e: Event, k: BucketKey)
    requires Inv(s) && Enabled(s, e)
    ensures Late(Step(s, e).ops, k) <==>
      Late(s.ops, k) || (e.Put? && s.pending[e.id].overtaken && Falls(s.pending[e.id].call, k))
  {
    match e
    case Put(id) =>
      var p := s.pending[id];
      assert PendingSound(s, p);
      LateAppend(s.ops, Write(p.call), k);
      if Falls(p.call, k) { assert KeyOf(p.call) == k; }
    case CleanUp(at) => LateAppend(s.ops, Clean(at), k);
    case _ =>
  }

  /** The late calls of a run are the overtaken ones. */
  lemma {:induction false} LateExactlyWhenOvertaken(s: System, events: seq<Event>, last: System, k: BucketKey)
    requires Inv(s) && Execution(s, events, last)
    ensures Late(last.ops, k) <==> Late(s.ops, k) || OvertakenPut(s, events, k)
    decreases |events|
  {
    if events != [] {
      StepKeepsInv(s, events[0]);
      StepLate(s, events[0], k);
      LateExactlyWhenOvertaken(Step(s, events[0]), events[1..], last, k);
    }
  }

  /**
   In every interleaving the table allows a window exactly the smaller of its calls and the limit if and only if
   no more than `limit` calls were made in it or no overtaken call of it was written.
   */
  lemma RunAllowsLimitExactly(now: int, events: seq<Event>, s: System, k: BucketKey, limit: nat)
    requires Execution(System(now, map[], []), events, s)
    requires OnePolicy(CallsOf(s.ops), k.key, k.windowMs, limit) && 1 <= limit < COUNT_CAP
    ensures ValidOps(s.ops)
    ensures TableAllowed(s.ops, InWindow(k)) == Min(Ideal(CallsOf(s.ops), k), limit) <==>
      Ideal(CallsOf(s.ops), k) <= limit || !OvertakenPut(System(now, map[], []), events, k)
  {
    ExecutionKeepsInv(System(now, map[], []), events, s);
    LateExactlyWhenOvertaken(System(now, map[], []), events, s, k);
    TableAllowsLimitExactly(s.ops, k, limit);
  }

  /** A pending call of a window that has had its limit: time passes, a clean-up comes, and the call is written. */
  lemma OvertakenRunExceedsLimit(s: System, id: nat, limit: nat)
    requires Inv(s) && id in s.pending && 1 <= limit < COUNT_CAP
    requires
      var c := s.pending[id].call;
      Ideal(CallsOf(s.ops), KeyOf(c)) >= limit && OnePolicy(CallsOf(s.ops) + [c], c.key, c.windowMs, limit)
    ensures
      var k := KeyOf(s.pending[id].call);
      var late := End(k) + 1;
      exists last :: (
        && Execution(s, [Tick(Max(0, late - s.now)), CleanUp(late), Put(id)], last) && ValidOps(last.ops)
        && TableAllowed(last.ops, InWindow(k)) > limit)
  {
    var c := s.pending[id].call;
    var k := KeyOf(c);
    var late := End(k) + 1;
    var last := OvertakingRun(s, id);
    OvertakenHistory(s.ops, c, late);
    TableAllowsLimitExactly(last.ops, k, limit);
  }

  lemma OvertakingRun(s: System, id: nat) returns (last: System)
    requires Inv(s) && id in s.pending
    ensures
      var c := s.pending[id].call;
      var late := End(KeyOf(c)) + 1;
      && Execution(s, [Tick(Max(0, late - s.now)), CleanUp(late), Put(id)], last)
      && last.ops == s.ops + [Clean(late)] + [Write(c)] && ValidOps(last.ops)
  {
    var late := End(KeyOf(s.pending[id].call)) + 1;
    var tick := Tick(Max(0, late - s.now));
    StepKeepsInv(s, tick);
    var s1 := Step(s, tick);
    StepKeepsInv(s1, CleanUp(late));
    var s2 := Step(s1, CleanUp(late));
    StepKeepsInv(s2, Put(id));
    last := Step(s2, Put(id));
    ExecutionOfThree(s, tick, CleanUp(late), Put(id));
  }

  lemma ExecutionOfThree(s: System, a: Event, b: Event, c: Event)
    requires WellFormed(s) && Enabled(s, a)
    requires WellFormed(Step(s, a)) && Enabled(Step(s, a), b)
    requires WellFormed(Step(Step(s, a), b)) && Enabled(Step(Step(s, a), b), c)
    ensures Execution(s, [a, b, c], Step(Step(Step(s, a), b), c))
  {
    var last := Step(Step(Step(s, a), b), c);
    assert Execution(last, [], last);
    assert Execution(Step(Step(s, a), b), [c], last);
    assert [a, b, c][1..] == [b, c];
    assert Execution(Step(s, a), [b, c], last);
  }

  lemma OvertakenHistory(ops: seq<Op>, c: Call, at: int)
    requires c.windowMs > 0 && Ideal(CallsOf(ops), KeyOf(c)) > 0 && at > End(KeyOf(c))
    ensures var after := ops + [Clean(at)] + [Write(c)];
      && CallsOf(after) == CallsOf(ops) + [c] && Late(after, KeyOf(c))
      && Ideal(CallsOf(after), KeyOf(c)) == Ideal(CallsOf(ops), KeyOf(c)) + 1
  {
    CallsAppend(ops, Clean(at));
    CallsAppend(ops + [Clean(at)], Write(c));
    IdealAppend(CallsOf(ops), c, KeyOf(c));
    LostAppend(ops, Clean(at), KeyOf(c));
    LateAppend(ops + [Clean(at)], Write(c), KeyOf(c));
  }

  /**
   In every interleaving an interval of one window length allows at most twice the limit, unless a call of one of
   the two windows it meets was written after it was overtaken.
   */
  lemma RunIntervalAllowsTwice(
      now: int, events: seq<Event>, s: System, key: string, windowMs: nat, limit: nat, from: int)
    requires Execution(System(now, map[], []), events, s)
    requires windowMs > 0 && OnePolicy(CallsOf(s.ops), key, windowMs, limit) && 1 <= limit < COUNT_CAP
    ensures ValidOps(s.ops)
    ensures
      var first, start := System(now, map[], []), WindowStart(from, windowMs);
      !OvertakenPut(first, events, BucketKey(key, start, windowMs)) &&
      !OvertakenPut(first, events, BucketKey(key, start + Length(windowMs), windowMs)) ==>
        TableAllowed(s.ops, Within(key, windowMs, from)) <= 2 * limit
  {
    var first, start := System(now, map[], []), WindowStart(from, windowMs);
    ExecutionKeepsInv(first, events, s);
    LateExactlyWhenOvertaken(first, events, s, BucketKey(key, start, windowMs));
    LateExactlyWhenOvertaken(first, events, s, BucketKey(key, start + Length(windowMs), windowMs));
    TableIntervalAllowsTwice(s.ops, key, windowMs, limit, from);
  }
}
