/** The SQLite rate-limit store: one row per (namespace, identifier), and its agreement with memory. */
module SqliteRateLimit {
  import opened Prelude
  import opened FixedWindow
  import opened TokenBucket
  import opened RateLimitRequests
  import Memory = MemoryRateLimit

  /** The primary key of both tables. */
  type RowKey = (string, string)

  datatype Tables = Tables(limits: map<RowKey, Window>, buckets: map<RowKey, Bucket>)

  const EMPTY := Tables(map[], map[])

  /** The bucket arithmetic on a row: unlike memory it uses the capacity of this call. */
  function ConsumeRow(row: Option<Bucket>, c: Config, cost: real, now: int): (Bucket, Outcome)
    requires Usable(c)
  {
    var stored := match row case Some(b) => (b.tokens, b.lastRefill) case None => (c.capacity, now);
    Consume(Some(Bucket(stored.0, stored.1, c.capacity, c.refillTokens, c.refillIntervalMs)), c, cost, now)
  }

  function Serve(s: Tables, r: Request, now: int): (Tables, Reply)
    requires Defined(r)
  {
    var k := (r.namespace, r.identifier);
    match r
    case IncrementAndCheck(_, _, limit, d) =>
      var (w, answer) := Hit(Get(s.limits, k), limit, d, now);
      (s.(limits := s.limits[k := w]), Answered(answer))
    case Check(_, _, limit, d) =>
      (s, Answered(Peek(Get(s.limits, k), limit, d, now)))
    case ConsumeTokenBucket(_, _, c, cost) =>
      var (b, answer) := ConsumeRow(Get(s.buckets, k), c, cost, now);
      (s.(buckets := s.buckets[k := b]), Answered(answer))
    case Reset(_, _) =>
      (Tables(s.limits - {k}, s.buckets - {k}), Cleared)
  }

  class SqliteRateLimitStore {
    var limits: map<RowKey, Window>
    var buckets: map<RowKey, Bucket>

    function State(): Tables
      reads this
    {
      Tables(limits, buckets)
    }

    constructor ()
      ensures State() == EMPTY
    {
      limits, buckets := map[], map[];
    }

    method IncrementAndCheck(namespace: string, identifier: string, limit: int, durationMs: int, now: int)
      returns (r: Outcome)
      modifies this
      ensures (State(), Answered(r))
           == Serve(old(State()), RateLimitRequests.IncrementAndCheck(namespace, identifier, limit, durationMs), now)
    {
      var row := Get(limits, (namespace, identifier));
      if row.None? || row.value.reset <= now {
        var reset := now + durationMs;
        limits := limits[(namespace, identifier) := Window(1, reset)];
        return Outcome(true, Max(0, limit - 1), reset);
      }
      var currentCount := row.value.count;
      if currentCount < limit {
        var newCount := currentCount + 1;
        limits := limits[(namespace, identifier) := row.value.(count := newCount)];
        return Outcome(true, Max(0, limit - newCount), row.value.reset);
      }
      assert limits[(namespace, identifier) := row.value] == limits;
      return Outcome(false, 0, row.value.reset);
    }

    method Check(namespace: string, identifier: string, limit: int, durationMs: int, now: int)
      returns (r: Outcome)
      ensures (State(), Answered(r))
           == Serve(State(), RateLimitRequests.Check(namespace, identifier, limit, durationMs), now)
    {
      var row := Get(limits, (namespace, identifier));
      if row.None? || row.value.reset <= now {
        return Outcome(true, Max(0, limit), now + durationMs);
      }
      if row.value.count < limit {
        return Outcome(true, Max(0, limit - row.value.count), row.value.reset);
      }
      return Outcome(false, 0, row.value.reset);
    }

    method ConsumeTokenBucket(namespace: string, identifier: string, c: Config, cost: real, now: int)
      returns (r: Outcome)
      requires Usable(c)
      modifies this
      ensures (State(), Answered(r))
           == Serve(old(State()), RateLimitRequests.ConsumeTokenBucket(namespace, identifier, c, cost), now)
    {
      var tokens, lastRefill := c.capacity, now;
      if (namespace, identifier) in buckets {
        var row := buckets[(namespace, identifier)];
        tokens, lastRefill := row.tokens, row.lastRefill;
      }
      var elapsed := Max(0, now - lastRefill);
      if elapsed > 0 {
        var add := Earned(c, elapsed);
        tokens := Min(c.capacity, tokens + add);
        lastRefill := now;
      }
      if tokens >= cost {
        tokens := tokens - cost;
        r := Outcome(true, tokens.Floor, now + Wait(c, c.capacity - tokens));
      } else {
        r := Outcome(false, (if tokens < 0.0 then 0.0 else tokens).Floor, now + Wait(c, cost - tokens));
      }
      buckets := buckets[(namespace, identifier) :=
        Bucket(tokens, lastRefill, c.capacity, c.refillTokens, c.refillIntervalMs)];
    }

    method Reset(namespace: string, identifier: string, ghost now: int)
      modifies this
      ensures (State(), Cleared) == Serve(old(State()), RateLimitRequests.Reset(namespace, identifier), now)
    {
      limits := limits - {(namespace, identifier)};
      buckets := buckets - {(namespace, identifier)};
    }
  }

  function After(run: seq<Timed>): Tables
    requires AllDefined(run)
  {
    if run == [] then EMPTY
    else
      var n := |run| - 1;
      Serve(After(run[..n]), run[n].request, run[n].now).0
  }

  function ReplyAt(run: seq<Timed>, i: nat): Reply
    requires AllDefined(run) && i < |run|
  {
    Serve(After(run[..i]), run[i].request, run[i].now).1
  }

  // ----- Agreement with the memory store -----

  /** The namespaces in use, and the one capacity that every bucket call on a pair passes. */
  datatype Plan = Plan(namespaces: set<string>, capacityOf: (string, string) -> real)

  predicate Plain(r: Request, plan: Plan) {
    r.namespace in plan.namespaces
    && (r.ConsumeTokenBucket? ==> r.config.capacity == plan.capacityOf(r.namespace, r.identifier))
  }

  ghost predicate Planned(run: seq<Timed>, plan: Plan) {
    AllDefined(run) && forall i :: 0 <= i < |run| ==> Plain(run[i].request, plan)
  }

  /** The same tokens as of the same refill; memory also holds the capacity it will use. */
  predicate SameBucket(m: Option<Bucket>, row: Option<Bucket>, capacity: real) {
    m.Some? == row.Some?
    && (m.Some? ==> m.value.tokens == row.value.tokens && m.value.lastRefill == row.value.lastRefill
                    && m.value.capacity == capacity)
  }

  predicate SameEntries(m: Memory.Limiter, s: Tables, k: RowKey, plan: Plan) {
    Get(m.windows, Memory.Key(k.0, k.1)) == Get(s.limits, k)
    && SameBucket(Get(m.buckets, Memory.Key(k.0, k.1)), Get(s.buckets, k), plan.capacityOf(k.0, k.1))
  }

  ghost predicate Same(m: Memory.Limiter, s: Tables, plan: Plan) {
    forall k: RowKey | k.0 in plan.namespaces :: SameEntries(m, s, k, plan)
  }

  lemma ConsumeAgrees(m: Option<Bucket>, row: Option<Bucket>, c: Config, cost: real, now: int)
    requires Usable(c) && SameBucket(m, row, c.capacity)
    ensures var (x, y) := (Consume(m, c, cost, now), ConsumeRow(row, c, cost, now));
      x.1 == y.1 && SameBucket(Some(x.0), Some(y.0), c.capacity)
  {
  }

  lemma OwnEntriesAgree(m: Memory.Limiter, s: Tables, r: Request, now: int, plan: Plan)
    requires Defined(r) && Plain(r, plan)
    requires SameEntries(m, s, (r.namespace, r.identifier), plan)
    ensures Memory.Serve(m, r, now).1 == Serve(s, r, now).1
    ensures SameEntries(Memory.Serve(m, r, now).0, Serve(s, r, now).0, (r.namespace, r.identifier), plan)
  {
    if r.ConsumeTokenBucket? {
      ConsumeAgrees(Get(m.buckets, Memory.Key(r.namespace, r.identifier)),
                    Get(s.buckets, (r.namespace, r.identifier)), r.config, r.cost, now);
    }
  }

  lemma OtherRowsStay(s: Tables, r: Request, now: int, k: RowKey)
    requires Defined(r) && k != (r.namespace, r.identifier)
    ensures Get(Serve(s, r, now).0.limits, k) == Get(s.limits, k)
    ensures Get(Serve(s, r, now).0.buckets, k) == Get(s.buckets, k)
  {
  }

  lemma ServeAgrees(m: Memory.Limiter, s: Tables, r: Request, now: int, plan: Plan)
    requires Memory.Apart(plan.namespaces) && Defined(r) && Plain(r, plan) && Same(m, s, plan)
    ensures Memory.Serve(m, r, now).1 == Serve(s, r, now).1
    ensures Same(Memory.Serve(m, r, now).0, Serve(s, r, now).0, plan)
  {
    var own := (r.namespace, r.identifier);
    assert SameEntries(m, s, own, plan);
    OwnEntriesAgree(m, s, r, now, plan);
    forall k: RowKey | k.0 in plan.namespaces
      ensures SameEntries(Memory.Serve(m, r, now).0, Serve(s, r, now).0, k, plan)
    {
      if k != own {
        assert SameEntries(m, s, k, plan);
        if Memory.On(r, Memory.Key(k.0, k.1)) {
          Memory.KeyIsInjective(r.namespace, r.identifier, k.0, k.1);
        }
        Memory.ServeIsLocal(m, r, now, Memory.Key(k.0, k.1));
        OtherRowsStay(s, r, now, k);
      }
    }
  }

  lemma {:induction false} StatesAgree(run: seq<Timed>, plan: Plan)
    requires Memory.Apart(plan.namespaces) && Planned(run, plan)
    ensures Same(Memory.After(run), After(run), plan)
  {
    if run != [] {
      var n := |run| - 1;
      StatesAgree(run[..n], plan);
      ServeAgrees(Memory.After(run[..n]), After(run[..n]), run[n].request, run[n].now, plan);
    }
  }

  /**
   Memory and SQLite answer every call of every run alike: windows under any limits and
   durations and any clock, buckets as long as a pair keeps its capacity, provided that no two
   namespaces in use clash.
   */
  lemma SqliteAgreesWithMemory(run: seq<Timed>, plan: Plan, i: nat)
    requires Memory.Apart(plan.namespaces) && Planned(run, plan) && i < |run|
    ensures ReplyAt(run, i) == Memory.ReplyAt(run, i)
  {
    StatesAgree(run[..i], plan);
    ServeAgrees(Memory.After(run[..i]), After(run[..i]), run[i].request, run[i].now, plan);
  }

  /** The two stores answer every call of every planned run alike. */
  ghost predicate AlwaysAgree(plan: Plan) {
    forall run: seq<Timed>, i: nat | Planned(run, plan) && i < |run| :: ReplyAt(run, i) == Memory.ReplyAt(run, i)
  }

  /** Clashing namespaces tell the stores apart: the second caller finds the first one's counter in memory only. */
  lemma ClashDisagrees(n1: string, n2: string) returns (run: seq<Timed>)
    requires Memory.Clash(n1, n2)
    ensures |run| == 2 && AllDefined(run)
    ensures forall i | 0 <= i < 2 :: run[i].request.IncrementAndCheck? && run[i].request.namespace in {n1, n2}
    ensures ReplyAt(run, 1) != Memory.ReplyAt(run, 1)
  {
    var ids := Memory.Meeting(n1, n2);
    var (first, second) := (IncrementAndCheck(n1, ids.0, 1, 1), IncrementAndCheck(n2, ids.1, 1, 1));
    run := [Timed(first, 0), Timed(second, 0)];
    assert run[..1] == [run[0]] && run[..1][..0] == [];
    assert After(run[..1]) == Serve(EMPTY, first, 0).0;
    assert Memory.After(run[..1]) == Memory.Serve(Memory.EMPTY, first, 0).0;
  }

  /** The stores always agree if and only if no two namespaces in use clash. */
  lemma AgreementIffApart(plan: Plan)
    ensures AlwaysAgree(plan) <==> Memory.Apart(plan.namespaces)
  {
    if Memory.Apart(plan.namespaces) {
      forall run: seq<Timed>, i: nat | Planned(run, plan) && i < |run|
        ensures ReplyAt(run, i) == Memory.ReplyAt(run, i)
      {
        SqliteAgreesWithMemory(run, plan, i);
      }
    } else {
      var n1, n2 :| n1 in plan.namespaces && n2 in plan.namespaces && Memory.Clash(n1, n2);
      var run := ClashDisagrees(n1, n2);
      assert Planned(run, plan);
    }
  }

  /**
   The capacity matters as well: two stores holding the same tokens answer every further call of
   configuration `c` alike if and only if memory holds the capacity that `c` passes.
   */
  lemma AgreementNeedsCapacity(m: Bucket, row: Bucket, c: Config)
    requires Usable(c) && row.tokens == m.tokens && row.lastRefill == m.lastRefill
    ensures (forall cost: real, now: int :: Consume(Some(m), c, cost, now).1 == ConsumeRow(Some(row), c, cost, now).1)
      <==> m.capacity == c.capacity
  {
    if m.capacity == c.capacity {
      forall cost: real, now: int
        ensures Consume(Some(m), c, cost, now).1 == ConsumeRow(Some(row), c, cost, now).1
      {
        ConsumeAgrees(Some(m), Some(row), c, cost, now);
      }
    } else {
      // Once both are full, a call that costs the larger capacity tells them apart.
      var cost := if m.capacity < c.capacity then c.capacity else m.capacity;
      var elapsed := Max(1, Wait(c, cost - m.tokens));
      WaitIsExact(c, cost - m.tokens, elapsed);
      assert Consume(Some(m), c, cost, m.lastRefill + elapsed).1
          != ConsumeRow(Some(row), c, cost, m.lastRefill + elapsed).1;
    }
  }
  lemma OneBucketCall(n: string, i: string, c: Config)
    requires Usable(c)
    ensures var t := Timed(ConsumeTokenBucket(n, i, c, 0.0), 0);
      var (m, row) := (Consume(None, c, 0.0, 0).0, ConsumeRow(None, c, 0.0, 0).0);
      Memory.After([t]).buckets == map[Memory.Key(n, i) := m] && After([t]).buckets == map[(n, i) := row]
      && m.tokens == row.tokens && m.lastRefill == row.lastRefill && m.capacity == c.capacity
  {
    var run := [Timed(ConsumeTokenBucket(n, i, c, 0.0), 0)];
    assert run[..0] == [];
  }

  /**
   A run that shows it: whatever pair and configuration a bucket is opened with, some call with
   another capacity is answered differently.
   */
  lemma NewCapacityDisagrees(n: string, i: string, c: Config, other: Config) returns (run: seq<Timed>)
    requires Usable(c) && Usable(other) && c.capacity != other.capacity
    ensures |run| == 2 && AllDefined(run)
    ensures run[0].request == ConsumeTokenBucket(n, i, c, 0.0)
    ensures run[1].request.ConsumeTokenBucket?
         && run[1].request == ConsumeTokenBucket(n, i, other, run[1].request.cost)
    ensures ReplyAt(run, 1) != Memory.ReplyAt(run, 1)
  {
    var first := Timed(ConsumeTokenBucket(n, i, c, 0.0), 0);
    var (m, row) := (Consume(None, c, 0.0, 0).0, ConsumeRow(None, c, 0.0, 0).0);
    OneBucketCall(n, i, c);
    AgreementNeedsCapacity(m, row, other);
    var cost: real, now: int :| Consume(Some(m), other, cost, now).1 != ConsumeRow(Some(row), other, cost, now).1;
    run := [first, Timed(ConsumeTokenBucket(n, i, other, cost), now)];
    assert run[..1] == [first];
  }
}
